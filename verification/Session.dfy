/** The connection object, the reader `read_with`, and what every run of requests keeps
    (rsfbclient-rust/src/client.rs). */
module Session {
  import opened Wrappers
  import opened Util
  import opened Wire
  import opened Rows
  import opened Client

  // ---------------------------------------------------------------- what the server sends

  /** `n` keepalive packets. */
  function Dummies(n: nat): seq<byte> {
    if n == 0 then [] else U32Bytes(OP_DUMMY) + Dummies(n - 1)
  }

  /** A generic response packet behind some keepalives. */
  datatype Frame = Frame(dummies: nat, reply: Reply) {
    function Bytes(): seq<byte>
      requires reply.Fits()
    {
      Dummies(dummies) + U32Bytes(OP_RESPONSE) + reply.Bytes()
    }
  }

  ghost predicate FramesFit(frames: seq<Frame>) {
    forall i :: 0 <= i < |frames| ==> frames[i].reply.Fits()
  }

  ghost predicate AllSucceed(texts: Texts, frames: seq<Frame>) {
    forall i :: 0 <= i < |frames| ==> frames[i].reply.Succeeds(texts)
  }

  ghost function FramesBytes(frames: seq<Frame>): seq<byte>
    requires FramesFit(frames)
  {
    if frames == [] then [] else frames[0].Bytes() + FramesBytes(frames[1..])
  }

  lemma {:induction false} FramesConcat(a: seq<Frame>, b: seq<Frame>)
    requires FramesFit(a) && FramesFit(b)
    ensures FramesFit(a + b)
    ensures FramesBytes(a + b) == FramesBytes(a) + FramesBytes(b)
  {
    hide Frame.Bytes;
    if a == [] {
      assert a + b == b;
    } else {
      FramesConcat(a[1..], b);
      assert (a + b)[1..] == a[1..] + b;
    }
  }

  lemma NoFrames()
    ensures FramesBytes([]) == []
  {
  }

  lemma FramesAppend(frames: seq<Frame>, last: Frame)
    requires FramesFit(frames) && last.reply.Fits()
    ensures FramesFit(frames + [last])
    ensures FramesBytes(frames + [last]) == FramesBytes(frames) + last.Bytes()
  {
    hide Frame.Bytes;
    FramesConcat(frames, [last]);
    assert FramesBytes([last]) == last.Bytes() + FramesBytes([]);
  }

  lemma {:induction false} NextOpSkipsDummies(n: nat, op: u32, more: seq<byte>)
    requires op != OP_DUMMY
    ensures NextOp(Dummies(n) + U32Bytes(op) + more) == Done(op, more)
  {
    hide ReadU32, U32Bytes;
    if n == 0 {
      assert Dummies(0) + U32Bytes(op) + more == U32Bytes(op) + more;
      U32RoundTrip(op, more);
    } else {
      var rest := Dummies(n - 1) + U32Bytes(op) + more;
      assert Dummies(n) + U32Bytes(op) + more == U32Bytes(OP_DUMMY) + rest;
      U32RoundTrip(OP_DUMMY, rest);
      NextOpSkipsDummies(n - 1, op, more);
    }
  }

  /** The first frame is read as its reply says, and exactly its bytes are consumed. */
  lemma FrameRoundTrip(texts: Texts, frame: Frame, more: seq<byte>)
    requires frame.reply.Fits()
    ensures NextOp(frame.Bytes() + more) == Done(OP_RESPONSE, frame.reply.Bytes() + more)
    ensures ReadResponse(texts, frame.reply.Bytes() + more)
         == match frame.reply.Error(texts)
            case Some(e) => Failed(e, more)
            case None => Done(frame.reply.body, more)
  {
    hide U32Bytes, Dummies, Reply.Bytes, ReadResponse, NextOp;
    assert frame.Bytes() + more == Dummies(frame.dummies) + U32Bytes(OP_RESPONSE) + (frame.reply.Bytes() + more);
    NextOpSkipsDummies(frame.dummies, OP_RESPONSE, frame.reply.Bytes() + more);
    ResponseRoundTrip(texts, frame.reply, more);
  }

  /** When all lazy replies succeed, exactly they are skipped. */
  lemma {:induction false} SkipLazyReplies(texts: Texts, lazies: seq<Frame>, tail: seq<byte>)
    requires FramesFit(lazies) && AllSucceed(texts, lazies)
    requires NextOp(tail).Done?
    ensures SkipLazy(texts, FramesBytes(lazies) + tail, |lazies|) == Got(NextOp(tail).value, NextOp(tail).rest, 0)
    decreases |lazies|
  {
    hide NextOp, ReadResponse, Frame.Bytes, Reply.Bytes, Reply.Error;
    if lazies == [] {
      assert FramesBytes(lazies) + tail == tail;
    } else {
      var more := FramesBytes(lazies[1..]) + tail;
      assert FramesBytes(lazies) + tail == lazies[0].Bytes() + more;
      FrameRoundTrip(texts, lazies[0], more);
      SkipLazyReplies(texts, lazies[1..], tail);
    }
  }

  /** When lazy reply `k` is the first that fails, its error is returned at once: the replies
      behind it stay unread, and so does the reply the request is waiting for. */
  lemma {:induction false} SkipLazyStopsAtError(texts: Texts, lazies: seq<Frame>, k: nat, tail: seq<byte>)
    requires FramesFit(lazies) && k < |lazies|
    requires AllSucceed(texts, lazies[..k]) && !lazies[k].reply.Succeeds(texts)
    ensures SkipLazy(texts, FramesBytes(lazies) + tail, |lazies|)
         == Bad(lazies[k].reply.Error(texts).value, FramesBytes(lazies[k + 1..]) + tail, |lazies| - k - 1)
    decreases |lazies|
  {
    hide NextOp, ReadResponse, Frame.Bytes, Reply.Bytes, Reply.Error;
    var more := FramesBytes(lazies[1..]) + tail;
    assert FramesBytes(lazies) + tail == lazies[0].Bytes() + more;
    FrameRoundTrip(texts, lazies[0], more);
    if k > 0 {
      assert lazies[0] == lazies[..k][0];
      assert lazies[1..][..k - 1] == lazies[..k][1..];
      SkipLazyStopsAtError(texts, lazies[1..], k - 1, tail);
      assert lazies[1..][k..] == lazies[k + 1..];
    }
  }

  /** A packet with some op code, behind some keepalives. */
  function OpBytes(dummies: nat, op: u32, more: seq<byte>): seq<byte> {
    Dummies(dummies) + U32Bytes(op) + more
  }

  /** In the place of a lazy reply any other packet is an error: its op code is consumed, and it
      and the lazy replies behind it stay counted. */
  lemma {:induction false} OtherLazyIsRejected(texts: Texts, lazies: seq<Frame>, behind: nat, dummies: nat, op: u32,
                                               more: seq<byte>)
    requires FramesFit(lazies) && AllSucceed(texts, lazies) && op != OP_DUMMY && op != OP_RESPONSE
    ensures SkipLazy(texts, FramesBytes(lazies) + OpBytes(dummies, op, more), |lazies| + 1 + behind)
         == Bad(Rejected(op), more, 1 + behind)
    decreases |lazies|
  {
    hide NextOp, ReadResponse, Frame.Bytes, Reply.Bytes, Reply.Error, U32Bytes, Dummies;
    var tail := OpBytes(dummies, op, more);
    if lazies == [] {
      assert FramesBytes(lazies) + tail == tail;
      NextOpSkipsDummies(dummies, op, more);
    } else {
      var rest := FramesBytes(lazies[1..]) + tail;
      assert FramesBytes(lazies) + tail == lazies[0].Bytes() + rest;
      FrameRoundTrip(texts, lazies[0], rest);
      OtherLazyIsRejected(texts, lazies[1..], behind, dummies, op, more);
    }
  }

  /** Behind succeeding lazy replies, a packet that cannot answer the request is an error naming
      its op code, which is all that is consumed of it. */
  lemma OtherAnswerIsRejected(texts: Texts, fmt: Layout, lazies: seq<Frame>, dummies: nat, op: u32, more: seq<byte>)
    requires FramesFit(lazies) && AllSucceed(texts, lazies) && op != OP_DUMMY && op != OP_RESPONSE
    ensures var s := FramesBytes(lazies) + OpBytes(dummies, op, more);
            && ReadReply(texts, s, |lazies|) == Bad(Rejected(op), more, 0)
            && ReadPrepare(texts, s, |lazies|) == Bad(Rejected(op), more, 0)
            && (op != OP_SQL_RESPONSE ==> ReadExecute2(texts, fmt, s, |lazies|) == Bad(Rejected(op), more, 0))
            && (op != OP_FETCH_RESPONSE ==> ReadFetch(texts, fmt, s, |lazies|) == Bad(UnexpectedFetchOp(op), more, 0))
  {
    hide NextOp, SkipLazy, ReadResponse, FramesBytes, AllSucceed, U32Bytes, Dummies, ReadRow;
    NextOpSkipsDummies(dummies, op, more);
    SkipLazyReplies(texts, lazies, OpBytes(dummies, op, more));
  }

  /** The same behind the reply to an allocation. */
  lemma OtherPrepareIsRejected(texts: Texts, lazies: seq<Frame>, alloc: Frame, dummies: nat, op: u32, more: seq<byte>)
    requires FramesFit(lazies) && AllSucceed(texts, lazies) && op != OP_DUMMY && op != OP_RESPONSE
    requires alloc.reply.Fits() && alloc.reply.Succeeds(texts)
    ensures ReadPrepare(texts, FramesBytes(lazies) + (alloc.Bytes() + OpBytes(dummies, op, more)), |lazies|)
         == Bad(Rejected(op), more, 0)
  {
    hide NextOp, SkipLazy, ReadResponse, FramesBytes, AllSucceed, U32Bytes, Dummies, Frame.Bytes, Reply.Bytes,
         Reply.Error;
    var tail := OpBytes(dummies, op, more);
    NextOpSkipsDummies(dummies, op, more);
    FrameRoundTrip(texts, alloc, tail);
    SkipLazyReplies(texts, lazies, alloc.Bytes() + tail);
  }

  /** What an `execute2` makes of a generic response in the place of a row: the error of the
      server, or, if it reports none, that the response is out of place. */
  function OutOfPlace(texts: Texts, own: Frame): FbError {
    match own.reply.Error(texts)
    case Some(e) => e
    case None => Rejected(OP_RESPONSE)
  }

  /** A generic response in the place of the row of an `execute2` is read to its end, and its
      error is the result. */
  lemma Execute2GetsItsError(texts: Texts, fmt: Layout, lazies: seq<Frame>, own: Frame, more: seq<byte>)
    requires FramesFit(lazies) && AllSucceed(texts, lazies) && own.reply.Fits()
    ensures ReadExecute2(texts, fmt, FramesBytes(lazies) + (own.Bytes() + more), |lazies|)
         == Bad(OutOfPlace(texts, own), more, 0)
  {
    hide NextOp, SkipLazy, ReadResponse, FramesBytes, AllSucceed, Frame.Bytes, Reply.Bytes, Reply.Error, ReadRow;
    FrameRoundTrip(texts, own, more);
    SkipLazyReplies(texts, lazies, own.Bytes() + more);
  }

  // ---------------------------------------------------------------- the connection

  /** The peer of a connection: `inbox` is everything it has sent that was not read yet. */
  class Socket {
    var inbox: seq<byte>

    constructor ()
      ensures inbox == []
    {
      inbox := [];
    }

    /** Hands out some of the bytes, as many as it likes; nothing only when there is nothing. */
    method Read(max: nat) returns (chunk: seq<byte>)
      requires max > 0
      modifies this
      ensures old(inbox) == chunk + inbox
      ensures |chunk| <= max
      ensures chunk == [] <==> old(inbox) == []
    {
      if inbox == [] {
        return [];
      }
      var n :| 1 <= n <= |inbox| && n <= max;
      chunk := inbox[..n];
      inbox := inbox[n..];
    }

    /** The peer answers a request. */
    method Deliver(bytes: seq<byte>)
      modifies this
      ensures inbox == old(inbox) + bytes
    {
      inbox := inbox + bytes;
    }
  }

  /** What a caller of `read_with` sees: the result and the bytes and lazy count left behind.
      An attempt that is short of bytes when the peer has no more ends in a closed connection. */
  ghost predicate Answers<T>(a: Attempt<T>, r: Result<T, FbError>, stream: seq<byte>, lazy: nat) {
    match a
    case Got(v, rest, z) => r == Ok(v) && stream == rest && lazy == z
    case Short => r == Err(ConnectionClosed)
    case Bad(e, rest, z) => r == Err(e) && stream == rest && lazy == z
  }

  class FirebirdWireConnection {
    const socket: Socket
    const texts: Texts
    /** Size of the scratch buffer a single read fills. */
    const buffLen: nat
    var pending: seq<byte>
    var lazyCount: nat

    /** The replies to `free_statement` calls that were not read yet. */
    ghost var outstanding: seq<Frame>

    constructor (socket: Socket, texts: Texts, buffLen: nat)
      requires buffLen > 0 && socket.inbox == []
      ensures this.socket == socket && this.texts == texts && this.buffLen == buffLen
      ensures Valid() && outstanding == []
    {
      this.socket := socket;
      this.texts := texts;
      this.buffLen := buffLen;
      pending := [];
      lazyCount := 0;
      outstanding := [];
    }

    /** The received but unconsumed bytes, followed by the unread ones. */
    ghost function Stream(): seq<byte>
      reads this, socket
    {
      pending + socket.inbox
    }

    /** The session is aligned: what is left of the stream is exactly the outstanding lazy
        replies, and the lazy count is their number. */
    ghost predicate Valid()
      reads this, socket
    {
      buffLen > 0
      && FramesFit(outstanding)
      && Stream() == FramesBytes(outstanding)
      && lazyCount == |outstanding|
    }

    /** `read_with`: however the peer cuts its bytes into reads, the result is that of parsing
        the whole stream at once, and exactly the bytes that parse consumes are consumed. */
    method ReadWith<T(!new)>(parse: Parser<T>) returns (r: Result<T, FbError>)
      requires buffLen > 0
      requires Stable(parse)
      modifies this`pending, this`lazyCount, socket
      ensures Answers(parse(old(Stream()), old(lazyCount)), r, Stream(), lazyCount)
      ensures parse(old(Stream()), old(lazyCount)).Short? ==>
                pending == old(Stream()) && socket.inbox == [] && lazyCount == old(lazyCount)
    {
      while true
        invariant Stream() == old(Stream()) && lazyCount == old(lazyCount)
        decreases |socket.inbox|
      {
        var attempt := parse(pending, lazyCount);
        assert !attempt.Short? ==> parse(pending + socket.inbox, lazyCount) == attempt.Append(socket.inbox);
        match attempt
        case Got(parsed, view, lazy) =>
          pending := view;
          lazyCount := lazy;
          return Ok(parsed);
        case Short =>
          var chunk := socket.Read(buffLen);
          if chunk == [] {
            assert pending + [] == pending;
            return Err(ConnectionClosed);
          }
          pending := pending + chunk;
        case Bad(e, view, lazy) =>
          pending := view;
          lazyCount := lazy;
          return Err(e);
      }
    }

    /** `free_statement`: the request is sent, its reply is left for later. */
    method FreeStatement(reply: Frame)
      requires Valid() && reply.reply.Fits()
      modifies this, socket
      ensures Valid()
      ensures outstanding == old(outstanding) + [reply]
      ensures pending == old(pending)
    {
      hide Frame.Bytes, FramesBytes;
      FramesAppend(outstanding, reply);
      socket.Deliver(reply.Bytes());
      lazyCount := lazyCount + 1;
      outstanding := outstanding + [reply];
      assert Stream() == FramesBytes(old(outstanding)) + reply.Bytes();
    }

    /** A request answered by a generic response: send it, then `read_response`. */
    method Request(answer: Frame) returns (r: Result<Response, FbError>)
      requires Valid() && answer.reply.Fits()
      modifies this, socket
      ensures Answers(ReadReply(texts, old(Stream()) + answer.Bytes(), old(lazyCount)), r, Stream(), lazyCount)
      ensures AllSucceed(texts, old(outstanding)) ==>
                Valid() && outstanding == [] && r == answer.reply.Outcome(texts)
    {
      hide ReadReply, Frame.Bytes, Reply.Error;
      socket.Deliver(answer.Bytes());
      assert Stream() == old(Stream()) + answer.Bytes();
      var texts := texts;
      var parse := (s, z) => ReadReply(texts, s, z);
      forall s, more, z | !parse(s, z).Short? ensures parse(s + more, z) == parse(s, z).Append(more) {
        ReplyStable(texts, s, z, more);
      }
      r := ReadWith(parse);
      if AllSucceed(texts, old(outstanding)) {
        RequestGetsItsReply(texts, old(outstanding), answer);
        outstanding := [];
      }
    }

    /** The round trip of `prepare_statement`: two requests are sent, both replies are read. */
    method Prepare(alloc: Frame, prep: Frame) returns (r: Result<Prepared, FbError>)
      requires Valid() && alloc.reply.Fits() && prep.reply.Fits()
      modifies this, socket
      ensures Answers(ReadPrepare(texts, old(Stream()) + alloc.Bytes() + prep.Bytes(), old(lazyCount)),
                      r, Stream(), lazyCount)
      ensures AllSucceed(texts, old(outstanding)) && alloc.reply.Succeeds(texts) ==>
                Valid() && outstanding == []
                && r == match prep.reply.Outcome(texts)
                        case Ok(body) => Ok(Prepared(alloc.reply.body.handle, body.data))
                        case Err(e) => Err(e)
    {
      hide ReadPrepare, Frame.Bytes, Reply.Error;
      socket.Deliver(alloc.Bytes());
      socket.Deliver(prep.Bytes());
      assert Stream() == old(Stream()) + alloc.Bytes() + prep.Bytes();
      var texts := texts;
      var parse := (s, z) => ReadPrepare(texts, s, z);
      forall s, more, z | !parse(s, z).Short? ensures parse(s + more, z) == parse(s, z).Append(more) {
        PrepareStable(texts, s, z, more);
      }
      r := ReadWith(parse);
      if AllSucceed(texts, old(outstanding)) && alloc.reply.Succeeds(texts) {
        PrepareGetsItsReplies(texts, old(outstanding), alloc, prep);
        outstanding := [];
      }
    }

    /** The round trip of `execute2`. A server error in the place of the row is the result, with
        the session aligned; and so it is whenever nothing is left of the stream. */
    method Execute2(fmt: Layout, answer: seq<byte>) returns (r: Result<seq<ParsedColumn>, FbError>)
      requires buffLen > 0
      modifies this, socket
      ensures Answers(ReadExecute2(texts, fmt, old(Stream()) + answer, old(lazyCount)), r, Stream(), lazyCount)
      ensures forall own: Frame ::
                own.reply.Fits() && answer == own.Bytes() && old(Valid()) && AllSucceed(texts, old(outstanding)) ==>
                  r == Err(OutOfPlace(texts, own)) && Valid() && outstanding == []
      ensures Stream() == [] && lazyCount == 0 ==> Valid() && outstanding == []
    {
      hide ReadExecute2, FramesBytes, Frame.Bytes, AllSucceed, Reply.Error;
      forall own: Frame |
        own.reply.Fits() && answer == own.Bytes() && Valid() && AllSucceed(texts, outstanding)
        ensures ReadExecute2(texts, fmt, Stream() + answer, lazyCount) == Bad(OutOfPlace(texts, own), [], 0)
      {
        Execute2GetsItsError(texts, fmt, outstanding, own, []);
        assert own.Bytes() + [] == own.Bytes();
      }
      socket.Deliver(answer);
      assert Stream() == old(Stream()) + answer;
      var texts := texts;
      var parse := (s, z) => ReadExecute2(texts, fmt, s, z);
      forall s, more, z | !parse(s, z).Short? ensures parse(s + more, z) == parse(s, z).Append(more) {
        Execute2Stable(texts, fmt, s, z, more);
      }
      r := ReadWith(parse);
      NoFrames();
      if Stream() == [] && lazyCount == 0 {
        outstanding := [];
      }
    }
  }

  // ---------------------------------------------------------------- one request

  /** With succeeding lazy replies in front, a request gets its own reply, be it a success or
      an error, and nothing is left of the stream. */
  lemma RequestGetsItsReply(texts: Texts, lazies: seq<Frame>, own: Frame)
    requires FramesFit(lazies) && own.reply.Fits()
    requires AllSucceed(texts, lazies)
    ensures ReadReply(texts, FramesBytes(lazies) + own.Bytes(), |lazies|)
         == match own.reply.Outcome(texts)
            case Ok(body) => Got(body, [], 0)
            case Err(e) => Bad(e, [], 0)
  {
    hide NextOp, ReadResponse, Frame.Bytes, Reply.Bytes, SkipLazy, Reply.Error;
    assert own.Bytes() + [] == own.Bytes() && own.reply.Bytes() + [] == own.reply.Bytes();
    FrameRoundTrip(texts, own, []);
    SkipLazyReplies(texts, lazies, own.Bytes());
  }

  lemma PrepareGetsItsReplies(texts: Texts, lazies: seq<Frame>, alloc: Frame, prep: Frame)
    requires FramesFit(lazies) && alloc.reply.Fits() && prep.reply.Fits()
    requires AllSucceed(texts, lazies) && alloc.reply.Succeeds(texts)
    ensures ReadPrepare(texts, FramesBytes(lazies) + alloc.Bytes() + prep.Bytes(), |lazies|)
         == match prep.reply.Outcome(texts)
            case Ok(body) => Got(Prepared(alloc.reply.body.handle, body.data), [], 0)
            case Err(e) => Bad(e, [], 0)
  {
    hide NextOp, ReadResponse, Frame.Bytes, Reply.Bytes, SkipLazy, Reply.Error, FramesBytes, AllSucceed, FramesFit;
    assert FramesBytes(lazies) + alloc.Bytes() + prep.Bytes() == FramesBytes(lazies) + (alloc.Bytes() + prep.Bytes());
    FrameRoundTrip(texts, alloc, prep.Bytes());
    SkipLazyReplies(texts, lazies, alloc.Bytes() + prep.Bytes());
    assert prep.Bytes() + [] == prep.Bytes() && prep.reply.Bytes() + [] == prep.reply.Bytes();
    FrameRoundTrip(texts, prep, []);
  }
}
