/** What holds over every run of requests on one connection, and exactly when it does
    (rsfbclient-rust/src/client.rs). The connection is reduced to the bytes it has not
    consumed and its lazy count; `FirebirdWireConnection` proves that each of its methods
    does to them what the functions here say. */
module SessionRuns {
  import opened Wrappers
  import opened Util
  import opened Wire
  import opened Rows
  import opened Client
  import opened Session
  import opened Fetch

  /** One call on the connection, together with what the server sends for it. */
  datatype Op =
    | Free(reply: Frame)
    | Ask(reply: Frame)
    | Prep(alloc: Frame, prep: Frame)
    | FetchRows(fmt: Layout, count: nat, batch: Batch)

  datatype Answer =
    | Quiet
    | Replied(r: Result<Response, FbError>)
    | Statement(s: Result<Prepared, FbError>)
    | Rows(f: Result<Fetched, FbError>)

  datatype State = State(stream: seq<byte>, lazy: nat)

  ghost predicate OpFits(texts: Texts, op: Op) {
    match op
    case Free(reply) => reply.reply.Fits()
    case Ask(reply) => reply.reply.Fits()
    case Prep(alloc, prep) => alloc.reply.Fits() && prep.reply.Fits()
    case FetchRows(fmt, count, batch) => BatchFits(texts, fmt, batch) && |batch.rows| <= count
  }

  ghost predicate OpsFit(texts: Texts, ops: seq<Op>) {
    forall i :: 0 <= i < |ops| ==> OpFits(texts, ops[i])
  }

  /** The replies nobody waits for: those to `free_statement` and to an allocation. */
  predicate UnheardSucceeds(texts: Texts, op: Op) {
    match op
    case Free(reply) => reply.reply.Succeeds(texts)
    case Prep(alloc, _) => alloc.reply.Succeeds(texts)
    case _ => true
  }

  ghost predicate UnheardSucceed(texts: Texts, ops: seq<Op>) {
    forall i :: 0 <= i < |ops| ==> UnheardSucceeds(texts, ops[i])
  }

  function Outcome<T>(a: Attempt<T>): Result<T, FbError> {
    match a
    case Got(v, _, _) => Ok(v)
    case Short => Err(ConnectionClosed)
    case Bad(e, _, _) => Err(e)
  }

  /** What is left of a stream; all of it when the peer has not sent enough. */
  function After<T>(a: Attempt<T>, sent: State): State {
    match a
    case Got(_, rest, z) => State(rest, z)
    case Short => sent
    case Bad(_, rest, z) => State(rest, z)
  }

  /** What one call does to the connection. */
  ghost function Step(texts: Texts, st: State, op: Op): (Answer, State)
    requires OpFits(texts, op)
  {
    match op
    case Free(reply) => (Quiet, State(st.stream + reply.Bytes(), st.lazy + 1))
    case Ask(reply) =>
      var sent := State(st.stream + reply.Bytes(), st.lazy);
      var a := ReadReply(texts, sent.stream, sent.lazy);
      (Replied(Outcome(a)), After(a, sent))
    case Prep(alloc, prep) =>
      var sent := State(st.stream + alloc.Bytes() + prep.Bytes(), st.lazy);
      var a := ReadPrepare(texts, sent.stream, sent.lazy);
      (Statement(Outcome(a)), After(a, sent))
    case FetchRows(fmt, count, batch) =>
      var sent := State(st.stream + BatchBytes(texts, fmt, batch, 0), st.lazy);
      var a := ReadBatch(texts, fmt, count, sent.stream, sent.lazy, []);
      (Rows(Outcome(a)), After(a, sent))
  }

  ghost function Run(texts: Texts, st: State, ops: seq<Op>): (seq<Answer>, State)
    requires OpsFit(texts, ops)
    decreases |ops|
  {
    hide Step, OpFits;
    if ops == [] then ([], st)
    else
      var (answer, st1) := Step(texts, st, ops[0]);
      var (answers, st2) := Run(texts, st1, ops[1..]);
      ([answer] + answers, st2)
  }

  /** What the caller should get: its own reply, and nobody else's. */
  ghost function Expected(texts: Texts, op: Op): Answer
    requires OpFits(texts, op)
  {
    match op
    case Free(_) => Quiet
    case Ask(reply) => Replied(reply.reply.Outcome(texts))
    case Prep(alloc, prep) =>
      Statement(match prep.reply.Outcome(texts)
                case Ok(body) => Ok(Prepared(alloc.reply.body.handle, body.data))
                case Err(e) => Err(e))
    case FetchRows(fmt, count, batch) => Rows(BatchOutcome(texts, fmt, batch))
  }

  /** The lazy replies outstanding after a call. */
  function Left(lazies: seq<Frame>, op: Op): seq<Frame> {
    if op.Free? then lazies + [op.reply] else []
  }

  function LeftAfter(lazies: seq<Frame>, ops: seq<Op>): seq<Frame>
    decreases |ops|
  {
    if ops == [] then lazies else LeftAfter(Left(lazies, ops[0]), ops[1..])
  }

  ghost function Aligned(lazies: seq<Frame>): State
    requires FramesFit(lazies)
  {
    State(FramesBytes(lazies), |lazies|)
  }

  /** One call keeps the session aligned and gets its own answer. */
  lemma StepStaysAligned(texts: Texts, lazies: seq<Frame>, op: Op)
    requires FramesFit(lazies) && AllSucceed(texts, lazies)
    requires OpFits(texts, op) && UnheardSucceeds(texts, op)
    ensures FramesFit(Left(lazies, op)) && AllSucceed(texts, Left(lazies, op))
    ensures Step(texts, Aligned(lazies), op) == (Expected(texts, op), Aligned(Left(lazies, op)))
  {
    hide ReadReply, ReadPrepare, ReadBatch, Frame.Bytes, BatchBytes, FramesBytes, Reply.Error, BatchFits, RefusalError;
    NoFrames();
    match op
    case Free(reply) => FramesAppend(lazies, reply);
    case Ask(reply) => RequestGetsItsReply(texts, lazies, reply);
    case Prep(alloc, prep) => PrepareGetsItsReplies(texts, lazies, alloc, prep);
    case FetchRows(fmt, count, batch) =>
      var bytes := FramesBytes(lazies) + BatchBytes(texts, fmt, batch, 0);
      assert bytes + [] == bytes;
      BatchRoundTrip(texts, fmt, count, lazies, batch, []);
  }

  /** The session invariant, over every run: with keepalives anywhere and lazy replies piling
      up in between, every call gets its own answer, an error the server reports included, and
      what is left of the stream is always exactly the outstanding lazy replies. */
  lemma {:induction false} RunStaysAligned(texts: Texts, lazies: seq<Frame>, ops: seq<Op>)
    requires FramesFit(lazies) && AllSucceed(texts, lazies)
    requires OpsFit(texts, ops) && UnheardSucceed(texts, ops)
    ensures FramesFit(LeftAfter(lazies, ops))
    ensures Run(texts, Aligned(lazies), ops).1 == Aligned(LeftAfter(lazies, ops))
    ensures |Run(texts, Aligned(lazies), ops).0| == |ops|
    ensures forall i :: 0 <= i < |ops| ==> Run(texts, Aligned(lazies), ops).0[i] == Expected(texts, ops[i])
    decreases |ops|
  {
    hide Step, Expected, Aligned, FramesFit, AllSucceed, OpFits, UnheardSucceeds, Left;
    if ops != [] {
      StepStaysAligned(texts, lazies, ops[0]);
      RunStaysAligned(texts, Left(lazies, ops[0]), ops[1..]);
      var answers := Run(texts, Aligned(Left(lazies, ops[0])), ops[1..]).0;
      forall i | 0 <= i < |ops|
        ensures Run(texts, Aligned(lazies), ops).0[i] == Expected(texts, ops[i])
      {
        if i > 0 {
          assert answers[i - 1] == Expected(texts, ops[1..][i - 1]);
        }
      }
    }
  }

  // ---------------------------------------------------------------- exactly when it holds

  /** The stream holds as many lazy replies as the lazy count says, and nothing else. */
  ghost predicate IsAligned(st: State) {
    exists frames: seq<Frame> :: FramesFit(frames) && |frames| == st.lazy && FramesBytes(frames) == st.stream
  }

  /** Tables without any text, under which every reply reads as a success. */
  const QUIET: Texts := Texts(_ => "", _ => "", _ => None)

  /** A stream is made of one number of frames only. */
  lemma {:induction false} FrameCountIsUnique(a: seq<Frame>, b: seq<Frame>)
    requires FramesFit(a) && FramesFit(b)
    requires FramesBytes(a) == FramesBytes(b)
    ensures |a| == |b|
    decreases |a|
  {
    hide NextOp, ReadResponse, Reply.Bytes, Frame.Bytes, Reply.Error;
    if a != [] {
      FrameIsRead(a[0], FramesBytes(a[1..]));
    }
    if b != [] {
      FrameIsRead(b[0], FramesBytes(b[1..]));
    }
    if a != [] && b != [] {
      FrameCountIsUnique(a[1..], b[1..]);
    }
  }

  lemma FrameIsRead(frame: Frame, more: seq<byte>)
    requires frame.reply.Fits()
    ensures frame.Bytes() + more != []
    ensures NextOp(frame.Bytes() + more).Done?
    ensures ReadResponse(QUIET, NextOp(frame.Bytes() + more).rest) == Done(frame.reply.body, more)
  {
    hide NextOp, ReadResponse, Reply.Bytes, Frame.Bytes;
    FrameRoundTrip(QUIET, frame, more);
    QuietVectorSucceeds(QUIET, frame.reply.status, CLEAN);
  }

  /** The first reply that is an error, or the number of replies. */
  ghost function FirstFailure(texts: Texts, frames: seq<Frame>): (k: nat)
    ensures k <= |frames| && AllSucceed(texts, frames[..k])
    ensures k < |frames| ==> !frames[k].reply.Succeeds(texts)
    ensures k == |frames| <==> AllSucceed(texts, frames)
  {
    hide Reply.Error, Reply.Succeeds;
    if frames == [] || !frames[0].reply.Succeeds(texts) then 0
    else
      OneMoreSucceeds(texts, frames, FirstFailure(texts, frames[1..]));
      1 + FirstFailure(texts, frames[1..])
  }

  lemma OneMoreSucceeds(texts: Texts, frames: seq<Frame>, k: nat)
    requires k < |frames| && frames[0].reply.Succeeds(texts) && AllSucceed(texts, frames[1..][..k])
    ensures AllSucceed(texts, frames[..k + 1])
  {
    hide Reply.Error, Reply.Succeeds;
    assert frames[..k + 1] == [frames[0]] + frames[1..][..k];
  }

  /** What a failing lazy reply does: the request ends in the error of that reply, and the
      reply the request was sent for stays in the stream without being counted. */
  lemma FailedLazyReplyIsReported(texts: Texts, lazies: seq<Frame>, k: nat, own: seq<byte>)
    requires FramesFit(lazies) && k < |lazies|
    requires AllSucceed(texts, lazies[..k]) && !lazies[k].reply.Succeeds(texts)
    ensures ReadReply(texts, FramesBytes(lazies) + own, |lazies|)
         == Bad(lazies[k].reply.Error(texts).value, FramesBytes(lazies[k + 1..]) + own, |lazies| - k - 1)
    ensures ReadPrepare(texts, FramesBytes(lazies) + own, |lazies|)
         == Bad(lazies[k].reply.Error(texts).value, FramesBytes(lazies[k + 1..]) + own, |lazies| - k - 1)
  {
    hide SkipLazy, FramesBytes, ReadResponse, NextOp, Reply.Error;
    SkipLazyStopsAtError(texts, lazies, k, own);
  }

  /** Exactly when a request leaves the session aligned: when no outstanding lazy reply is an
      error. Its own reply does not matter. */
  lemma RequestKeepsAlignmentIff(texts: Texts, lazies: seq<Frame>, own: Frame)
    requires FramesFit(lazies) && own.reply.Fits()
    ensures IsAligned(Step(texts, Aligned(lazies), Ask(own)).1) <==> AllSucceed(texts, lazies)
  {
    hide ReadReply, ReadPrepare, ReadBatch, FramesBytes, Frame.Bytes, Reply.Error;
    var st := Step(texts, Aligned(lazies), Ask(own)).1;
    NoFrames();
    if AllSucceed(texts, lazies) {
      StepStaysAligned(texts, lazies, Ask(own));
      var none: seq<Frame> := [];
      assert FramesFit(none) && |none| == st.lazy && FramesBytes(none) == st.stream;
    } else {
      var k := FirstFailure(texts, lazies);
      FailedLazyReplyIsReported(texts, lazies, k, own.Bytes());
      UncountedFrame(lazies[k + 1..], own);
    }
  }

  /** A stream with one frame more than the lazy count is not aligned. */
  lemma UncountedFrame(counted: seq<Frame>, extra: Frame)
    requires FramesFit(counted) && extra.reply.Fits()
    ensures !IsAligned(State(FramesBytes(counted) + extra.Bytes(), |counted|))
  {
    hide FramesBytes, Frame.Bytes;
    var st := State(FramesBytes(counted) + extra.Bytes(), |counted|);
    FramesAppend(counted, extra);
    if IsAligned(st) {
      var frames: seq<Frame> :| FramesFit(frames) && |frames| == st.lazy && FramesBytes(frames) == st.stream;
      FrameCountIsUnique(frames, counted + [extra]);
    }
  }

  lemma FailedAllocIsReported(texts: Texts, lazies: seq<Frame>, alloc: Frame, prep: seq<byte>)
    requires FramesFit(lazies) && alloc.reply.Fits()
    requires AllSucceed(texts, lazies) && !alloc.reply.Succeeds(texts)
    ensures ReadPrepare(texts, FramesBytes(lazies) + alloc.Bytes() + prep, |lazies|)
         == Bad(alloc.reply.Error(texts).value, prep, 0)
  {
    hide NextOp, ReadResponse, Frame.Bytes, Reply.Bytes, SkipLazy, Reply.Error, FramesBytes, AllSucceed, FramesFit;
    assert FramesBytes(lazies) + alloc.Bytes() + prep == FramesBytes(lazies) + (alloc.Bytes() + prep);
    FrameRoundTrip(texts, alloc, prep);
    SkipLazyReplies(texts, lazies, alloc.Bytes() + prep);
  }

  /** Exactly when preparing a statement leaves the session aligned: when no outstanding lazy
      reply and not the reply to the allocation is an error. */
  lemma PrepareKeepsAlignmentIff(texts: Texts, lazies: seq<Frame>, alloc: Frame, prep: Frame)
    requires FramesFit(lazies) && alloc.reply.Fits() && prep.reply.Fits()
    ensures IsAligned(Step(texts, Aligned(lazies), Prep(alloc, prep)).1)
       <==> AllSucceed(texts, lazies) && alloc.reply.Succeeds(texts)
  {
    hide ReadReply, ReadPrepare, ReadBatch, FramesBytes, Frame.Bytes, Reply.Error;
    var st := Step(texts, Aligned(lazies), Prep(alloc, prep)).1;
    NoFrames();
    if !AllSucceed(texts, lazies) {
      var k := FirstFailure(texts, lazies);
      var own := alloc.Bytes() + prep.Bytes();
      assert FramesBytes(lazies) + alloc.Bytes() + prep.Bytes() == FramesBytes(lazies) + own;
      FailedLazyReplyIsReported(texts, lazies, k, own);
      FrameIsRead(alloc, prep.Bytes());
      Trailing(lazies[k + 1..], own);
    } else if !alloc.reply.Succeeds(texts) {
      FailedAllocIsReported(texts, lazies, alloc, prep.Bytes());
      assert FramesBytes([]) + prep.Bytes() == prep.Bytes();
      UncountedFrame([], prep);
    } else {
      StepStaysAligned(texts, lazies, Prep(alloc, prep));
      var none: seq<Frame> := [];
      assert FramesFit(none) && |none| == st.lazy && FramesBytes(none) == st.stream;
    }
  }

  /** A stream that goes on behind the counted replies is not aligned, whatever follows. */
  lemma Trailing(counted: seq<Frame>, extra: seq<byte>)
    requires FramesFit(counted) && extra != []
    ensures !IsAligned(State(FramesBytes(counted) + extra, |counted|))
  {
    hide FramesBytes;
    var st := State(FramesBytes(counted) + extra, |counted|);
    if IsAligned(st) {
      var frames: seq<Frame> :| FramesFit(frames) && |frames| == st.lazy && FramesBytes(frames) == st.stream;
      FramesArePrefixFree(frames, counted, extra);
    }
  }

  /** As many frames cannot be longer. */
  lemma {:induction false} FramesArePrefixFree(a: seq<Frame>, b: seq<Frame>, extra: seq<byte>)
    requires FramesFit(a) && FramesFit(b) && |a| == |b|
    requires FramesBytes(a) == FramesBytes(b) + extra
    ensures extra == []
    decreases |a|
  {
    hide NextOp, ReadResponse, Reply.Bytes, Frame.Bytes, Reply.Error;
    if a != [] {
      FrameIsRead(a[0], FramesBytes(a[1..]));
      FrameIsRead(b[0], FramesBytes(b[1..]) + extra);
      assert FramesBytes(b) + extra == b[0].Bytes() + (FramesBytes(b[1..]) + extra);
      FramesArePrefixFree(a[1..], b[1..], extra);
    }
  }

  /** Exactly when fetching a batch leaves the session aligned: when no outstanding lazy reply is
      an error. That the server cuts the batch short does not matter. */
  lemma FetchKeepsAlignmentIff(texts: Texts, lazies: seq<Frame>, fmt: Layout, count: nat, batch: Batch)
    requires FramesFit(lazies) && BatchFits(texts, fmt, batch) && |batch.rows| <= count
    ensures IsAligned(Step(texts, Aligned(lazies), FetchRows(fmt, count, batch)).1) <==> AllSucceed(texts, lazies)
  {
    hide ReadReply, ReadPrepare, ReadBatch, FramesBytes, Frame.Bytes, BatchBytes, BatchFits, Reply.Error, RefusalError;
    var op := FetchRows(fmt, count, batch);
    var st := Step(texts, Aligned(lazies), op).1;
    NoFrames();
    if AllSucceed(texts, lazies) {
      StepStaysAligned(texts, lazies, op);
      var none: seq<Frame> := [];
      assert FramesFit(none) && |none| == st.lazy && FramesBytes(none) == st.stream;
    } else {
      var k := FirstFailure(texts, lazies);
      var bytes := BatchBytes(texts, fmt, batch, 0);
      FailedLazyReplyEndsFetch(texts, lazies, k, fmt, count, bytes);
      BatchNotEmpty(texts, fmt, batch);
      Trailing(lazies[k + 1..], bytes);
    }
  }

  lemma FailedLazyReplyEndsFetch(texts: Texts, lazies: seq<Frame>, k: nat, fmt: Layout, count: nat, own: seq<byte>)
    requires FramesFit(lazies) && k < |lazies|
    requires AllSucceed(texts, lazies[..k]) && !lazies[k].reply.Succeeds(texts)
    ensures ReadBatch(texts, fmt, count, FramesBytes(lazies) + own, |lazies|, [])
         == Bad(lazies[k].reply.Error(texts).value, FramesBytes(lazies[k + 1..]) + own, |lazies| - k - 1)
  {
    hide SkipLazy, FramesBytes, ReadFetchBody, Reply.Error;
    SkipLazyStopsAtError(texts, lazies, k, own);
  }

  lemma BatchNotEmpty(texts: Texts, fmt: Layout, batch: Batch)
    requires BatchFits(texts, fmt, batch)
    ensures BatchBytes(texts, fmt, batch, 0) != []
  {
    hide Dummies, Reply.Bytes, RowBytes, RowFits;
  }

  // ---------------------------------------------------------------- when the count is lost

  /** A stream of whole replies, of which the first `lazy` are counted as lazy replies. The
      session is aligned when all of them are. */
  datatype Queue = Queue(frames: seq<Frame>, lazy: nat) {
    ghost predicate Fits() {
      FramesFit(frames) && lazy <= |frames|
    }

    ghost function AsState(): State
      requires Fits()
    {
      State(FramesBytes(frames), lazy)
    }

    function Uncounted(): nat
      requires lazy <= |frames|
    {
      |frames| - lazy
    }
  }

  /** The replies the server sends for a call. */
  function Sent(op: Op): seq<Frame> {
    match op
    case Free(reply) => [reply]
    case Ask(reply) => [reply]
    case Prep(alloc, prep) => [alloc, prep]
    case FetchRows(_, _, _) => []
  }

  function SentAll(ops: seq<Op>): seq<Frame> {
    if ops == [] then [] else Sent(ops[0]) + SentAll(ops[1..])
  }

  ghost predicate NoFetch(ops: seq<Op>) {
    forall i :: 0 <= i < |ops| ==> !ops[i].FetchRows?
  }

  /** What a call answers when these are the replies it is given. */
  function Given(texts: Texts, op: Op, frames: seq<Frame>): Answer
    requires !op.FetchRows? && |Sent(op)| <= |frames|
  {
    match op
    case Free(_) => Quiet
    case Ask(_) => Replied(frames[0].reply.Outcome(texts))
    case Prep(_, _) =>
      Statement(match frames[0].reply.Error(texts)
                case Some(e) => Err(e)
                case None =>
                  match frames[1].reply.Outcome(texts)
                  case Ok(body) => Ok(Prepared(frames[0].reply.body.handle, body.data))
                  case Err(e) => Err(e))
  }

  function Failure(op: Op, e: FbError): Answer
    requires op.Ask? || op.Prep?
  {
    if op.Ask? then Replied(Err(e)) else Statement(Err(e))
  }

  /** How many replies a call leaves behind without counting them: all of its own when a counted
      reply is an error, and one when the reply taken for that to its allocation is. */
  ghost function Missed(texts: Texts, q: Queue, op: Op): nat
    requires q.lazy <= |q.frames| && !op.FetchRows?
  {
    if op.Free? then 0
    else if FirstFailure(texts, q.frames[..q.lazy]) < q.lazy then |Sent(op)|
    else if op.Prep? && !(q.frames + Sent(op))[q.lazy].reply.Succeeds(texts) then 1
    else 0
  }

  /** What one call does to a stream of replies. */
  ghost function QueueStep(texts: Texts, q: Queue, op: Op): (r: (Answer, Queue))
    requires q.lazy <= |q.frames| && !op.FetchRows?
    ensures r.1.lazy <= |r.1.frames|
    ensures r.1.Uncounted() == q.Uncounted() + Missed(texts, q, op)
  {
    var all := q.frames + Sent(op);
    var k := FirstFailure(texts, q.frames[..q.lazy]);
    if op.Free? then (Quiet, Queue(all, q.lazy + 1))
    else if k < q.lazy then
      (Failure(op, all[k].reply.Error(texts).value), Queue(all[k + 1..], q.lazy - k - 1))
    else
      (Given(texts, op, all[q.lazy..]), Queue(all[q.lazy + |Sent(op)| - Missed(texts, q, op)..], 0))
  }

  lemma SplitFrames(frames: seq<Frame>, k: nat)
    requires FramesFit(frames) && k <= |frames|
    ensures FramesBytes(frames) == FramesBytes(frames[..k]) + FramesBytes(frames[k..])
  {
    hide FramesBytes;
    assert frames == frames[..k] + frames[k..];
    FramesConcat(frames[..k], frames[k..]);
  }

  lemma FirstFrame(frames: seq<Frame>)
    requires FramesFit(frames) && frames != []
    ensures FramesBytes(frames) == frames[0].Bytes() + FramesBytes(frames[1..])
  {
    hide Frame.Bytes;
  }

  lemma FailureOnQueue(texts: Texts, all: seq<Frame>, lazy: nat)
    requires FramesFit(all) && lazy <= |all| && FirstFailure(texts, all[..lazy]) < lazy
    ensures var k := FirstFailure(texts, all[..lazy]);
            var bad := Bad(all[k].reply.Error(texts).value, FramesBytes(all[k + 1..]), lazy - k - 1);
            && ReadReply(texts, FramesBytes(all), lazy) == bad
            && ReadPrepare(texts, FramesBytes(all), lazy) == Bad(bad.error, bad.rest, bad.lazy)
  {
    hide ReadReply, ReadPrepare, FramesBytes, Reply.Error;
    var k := FirstFailure(texts, all[..lazy]);
    SplitFrames(all, lazy);
    FailedLazyReplyIsReported(texts, all[..lazy], k, FramesBytes(all[lazy..]));
    SplitFrames(all[k + 1..], lazy - k - 1);
    assert all[..lazy][k + 1..] == all[k + 1..][..lazy - k - 1];
    assert all[lazy..] == all[k + 1..][lazy - k - 1..];
  }

  lemma AskOnQueue(texts: Texts, all: seq<Frame>, lazy: nat)
    requires FramesFit(all) && lazy < |all| && AllSucceed(texts, all[..lazy])
    ensures ReadReply(texts, FramesBytes(all), lazy)
         == match all[lazy].reply.Outcome(texts)
            case Ok(body) => Got(body, FramesBytes(all[lazy + 1..]), 0)
            case Err(e) => Bad(e, FramesBytes(all[lazy + 1..]), 0)
  {
    hide NextOp, ReadResponse, SkipLazy, FramesBytes, Reply.Error, Reply.Bytes, Frame.Bytes, AllSucceed;
    var own := all[lazy..];
    assert own[1..] == all[lazy + 1..];
    SplitFrames(all, lazy);
    FirstFrame(own);
    FrameRoundTrip(texts, all[lazy], FramesBytes(own[1..]));
    SkipLazyReplies(texts, all[..lazy], FramesBytes(own));
  }

  lemma PrepOnQueue(texts: Texts, all: seq<Frame>, lazy: nat)
    requires FramesFit(all) && lazy + 1 < |all| && AllSucceed(texts, all[..lazy])
    ensures ReadPrepare(texts, FramesBytes(all), lazy)
         == match all[lazy].reply.Error(texts)
            case Some(e) => Bad(e, FramesBytes(all[lazy + 1..]), 0)
            case None =>
              match all[lazy + 1].reply.Outcome(texts)
              case Ok(body) => Got(Prepared(all[lazy].reply.body.handle, body.data), FramesBytes(all[lazy + 2..]), 0)
              case Err(e) => Bad(e, FramesBytes(all[lazy + 2..]), 0)
  {
    hide NextOp, ReadResponse, SkipLazy, FramesBytes, Reply.Error, Reply.Bytes, Frame.Bytes, AllSucceed;
    var own := all[lazy..];
    assert own[1..] == all[lazy + 1..] && own[1..][1..] == all[lazy + 2..];
    SplitFrames(all, lazy);
    FirstFrame(own);
    FirstFrame(own[1..]);
    FrameRoundTrip(texts, all[lazy], FramesBytes(own[1..]));
    FrameRoundTrip(texts, all[lazy + 1], FramesBytes(own[1..][1..]));
    SkipLazyReplies(texts, all[..lazy], FramesBytes(own));
  }

  lemma SentFits(texts: Texts, op: Op)
    requires OpFits(texts, op)
    ensures FramesFit(Sent(op))
    ensures op.Free? || op.Ask? ==> FramesBytes(Sent(op)) == op.reply.Bytes()
    ensures op.Prep? ==> FramesBytes(Sent(op)) == op.alloc.Bytes() + op.prep.Bytes()
  {
    hide Frame.Bytes, BatchFits, FramesBytes;
    if op.Prep? {
      OneFrame(op.alloc);
      OneFrame(op.prep);
      FramesConcat([op.alloc], [op.prep]);
      assert Sent(op) == [op.alloc] + [op.prep];
    } else if !op.FetchRows? {
      OneFrame(op.reply);
    }
  }

  lemma OneFrame(frame: Frame)
    requires frame.reply.Fits()
    ensures FramesFit([frame]) && FramesBytes([frame]) == frame.Bytes()
  {
    hide Frame.Bytes;
    assert FramesBytes([frame]) == frame.Bytes() + FramesBytes([]);
  }

  /** What is sent for a call joins the stream. */
  lemma SentOnQueue(texts: Texts, q: Queue, op: Op)
    requires q.Fits() && OpFits(texts, op) && !op.FetchRows?
    ensures FramesFit(q.frames + Sent(op)) && (q.frames + Sent(op))[..q.lazy] == q.frames[..q.lazy]
    ensures op.Free? ==> Step(texts, q.AsState(), op) == (Quiet, State(FramesBytes(q.frames + Sent(op)), q.lazy + 1))
    ensures var sent := State(FramesBytes(q.frames + Sent(op)), q.lazy);
            var ask, prep := ReadReply(texts, sent.stream, sent.lazy), ReadPrepare(texts, sent.stream, sent.lazy);
            && (op.Ask? ==> Step(texts, q.AsState(), op) == (Replied(Outcome(ask)), After(ask, sent)))
            && (op.Prep? ==> Step(texts, q.AsState(), op) == (Statement(Outcome(prep)), After(prep, sent)))
  {
    hide ReadReply, ReadPrepare, ReadBatch, FramesBytes, Frame.Bytes, BatchFits;
    SentFits(texts, op);
    FramesConcat(q.frames, Sent(op));
    if op.Prep? {
      var st := FramesBytes(q.frames);
      assert st + op.alloc.Bytes() + op.prep.Bytes() == st + (op.alloc.Bytes() + op.prep.Bytes());
    }
  }

  /** On a stream of whole replies, a call takes the replies as they come. */
  lemma StepOnQueue(texts: Texts, q: Queue, op: Op)
    requires q.Fits() && OpFits(texts, op) && !op.FetchRows?
    ensures QueueStep(texts, q, op).1.Fits()
    ensures Step(texts, q.AsState(), op) == (QueueStep(texts, q, op).0, QueueStep(texts, q, op).1.AsState())
  {
    hide Step, ReadReply, ReadPrepare, FramesBytes, Reply.Error, OpFits, FirstFailure, AllSucceed;
    var all := q.frames + Sent(op);
    SentOnQueue(texts, q, op);
    if op.Free? {
    } else if FirstFailure(texts, q.frames[..q.lazy]) < q.lazy {
      FailureOnQueue(texts, all, q.lazy);
    } else if op.Ask? {
      AskOnQueue(texts, all, q.lazy);
    } else {
      PrepStep(texts, q, op);
    }
  }

  lemma PrepStep(texts: Texts, q: Queue, op: Op)
    requires q.Fits() && OpFits(texts, op) && op.Prep? && AllSucceed(texts, q.frames[..q.lazy])
    ensures QueueStep(texts, q, op).1.Fits()
    ensures Step(texts, q.AsState(), op) == (QueueStep(texts, q, op).0, QueueStep(texts, q, op).1.AsState())
  {
    hide Step, ReadReply, ReadPrepare, FramesBytes, Reply.Error, OpFits, FirstFailure, AllSucceed;
    var all := q.frames + Sent(op);
    SentOnQueue(texts, q, op);
    PrepOnQueue(texts, all, q.lazy);
    assert all[q.lazy..][0] == all[q.lazy] && all[q.lazy..][1] == all[q.lazy + 1];
  }

  ghost function QueueRun(texts: Texts, q: Queue, ops: seq<Op>): (r: (seq<Answer>, Queue))
    requires q.lazy <= |q.frames| && NoFetch(ops)
    ensures r.1.lazy <= |r.1.frames|
    decreases |ops|
  {
    hide QueueStep;
    if ops == [] then ([], q)
    else
      var (answer, q1) := QueueStep(texts, q, ops[0]);
      var (answers, q2) := QueueRun(texts, q1, ops[1..]);
      ([answer] + answers, q2)
  }

  /** How many replies the calls of a run leave behind without counting them. */
  ghost function AllMissed(texts: Texts, q: Queue, ops: seq<Op>): nat
    requires q.lazy <= |q.frames| && NoFetch(ops)
    decreases |ops|
  {
    hide QueueStep;
    if ops == [] then 0
    else Missed(texts, q, ops[0]) + AllMissed(texts, QueueStep(texts, q, ops[0]).1, ops[1..])
  }

  /** Over every run from any stream of replies, errors among them, no reply is ever split, and
      the number of replies nobody counts grows by exactly those that the calls miss. */
  lemma {:induction false} RunOnQueue(texts: Texts, q: Queue, ops: seq<Op>)
    requires q.Fits() && OpsFit(texts, ops) && NoFetch(ops)
    ensures QueueRun(texts, q, ops).1.Fits()
    ensures Run(texts, q.AsState(), ops) == (QueueRun(texts, q, ops).0, QueueRun(texts, q, ops).1.AsState())
    ensures QueueRun(texts, q, ops).1.Uncounted() == q.Uncounted() + AllMissed(texts, q, ops)
    decreases |ops|
  {
    hide Step, QueueStep, Missed, OpFits, Queue.AsState, Queue.Fits;
    assert q.lazy <= |q.frames| by { LazyFits(q); }
    if ops != [] {
      StepOnQueue(texts, q, ops[0]);
      RunOnQueue(texts, QueueStep(texts, q, ops[0]).1, ops[1..]);
    }
  }

  lemma LazyFits(q: Queue)
    requires q.Fits()
    ensures q.lazy <= |q.frames|
  {
  }

  /** A stream of replies is aligned exactly when all of them are counted. */
  lemma QueueIsAlignedIff(q: Queue)
    requires q.Fits()
    ensures IsAligned(q.AsState()) <==> q.Uncounted() == 0
  {
    hide FramesBytes;
    if q.Uncounted() > 0 {
      hide IsAligned;
      var extra := q.frames[q.lazy..];
      SplitFrames(q.frames, q.lazy);
      hide Frame.Bytes;
      FirstFrame(extra);
      FrameIsRead(extra[0], FramesBytes(extra[1..]));
      Trailing(q.frames[..q.lazy], FramesBytes(extra));
    }
  }

  /** A session that has lost count never finds it again: over every run, it is aligned at the
      end exactly when it was at the start and no call missed a reply. */
  lemma LostCountStaysLost(texts: Texts, q: Queue, ops: seq<Op>)
    requires q.Fits() && OpsFit(texts, ops) && NoFetch(ops)
    ensures IsAligned(Run(texts, q.AsState(), ops).1) <==> IsAligned(q.AsState()) && AllMissed(texts, q, ops) == 0
  {
    hide Run, QueueRun, AllMissed, IsAligned;
    RunOnQueue(texts, q, ops);
    QueueIsAlignedIff(q);
    QueueIsAlignedIff(QueueRun(texts, q, ops).1);
  }

  /** The replies sent before call `i`. */
  function Offset(ops: seq<Op>, i: nat): nat
    requires i <= |ops|
    decreases i
  {
    if i == 0 then 0 else |Sent(ops[0])| + Offset(ops[1..], i - 1)
  }

  lemma {:induction false} OffsetInRange(ops: seq<Op>, i: nat)
    requires i < |ops|
    ensures Offset(ops, i) + |Sent(ops[i])| <= |SentAll(ops)|
    decreases i
  {
    if i > 0 {
      OffsetInRange(ops[1..], i - 1);
    }
  }

  /** The replies a call is given: those at its place in the order of calls, counted from the
      first counted reply. Its own are `Uncounted` further on. */
  ghost function GivenTo(q: Queue, ops: seq<Op>, i: nat): (frames: seq<Frame>)
    requires q.lazy <= |q.frames| && i < |ops|
    ensures |Sent(ops[i])| <= |frames|
  {
    OffsetInRange(ops, i);
    (q.frames + SentAll(ops))[q.lazy + Offset(ops, i)..]
  }

  /** The replies nobody waits for, as the session takes them, are no errors. */
  ghost predicate GivenSucceed(texts: Texts, q: Queue, ops: seq<Op>)
    requires q.lazy <= |q.frames| && NoFetch(ops)
  {
    AllSucceed(texts, q.frames[..q.lazy])
    && forall i :: 0 <= i < |ops| && !ops[i].Ask? ==> GivenTo(q, ops, i)[0].reply.Succeeds(texts)
  }

  lemma DropTwice<T>(a: seq<T>, b: seq<T>, k: nat, j: nat)
    requires k <= |a| && k + j <= |a| + |b|
    ensures (a[k..] + b)[j..] == (a + b)[k + j..]
  {
    assert a[k..] + b == (a + b)[k..];
  }

  /** One call is given the replies at its place and leaves the later ones at theirs. */
  lemma GivenStep(texts: Texts, q: Queue, ops: seq<Op>)
    requires q.lazy <= |q.frames| && NoFetch(ops) && ops != [] && GivenSucceed(texts, q, ops)
    ensures Missed(texts, q, ops[0]) == 0
    ensures QueueStep(texts, q, ops[0]).0 == Given(texts, ops[0], GivenTo(q, ops, 0))
    ensures var q1 := QueueStep(texts, q, ops[0]).1;
            && AllSucceed(texts, q1.frames[..q1.lazy])
            && forall i :: 0 < i < |ops| ==> GivenTo(q, ops, i) == GivenTo(q1, ops[1..], i - 1)
  {
    hide Reply.Error, Reply.Succeeds, SentAll, Offset, Given, FirstFailure;
    var all, more := q.frames + Sent(ops[0]), SentAll(ops[1..]);
    var q1 := QueueStep(texts, q, ops[0]).1;
    GivenFirst(q, ops);
    GivenPrefix(texts, ops[0], all[q.lazy..], more);
    if ops[0].Free? {
      assert q1.frames[..q1.lazy] == q.frames[..q.lazy] + [all[q.lazy]];
    }
    forall i | 0 < i < |ops| ensures GivenTo(q, ops, i) == GivenTo(q1, ops[1..], i - 1) {
      GivenLater(q, ops, i);
    }
  }

  lemma GivenFirst(q: Queue, ops: seq<Op>)
    requires q.lazy <= |q.frames| && ops != []
    ensures var all := q.frames + Sent(ops[0]);
            GivenTo(q, ops, 0) == all[q.lazy..] + SentAll(ops[1..]) && q.lazy <= |all|
  {
    hide Sent;
    DropSplit(q.frames, Sent(ops[0]), SentAll(ops[1..]), q.lazy);
    assert Offset(ops, 0) == 0;
  }

  lemma DropSplit<T>(a: seq<T>, b: seq<T>, c: seq<T>, k: nat)
    requires k <= |a|
    ensures a + (b + c) == (a + b) + c && (a + (b + c))[k..] == (a + b)[k..] + c
  {
  }

  lemma GivenLater(q: Queue, ops: seq<Op>, i: nat)
    requires q.lazy <= |q.frames| && 0 < i < |ops|
    ensures var all, k := q.frames + Sent(ops[0]), q.lazy + |Sent(ops[0])|;
            && GivenTo(q, ops, i) == GivenTo(Queue(all, k), ops[1..], i - 1)
            && GivenTo(q, ops, i) == GivenTo(Queue(all[k..], 0), ops[1..], i - 1)
  {
    hide Sent;
    var all, k, more := q.frames + Sent(ops[0]), q.lazy + |Sent(ops[0])|, SentAll(ops[1..]);
    var j := Offset(ops[1..], i - 1);
    DropSplit(q.frames, Sent(ops[0]), more, q.lazy);
    OffsetInRange(ops[1..], i - 1);
    assert Offset(ops, i) == |Sent(ops[0])| + j;
    assert ops[1..][i - 1] == ops[i];
    DropTwice(all, more, k, j);
  }

  lemma GivenPrefix(texts: Texts, op: Op, frames: seq<Frame>, more: seq<Frame>)
    requires !op.FetchRows? && |Sent(op)| <= |frames|
    ensures Given(texts, op, frames + more) == Given(texts, op, frames)
    ensures op.Free? ==> Given(texts, op, frames) == Quiet
  {
    hide Reply.Error;
  }

  /** What a lost count does to a run: every call is given the replies that lie as many places
      before its own as there are uncounted replies, and as many stay uncounted. */
  lemma {:induction false} UncountedRepliesShiftTheRun(texts: Texts, q: Queue, ops: seq<Op>)
    requires q.Fits() && OpsFit(texts, ops) && NoFetch(ops) && GivenSucceed(texts, q, ops)
    ensures |Run(texts, q.AsState(), ops).0| == |ops|
    ensures forall i :: 0 <= i < |ops| ==>
              Run(texts, q.AsState(), ops).0[i] == Given(texts, ops[i], GivenTo(q, ops, i))
    ensures QueueRun(texts, q, ops).1.Fits()
    ensures Run(texts, q.AsState(), ops).1 == QueueRun(texts, q, ops).1.AsState()
    ensures QueueRun(texts, q, ops).1.Uncounted() == q.Uncounted()
    decreases |ops|
  {
    hide Step, QueueStep, Missed, OpFits, GivenTo, Given, AllSucceed, Queue.AsState, FramesFit, Reply.Succeeds;
    if ops != [] {
      var rest := ops[1..];
      var q1 := QueueStep(texts, q, ops[0]).1;
      StepOnQueue(texts, q, ops[0]);
      GivenStep(texts, q, ops);
      forall i | 0 <= i < |rest| && !rest[i].Ask? ensures GivenTo(q1, rest, i)[0].reply.Succeeds(texts) {
        assert GivenTo(q, ops, i + 1) == GivenTo(q1, rest, i);
      }
      UncountedRepliesShiftTheRun(texts, q1, rest);
      var answers := Run(texts, q1.AsState(), rest).0;
      forall i | 0 <= i < |ops|
        ensures Run(texts, q.AsState(), ops).0[i] == Given(texts, ops[i], GivenTo(q, ops, i))
      {
        if i > 0 {
          assert answers[i - 1] == Given(texts, rest[i - 1], GivenTo(q1, rest, i - 1));
        }
      }
    }
  }

  ghost predicate FreesAndAsks(ops: seq<Op>) {
    forall i :: 0 <= i < |ops| ==> ops[i].Free? || ops[i].Ask?
  }

  lemma {:induction false} OneReplyEach(ops: seq<Op>, i: nat)
    requires FreesAndAsks(ops) && i < |ops|
    ensures Offset(ops, i) == i < |SentAll(ops)| && SentAll(ops)[i] == ops[i].reply
  {
    if i > 0 {
      OneReplyEach(ops[1..], i - 1);
    }
  }

  lemma GivenBefore(stale: Frame, ops: seq<Op>, i: nat)
    requires FreesAndAsks(ops) && i < |ops|
    ensures GivenTo(Queue([stale], 0), ops, i)[0] == if i == 0 then stale else ops[i - 1].reply
  {
    OneReplyEach(ops, i);
    if i > 0 {
      OneReplyEach(ops, i - 1);
    }
  }

  /** With one uncounted reply, each request gets the reply of the call directly before it, be
      it a request or a `free_statement`, as long as the replies taken for those to
      `free_statement` are no errors; one reply stays uncounted. */
  lemma UncountedReplyShiftsTheRun(texts: Texts, stale: Frame, ops: seq<Op>)
    requires stale.reply.Fits() && OpsFit(texts, ops) && FreesAndAsks(ops)
    requires forall i :: 0 <= i < |ops| && ops[i].Free? ==>
               (if i == 0 then stale else ops[i - 1].reply).reply.Succeeds(texts)
    ensures var (answers, end) := Run(texts, State(stale.Bytes(), 0), ops);
            && |answers| == |ops|
            && (forall i :: 0 <= i < |ops| ==>
                  answers[i] == if ops[i].Free? then Quiet
                                else Replied((if i == 0 then stale else ops[i - 1].reply).reply.Outcome(texts)))
            && QueueRun(texts, Queue([stale], 0), ops).1.Fits()
            && end == QueueRun(texts, Queue([stale], 0), ops).1.AsState()
            && QueueRun(texts, Queue([stale], 0), ops).1.Uncounted() == 1
  {
    hide Run, QueueRun, OpsFit, Reply.Error, Reply.Succeeds, Frame.Bytes, FramesBytes, GivenTo;
    var q := Queue([stale], 0);
    OneFrame(stale);
    forall i | 0 <= i < |ops| ensures GivenTo(q, ops, i)[0] == if i == 0 then stale else ops[i - 1].reply {
      GivenBefore(stale, ops, i);
    }
    assert AllSucceed(texts, q.frames[..0]);
    forall i | 0 <= i < |ops| && !ops[i].Ask? ensures GivenTo(q, ops, i)[0].reply.Succeeds(texts) {
      assert ops[i].Free?;
    }
    assert GivenSucceed(texts, q, ops);
    UncountedRepliesShiftTheRun(texts, q, ops);
  }

  // ---------------------------------------------------------------- execute2

  /** The packet `execute2` waits for, up to the response that ends it. */
  function ProcBytes(texts: Texts, fmt: Layout, dummies: nat, cells: seq<Cell>): seq<byte>
    requires RowFits(texts, fmt, cells)
  {
    Dummies(dummies) + U32Bytes(OP_SQL_RESPONSE) + RowBytes(texts, fmt, cells)
  }

  /** `execute2` reads a row and the body of a response, without an op code in front of that
      body; a reply laid out like this is consumed exactly. */
  lemma Execute2ReadsBareResponse(texts: Texts, fmt: Layout, dummies: nat, cells: seq<Cell>, end: Wire.Reply,
                                  more: seq<byte>)
    requires RowFits(texts, fmt, cells) && end.Fits()
    ensures ReadExecute2(texts, fmt, ProcBytes(texts, fmt, dummies, cells) + (end.Bytes() + more), 0)
         == match end.Error(texts)
            case Some(e) => Bad(e, more, 0)
            case None => Got(RowColumns(texts, fmt, cells), more, 0)
  {
    hide NextOp, ReadResponse, ReadRow, Dummies, U32Bytes, RowBytes, RowFits, Reply.Error, Reply.Bytes, RowColumns;
    var rest := end.Bytes() + more;
    assert ProcBytes(texts, fmt, dummies, cells) + rest
        == Dummies(dummies) + U32Bytes(OP_SQL_RESPONSE) + (RowBytes(texts, fmt, cells) + rest);
    NextOpSkipsDummies(dummies, OP_SQL_RESPONSE, RowBytes(texts, fmt, cells) + rest);
    RowRoundTrip(texts, fmt, cells, rest);
    ResponseRoundTrip(texts, end, more);
  }

  /** All that answers an `execute2` whose final response carries its op code. */
  ghost function Execute2Stream(texts: Texts, fmt: Layout, lazies: seq<Frame>, dummies: nat, cells: seq<Cell>,
                                end: Frame, more: seq<byte>): seq<byte>
    requires FramesFit(lazies) && RowFits(texts, fmt, cells) && end.reply.Fits()
  {
    FramesBytes(lazies) + (ProcBytes(texts, fmt, dummies, cells) + (end.Bytes() + more))
  }

  function WordBytes(words: seq<u32>): seq<byte> {
    if words == [] then [] else U32Bytes(words[0]) + WordBytes(words[1..])
  }

  /** The words in front of the data of a response: its keepalives, its op code, the handle and
      both halves of the object id. */
  function EndWords(end: Frame): (words: seq<u32>)
    ensures |words| == end.dummies + 4
  {
    seq(end.dummies, _ => OP_DUMMY)
    + [OP_RESPONSE, end.reply.body.handle, end.reply.body.objectId / TWO_32, end.reply.body.objectId % TWO_32]
  }

  /** What `execute2` reads as the length of the data: the fourth word. That is the low word of
      the object id when there is no keepalive. */
  function SeenLength(end: Frame): u32 {
    EndWords(end)[3]
  }

  /** The words behind it, the data with its length, the status, and what follows. */
  function SeenTail(end: Frame, more: seq<byte>): seq<byte>
    requires end.reply.Fits()
  {
    WordBytes(EndWords(end)[4..]) + (WireBytes(end.reply.body.data) + (StatusBytes(end.reply.status) + more))
  }

  /** What comes of it: as many bytes of the tail as the length says are taken for data, and the
      status is looked for behind them. */
  function SeenOutcome(texts: Texts, row: RowData, len: nat, tail: seq<byte>): Attempt<RowData> {
    var taken := len + Padding(len);
    if |tail| < taken then Short
    else
      match ReadStatus(texts, tail[taken..], CLEAN)
      case Done(_, rest) => Got(row, rest, 0)
      case Incomplete => Short
      case Failed(e, rest) => Bad(e, rest, 0)
  }

  /** With the op code in front, everything shifts by one word, and by one more for every
      keepalive, for every response and behind any lazy replies that succeed. */
  lemma Execute2ReadsShifted(texts: Texts, fmt: Layout, lazies: seq<Frame>, dummies: nat, cells: seq<Cell>,
                             end: Frame, more: seq<byte>)
    requires FramesFit(lazies) && AllSucceed(texts, lazies) && RowFits(texts, fmt, cells) && end.reply.Fits()
    ensures ReadExecute2(texts, fmt, Execute2Stream(texts, fmt, lazies, dummies, cells, end, more), |lazies|)
         == SeenOutcome(texts, RowColumns(texts, fmt, cells), SeenLength(end), SeenTail(end, more))
  {
    hide NextOp, SkipLazy, ReadResponse, ReadRow, Dummies, U32Bytes, RowBytes, RowFits, Frame.Bytes, RowColumns,
         SeenOutcome, SeenLength, SeenTail, FramesBytes, AllSucceed, FramesFit;
    var row := RowBytes(texts, fmt, cells);
    var rest := end.Bytes() + more;
    var tail := ProcBytes(texts, fmt, dummies, cells) + rest;
    assert tail == Dummies(dummies) + U32Bytes(OP_SQL_RESPONSE) + (row + rest);
    NextOpSkipsDummies(dummies, OP_SQL_RESPONSE, row + rest);
    SkipLazyReplies(texts, lazies, tail);
    RowRoundTrip(texts, fmt, cells, rest);
    ShiftedRead(texts, RowColumns(texts, fmt, cells), end, more);
  }

  lemma ShiftedRead(texts: Texts, row: RowData, end: Frame, more: seq<byte>)
    requires end.reply.Fits()
    ensures SeenOutcome(texts, row, SeenLength(end), SeenTail(end, more))
         == match ReadResponse(texts, end.Bytes() + more)
            case Done(_, rest) => Got(row, rest, 0)
            case Incomplete => Short
            case Failed(e, rest) => Bad(e, rest, 0)
  {
    hide ReadU32, ReadU64, U32Bytes, U64Bytes, ReadStatus, Frame.Bytes, SeenTail, EndWords;
    var w, len, tail := EndWords(end), SeenLength(end), SeenTail(end, more);
    var seen := TWO_32 * w[1] + w[2];
    var s2 := U32Bytes(len) + tail;
    var s1 := U64Bytes(seen) + s2;
    ShiftedBytes(end, more);
    U32RoundTrip(w[0], s1);
    U64RoundTrip(seen, s2);
    U32RoundTrip(len, tail);
    TakenTail(len, tail);
  }

  lemma TakenTail(len: nat, tail: seq<byte>)
    ensures var first := Take(tail, len);
            var second := if first.Done? then Take(first.rest, Padding(len)) else Incomplete;
            if |tail| < len + Padding(len) then second == Incomplete
            else first.Done? && second.Done? && second.rest == tail[len + Padding(len)..]
  {
  }

  lemma ShiftedBytes(end: Frame, more: seq<byte>)
    requires end.reply.Fits()
    ensures var w := EndWords(end);
            var rest := U32Bytes(w[3]) + SeenTail(end, more);
            end.Bytes() + more == U32Bytes(w[0]) + (U64Bytes(TWO_32 * w[1] + w[2]) + rest)
  {
    hide U32Bytes, U64Bytes, Frame.Bytes, WordBytes, EndWords;
    var w := EndWords(end);
    EndIsWords(end, more);
    FirstWord(w);
    FirstWord(w[1..]);
    FirstWord(w[2..]);
    FirstWord(w[3..]);
    assert w[1..][1..] == w[2..] && w[2..][1..] == w[3..] && w[3..][1..] == w[4..];
    TwoWords(w[1], w[2]);
  }

  lemma FirstWord(words: seq<u32>)
    requires words != []
    ensures WordBytes(words) == U32Bytes(words[0]) + WordBytes(words[1..])
  {
  }

  lemma TwoWords(high: u32, low: u32)
    ensures U64Bytes(TWO_32 * high + low) == U32Bytes(high) + U32Bytes(low)
  {
    hide BigEndian;
    WordSizes();
    DigitsConcat(high, low, 4, 4);
  }

  lemma EndIsWords(end: Frame, more: seq<byte>)
    requires end.reply.Fits()
    ensures end.Bytes() + more == WordBytes(EndWords(end))
                                  + (WireBytes(end.reply.body.data) + (StatusBytes(end.reply.status) + more))
  {
    hide U32Bytes, U64Bytes, StatusBytes, WireBytes, WordBytes;
    var body := end.reply.body;
    var high, low := body.objectId / TWO_32, body.objectId % TWO_32;
    DummyWords(end.dummies, [OP_RESPONSE, body.handle, high, low]);
    FourWords(OP_RESPONSE, body.handle, high, low);
    TwoWords(high, low);
  }

  lemma FourWords(a: u32, b: u32, c: u32, d: u32)
    ensures WordBytes([a, b, c, d]) == U32Bytes(a) + U32Bytes(b) + U32Bytes(c) + U32Bytes(d)
  {
    hide U32Bytes;
    FirstWord([a, b, c, d]);
    FirstWord([b, c, d]);
    FirstWord([c, d]);
    FirstWord([d]);
    assert [a, b, c, d][1..] == [b, c, d] && [b, c, d][1..] == [c, d] && [c, d][1..] == [d] && [d][1..] == [];
  }

  lemma {:induction false} DummyWords(n: nat, words: seq<u32>)
    ensures WordBytes(seq(n, _ => OP_DUMMY) + words) == Dummies(n) + WordBytes(words)
  {
    hide U32Bytes;
    var dummies: seq<u32> := seq(n, _ => OP_DUMMY);
    if n == 0 {
      assert dummies + words == words;
    } else {
      DummyWords(n - 1, words);
      assert (dummies + words)[1..] == seq(n - 1, _ => OP_DUMMY) + words;
    }
  }

  /** The digits of a number are those of its high part and those of its low part. */
  lemma {:induction false} DigitsConcat(high: nat, low: nat, k: nat, j: nat)
    requires low < Pow256(j)
    ensures BigEndian(Pow256(j) * high + low, k + j) == BigEndian(high, k) + BigEndian(low, j)
    decreases j
  {
    if j == 0 {
      assert BigEndian(low, 0) == [];
    } else {
      var n := Pow256(j) * high + low;
      assert n == 256 * (Pow256(j - 1) * high) + low;
      assert n / 256 == Pow256(j - 1) * high + low / 256 && n % 256 == low % 256;
      DigitsConcat(high, low / 256, k, j - 1);
    }
  }

  lemma {:induction false} ZeroBytes(k: nat)
    ensures BigEndian(0, k) == Zeros(k)
  {
    if k != 0 {
      ZeroBytes(k - 1);
    }
  }

  /** A final response without keepalives and without data. */
  function FramedEnd(handle: u32, objectId: u64, status: seq<StatusItem>): (frame: Frame)
    requires ItemsFit(status)
    ensures frame.reply.Fits()
  {
    Frame(0, Wire.Reply(Response(handle, objectId, []), status))
  }

  lemma FramedTail(handle: u32, objectId: u64, status: seq<StatusItem>, more: seq<byte>)
    requires ItemsFit(status)
    ensures SeenLength(FramedEnd(handle, objectId, status)) == objectId % TWO_32
    ensures SeenTail(FramedEnd(handle, objectId, status), more) == Zeros(4) + (StatusBytes(status) + more)
  {
    hide StatusBytes, BigEndian;
    ZeroBytes(4);
    var end := FramedEnd(handle, objectId, status);
    assert WordBytes(EndWords(end)[4..]) == [];
    assert WireBytes([]) == Zeros(4);
  }

  /** The answer is what the final response says, and nothing of it is left. */
  ghost predicate Honoured(texts: Texts, fmt: Layout, lazies: seq<Frame>, dummies: nat, cells: seq<Cell>, end: Frame,
                           more: seq<byte>)
    requires FramesFit(lazies) && RowFits(texts, fmt, cells) && end.reply.Fits()
  {
    ReadExecute2(texts, fmt, Execute2Stream(texts, fmt, lazies, dummies, cells, end, more), |lazies|)
    == Answered(match end.reply.Error(texts)
                case Some(e) => Err(e)
                case None => Ok(RowColumns(texts, fmt, cells)), more)
  }

  /** What is left in each of the three ranges of the low word. At zero, the row is delivered
      whatever the status says, and the status is left for the next request; from one to four,
      the response is honoured and consumed; above, a response without errors is waited for in
      vain. */
  lemma Execute2ByLowWord(texts: Texts, fmt: Layout, lazies: seq<Frame>, dummies: nat, cells: seq<Cell>, handle: u32,
                          objectId: u64, status: seq<StatusItem>, more: seq<byte>)
    requires FramesFit(lazies) && AllSucceed(texts, lazies) && RowFits(texts, fmt, cells) && ItemsFit(status)
    ensures var end, len := FramedEnd(handle, objectId, status), objectId % TWO_32;
            var a := ReadExecute2(texts, fmt, Execute2Stream(texts, fmt, lazies, dummies, cells, end, more), |lazies|);
            && (len == 0 ==> a == Got(RowColumns(texts, fmt, cells), StatusBytes(status) + more, 0))
            && (1 <= len <= 4 ==> Honoured(texts, fmt, lazies, dummies, cells, end, more))
            && (len > 4 && status == [] && more == [] ==> a == Short)
  {
    hide ReadExecute2, ReadStatus, StatusBytes, Status.Verdict, RowColumns, RowFits, Execute2Stream, ApplyAll;
    var end := FramedEnd(handle, objectId, status);
    Execute2ReadsShifted(texts, fmt, lazies, dummies, cells, end, more);
    FramedTail(handle, objectId, status, more);
    var len, tail := SeenLength(end), SeenTail(end, more);
    StatusRoundTrip(texts, status, CLEAN, more);
    EndMarkFirst(texts, StatusBytes(status) + more);
    assert tail[0..] == tail && tail[4..] == StatusBytes(status) + more;
    if len > 4 && status == [] && more == [] {
      EmptyStatus();
      assert |tail| == 8 && len + Padding(len) >= 8;
      assert tail[8..] == [] && ReadStatus(texts, [], CLEAN).Incomplete? by { NothingToRead(texts); }
    }
  }

  lemma NothingToRead(texts: Texts)
    ensures ReadStatus(texts, [], CLEAN) == Incomplete
  {
  }

  lemma EmptyStatus()
    ensures ItemsFit([]) && |StatusBytes([])| == 4
  {
  }

  /** Four zero bytes are an empty status vector. */
  lemma EndMarkFirst(texts: Texts, more: seq<byte>)
    ensures ReadStatus(texts, Zeros(4) + more, CLEAN) == Done((), more)
  {
    hide ReadU32, BigEndian;
    ZeroBytes(4);
    var none: seq<StatusItem> := [];
    assert ItemsFit(none) && StatusBytes(none) == U32Bytes(ARG_END);
    StatusRoundTrip(texts, none, CLEAN, more);
  }

  /** Exactly when a final response that carries its op code is honoured and consumed, whatever
      its status and whatever follows: when the low word of its object id is one to four. */
  lemma Execute2HonoursEndIff(texts: Texts, fmt: Layout, lazies: seq<Frame>, dummies: nat, cells: seq<Cell>,
                              handle: u32, objectId: u64)
    requires FramesFit(lazies) && AllSucceed(texts, lazies) && RowFits(texts, fmt, cells)
    ensures (forall status, more | ItemsFit(status) ::
               Honoured(texts, fmt, lazies, dummies, cells, FramedEnd(handle, objectId, status), more))
       <==> 1 <= objectId % TWO_32 <= 4
  {
    hide ReadExecute2, RowFits, RowColumns, Execute2Stream, ApplyAll, AllSucceed, FramesFit, StatusBytes;
    var len := objectId % TWO_32;
    forall status, more | ItemsFit(status) && 1 <= len <= 4
      ensures Honoured(texts, fmt, lazies, dummies, cells, FramedEnd(handle, objectId, status), more)
    {
      Execute2ByLowWord(texts, fmt, lazies, dummies, cells, handle, objectId, status, more);
    }
    var none: seq<StatusItem>, nothing: seq<byte> := [], [];
    EmptyStatus();
    Execute2ByLowWord(texts, fmt, lazies, dummies, cells, handle, objectId, none, nothing);
    if len == 0 || len > 4 {
      assert !Honoured(texts, fmt, lazies, dummies, cells, FramedEnd(handle, objectId, none), nothing);
    }
  }

  /** The connection after an `execute2`. */
  ghost function AfterExecute2(texts: Texts, fmt: Layout, lazies: seq<Frame>, dummies: nat, cells: seq<Cell>,
                               end: Frame): State
    requires FramesFit(lazies) && RowFits(texts, fmt, cells) && end.reply.Fits()
  {
    var sent := State(Execute2Stream(texts, fmt, lazies, dummies, cells, end, []), |lazies|);
    After(ReadExecute2(texts, fmt, sent.stream, sent.lazy), sent)
  }

  /** And exactly then it leaves the session aligned, whatever the status is. At a low word of
      zero it never does. */
  lemma Execute2KeepsAlignmentIff(texts: Texts, fmt: Layout, lazies: seq<Frame>, dummies: nat, cells: seq<Cell>,
                                  handle: u32, objectId: u64)
    requires FramesFit(lazies) && AllSucceed(texts, lazies) && RowFits(texts, fmt, cells)
    ensures (forall status | ItemsFit(status) ::
               IsAligned(AfterExecute2(texts, fmt, lazies, dummies, cells, FramedEnd(handle, objectId, status))))
       <==> 1 <= objectId % TWO_32 <= 4
    ensures objectId % TWO_32 == 0 ==>
              forall status | ItemsFit(status) ::
                !IsAligned(AfterExecute2(texts, fmt, lazies, dummies, cells, FramedEnd(handle, objectId, status)))
  {
    hide ReadExecute2, RowFits, RowColumns, ApplyAll, AllSucceed, StatusBytes, FramesBytes, ProcBytes, IsAligned,
         Frame.Bytes, Status.Verdict;
    var len := objectId % TWO_32;
    NoFrames();
    forall status | ItemsFit(status)
      ensures len == 0 ==>
                !IsAligned(AfterExecute2(texts, fmt, lazies, dummies, cells, FramedEnd(handle, objectId, status)))
      ensures 1 <= len <= 4 ==>
                IsAligned(AfterExecute2(texts, fmt, lazies, dummies, cells, FramedEnd(handle, objectId, status)))
    {
      Execute2ByLowWord(texts, fmt, lazies, dummies, cells, handle, objectId, status, []);
      StatusNotEmpty(status);
      NothingLeft();
      assert FramesBytes([]) + (StatusBytes(status) + []) == StatusBytes(status) + [];
      Trailing([], StatusBytes(status) + []);
    }
    var none: seq<StatusItem> := [];
    EmptyStatus();
    var end := FramedEnd(handle, objectId, none);
    assert len == 0 ==> !IsAligned(AfterExecute2(texts, fmt, lazies, dummies, cells, end));
    if len > 4 {
      Execute2ByLowWord(texts, fmt, lazies, dummies, cells, handle, objectId, none, []);
      FrameIsRead(end, []);
      Trailing(lazies, ProcBytes(texts, fmt, dummies, cells) + (end.Bytes() + []));
      assert !IsAligned(AfterExecute2(texts, fmt, lazies, dummies, cells, end));
    }
  }

  lemma NothingLeft()
    ensures IsAligned(State([], 0))
  {
    var none: seq<Frame> := [];
    assert FramesFit(none) && FramesBytes(none) == [];
  }

  lemma StatusNotEmpty(status: seq<StatusItem>)
    requires ItemsFit(status)
    ensures |StatusBytes(status)| > 0
  {
  }
}
