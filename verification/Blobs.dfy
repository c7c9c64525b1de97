/** Blobs travel in segments (rsfbclient-rust/src/client.rs, `put_segments` and `get_segment`;
    rsfbclient-rust/src/wire.rs, `into_column`). */
module Blobs {
  import opened Wrappers
  import opened Util
  import opened Wire
  import opened Session

  /** The handle of the reply that brings the last segments. */
  const LAST_SEGMENTS := 2

  lemma {:induction false} FlattenAppend(segments: seq<seq<byte>>, last: seq<byte>)
    ensures Flatten(segments + [last]) == Flatten(segments) + last
  {
    if segments == [] {
      assert segments + [last] == [last] && [last][1..] == [];
    } else {
      assert (segments + [last])[1..] == segments[1..] + [last];
      FlattenAppend(segments[1..], last);
    }
  }

  /** `put_segments`: what is sent are pieces of the data in order, none empty and none longer
      than a segment may be. */
  method PutSegments(data: seq<byte>) returns (sent: seq<seq<byte>>)
    ensures Flatten(sent) == data
    ensures forall i :: 0 <= i < |sent| ==> 0 < |sent[i]| <= MAX_DATA_LENGTH
    ensures forall i :: 0 <= i < |sent| - 1 ==> |sent[i]| == MAX_DATA_LENGTH
  {
    sent := [];
    var left := data;
    while left != []
      invariant Flatten(sent) + left == data
      invariant forall i :: 0 <= i < |sent| ==> 0 < |sent[i]| <= MAX_DATA_LENGTH
      invariant forall i :: 0 <= i < |sent| - 1 ==> |sent[i]| == MAX_DATA_LENGTH
      invariant left != [] && sent != [] ==> |sent[|sent| - 1]| == MAX_DATA_LENGTH
      decreases |left|
    {
      var n := if |left| < MAX_DATA_LENGTH then |left| else MAX_DATA_LENGTH;
      FlattenAppend(sent, left[..n]);
      sent := sent + [left[..n]];
      left := left[n..];
    }
  }

  // ---------------------------------------------------------------- one reply

  /** The segments in the data of a reply; a single byte at the end is passed over, and a
      segment that is cut short is an error. */
  function ReadSegments(s: seq<byte>, before: seq<byte>): Result<seq<byte>, FbError>
    decreases |s|
  {
    if |s| < 2 then Ok(before)
    else
      var len := ReadU16Le(s).value;
      var tail := s[2..];
      if |tail| < len then Err(MissingBytes) else ReadSegments(tail[len..], before + tail[..len])
  }

  predicate SegmentsFit(segments: seq<seq<byte>>) {
    forall i :: 0 <= i < |segments| ==> |segments[i]| < TWO_16
  }

  function SegmentsBytes(segments: seq<seq<byte>>): seq<byte>
    requires SegmentsFit(segments)
  {
    if segments == [] then []
    else U16LeBytes(|segments[0]|) + segments[0] + SegmentsBytes(segments[1..])
  }

  /** The reader puts the segments of a reply together again, empty ones included. */
  lemma {:induction false} SegmentsRoundTrip(segments: seq<seq<byte>>, before: seq<byte>)
    requires SegmentsFit(segments)
    ensures ReadSegments(SegmentsBytes(segments), before) == Ok(before + Flatten(segments))
    decreases |segments|
  {
    hide ReadU16Le, U16LeBytes;
    if segments == [] {
      assert before + [] == before;
    } else {
      var first, rest := segments[0], SegmentsBytes(segments[1..]);
      var s := SegmentsBytes(segments);
      assert s == U16LeBytes(|first|) + (first + rest);
      U16LeRoundTrip(|first|, first + rest);
      assert s[2..] == first + rest && (first + rest)[..|first|] == first && (first + rest)[|first|..] == rest;
      SegmentsRoundTrip(segments[1..], before + first);
      assert before + first + Flatten(segments[1..]) == before + (first + Flatten(segments[1..]));
    }
  }

  /** Segments are read up to what follows them. */
  lemma {:induction false} SegmentsBefore(segments: seq<seq<byte>>, tail: seq<byte>, before: seq<byte>)
    requires SegmentsFit(segments)
    ensures ReadSegments(SegmentsBytes(segments) + tail, before) == ReadSegments(tail, before + Flatten(segments))
    decreases |segments|
  {
    hide ReadU16Le, U16LeBytes;
    if segments == [] {
      assert before + [] == before && SegmentsBytes(segments) + tail == tail;
    } else {
      var first, rest := segments[0], SegmentsBytes(segments[1..]) + tail;
      var s := SegmentsBytes(segments) + tail;
      assert s == U16LeBytes(|first|) + (first + rest);
      U16LeRoundTrip(|first|, first + rest);
      assert s[2..] == first + rest && (first + rest)[..|first|] == first && (first + rest)[|first|..] == rest;
      SegmentsBefore(segments[1..], tail, before + first);
      assert before + first + Flatten(segments[1..]) == before + (first + Flatten(segments[1..]));
    }
  }

  /** A segment that is shorter than its length says is an error, wherever it stands; a single
      byte at the end is passed over. */
  lemma CutSegments(segments: seq<seq<byte>>, len: u16, part: seq<byte>, stray: byte)
    requires SegmentsFit(segments)
    ensures |part| < len ==> ReadSegments(SegmentsBytes(segments) + (U16LeBytes(len) + part), []) == Err(MissingBytes)
    ensures ReadSegments(SegmentsBytes(segments) + [stray], []) == Ok(Flatten(segments))
  {
    hide ReadU16Le, U16LeBytes, SegmentsBytes, Flatten;
    SegmentsBefore(segments, U16LeBytes(len) + part, []);
    U16LeRoundTrip(len, part);
    SegmentsBefore(segments, [stray], []);
    assert [] + Flatten(segments) == Flatten(segments);
  }

  /** The loop of `get_segment`. */
  method JoinSegments(bytes: seq<byte>) returns (r: Result<seq<byte>, FbError>)
    ensures r == ReadSegments(bytes, [])
  {
    hide ReadU16Le;
    var blobData: seq<byte> := [];
    var data := bytes;
    while |data| >= 2
      invariant ReadSegments(data, blobData) == ReadSegments(bytes, [])
      decreases |data|
    {
      var len := ReadU16Le(data).value;
      data := data[2..];
      if |data| < len {
        return Err(MissingBytes);
      }
      blobData := blobData + data[..len];
      data := data[len..];
    }
    return Ok(blobData);
  }

  /** What one request for segments comes to. */
  function SegmentOutcome(texts: Texts, answer: Frame): Result<(seq<byte>, bool), FbError> {
    match answer.reply.Outcome(texts)
    case Err(e) => Err(e)
    case Ok(resp) =>
      match ReadSegments(resp.data, [])
      case Err(e) => Err(e)
      case Ok(data) => Ok((data, resp.handle == LAST_SEGMENTS))
  }

  /** A server error is the result; otherwise it is the data in the segments of the reply, and the
      reply is the last one exactly when its handle is 2. */
  lemma SegmentOutcomeMeans(texts: Texts, answer: Frame, segments: seq<seq<byte>>)
    ensures answer.reply.Error(texts).Some? ==> SegmentOutcome(texts, answer) == Err(answer.reply.Error(texts).value)
    ensures answer.reply.Succeeds(texts) && SegmentsFit(segments)
            && answer.reply.body.data == SegmentsBytes(segments) ==>
              SegmentOutcome(texts, answer) == Ok((Flatten(segments), answer.reply.body.handle == 2))
    ensures answer.reply.Succeeds(texts) && ReadSegments(answer.reply.body.data, []).Err? ==>
              SegmentOutcome(texts, answer) == Err(ReadSegments(answer.reply.body.data, []).error)
  {
    hide ReadSegments, SegmentsBytes, Flatten, SegmentsFit, Reply.Error;
    if SegmentsFit(segments) {
      SegmentsRoundTrip(segments, []);
      assert [] + Flatten(segments) == Flatten(segments);
    }
  }

  /** `get_segment`: the data of one reply, and whether it was the last. */
  method GetSegment(conn: FirebirdWireConnection, answer: Frame) returns (r: Result<(seq<byte>, bool), FbError>)
    requires conn.Valid() && AllSucceed(conn.texts, conn.outstanding) && answer.reply.Fits()
    modifies conn, conn.socket
    ensures conn.Valid() && conn.outstanding == []
    ensures r == SegmentOutcome(conn.texts, answer)
  {
    hide Reply.Outcome, Reply.Fits, ReadSegments, FramesBytes, FramesFit;
    var resp :- conn.Request(answer);
    var data :- JoinSegments(resp.data);
    return Ok((data, resp.handle == LAST_SEGMENTS));
  }

  // ---------------------------------------------------------------- a whole blob

  /** The answers to the requests for the segments of a blob: every one but the last brings
      segments and says that there are more. */
  ghost predicate Script(texts: Texts, answers: seq<Frame>) {
    FramesFit(answers) && answers != []
    && forall i :: 0 <= i < |answers| ==>
         (IsMore(SegmentOutcome(texts, answers[i])) <==> i < |answers| - 1)
  }

  predicate IsMore(r: Result<(seq<byte>, bool), FbError>) {
    r.Ok? && !r.value.1
  }

  /** What the answers bring together, or the error of the last one. */
  function Collected(texts: Texts, answers: seq<Frame>): Result<seq<byte>, FbError> {
    if answers == [] then Ok([])
    else
      match SegmentOutcome(texts, answers[0])
      case Err(e) => Err(e)
      case Ok((data, _)) =>
        match Collected(texts, answers[1..])
        case Err(e) => Err(e)
        case Ok(rest) => Ok(data + rest)
  }

  /** The loop of `into_column`. */
  method ReadSegmentsOf(conn: FirebirdWireConnection, answers: seq<Frame>) returns (r: Result<seq<byte>, FbError>)
    requires conn.Valid() && AllSucceed(conn.texts, conn.outstanding) && Script(conn.texts, answers)
    modifies conn, conn.socket
    ensures conn.Valid() && conn.outstanding == []
    ensures r == Collected(conn.texts, answers)
  {
    hide SegmentOutcome, Reply.Outcome, Reply.Fits, Reply.Error, FramesBytes, ReadSegments;
    var data: seq<byte> := [];
    var i := 0;
    assert answers[0..] == answers;
    NothingBefore(Collected(conn.texts, answers));
    while true
      invariant 0 <= i < |answers|
      invariant Collected(conn.texts, answers) == Behind(data, Collected(conn.texts, answers[i..]))
      invariant conn.Valid() && AllSucceed(conn.texts, conn.outstanding)
      decreases |answers| - i
    {
      assert answers[i..][0] == answers[i] && answers[i..][1..] == answers[i + 1..];
      var segment := GetSegment(conn, answers[i]);
      if segment.Err? {
        return Err(segment.error);
      }
      var (bytes, end) := segment.value;
      BehindBehind(data, bytes, Collected(conn.texts, answers[i + 1..]));
      data := data + bytes;
      i := i + 1;
      if end {
        break;
      }
    }
    assert answers[i..] == [] && data + [] == data;
    return Ok(data);
  }

  function Behind(data: seq<byte>, r: Result<seq<byte>, FbError>): Result<seq<byte>, FbError> {
    match r
    case Ok(rest) => Ok(data + rest)
    case Err(e) => Err(e)
  }

  lemma NothingBefore(r: Result<seq<byte>, FbError>)
    ensures Behind([], r) == r
  {
    assert r.Ok? ==> [] + r.value == r.value;
  }

  lemma BehindBehind(a: seq<byte>, b: seq<byte>, r: Result<seq<byte>, FbError>)
    ensures Behind(a, Behind(b, r)) == Behind(a + b, r)
  {
    assert r.Ok? ==> a + (b + r.value) == a + b + r.value;
  }

  /** The answers of a server that does not fail bring the content of the blob, however it is
      cut into segments and the segments into answers. */
  lemma {:induction false} CollectedIsContent(texts: Texts, answers: seq<Frame>, parts: seq<seq<seq<byte>>>)
    requires |parts| == |answers|
    requires forall i :: 0 <= i < |parts| ==>
               SegmentsFit(parts[i]) && answers[i].reply.Succeeds(texts)
               && answers[i].reply.body.data == SegmentsBytes(parts[i])
    ensures Collected(texts, answers) == Ok(Content(parts))
    decreases |parts|
  {
    hide ReadSegments, SegmentsBytes, Flatten, Reply.Error, SegmentsFit;
    if parts != [] {
      SegmentsRoundTrip(parts[0], []);
      assert [] + Flatten(parts[0]) == Flatten(parts[0]);
      CollectedIsContent(texts, answers[1..], parts[1..]);
    }
  }

  /** The first answer that fails decides, whatever came before. */
  lemma {:induction false} CollectedFails(texts: Texts, answers: seq<Frame>, k: nat)
    requires k < |answers| && SegmentOutcome(texts, answers[k]).Err?
    requires forall i :: 0 <= i < k ==> SegmentOutcome(texts, answers[i]).Ok?
    ensures Collected(texts, answers) == Err(SegmentOutcome(texts, answers[k]).error)
    decreases k
  {
    hide SegmentOutcome;
    if k > 0 {
      CollectedFails(texts, answers[1..], k - 1);
    }
  }

  function Content(parts: seq<seq<seq<byte>>>): seq<byte> {
    if parts == [] then [] else Flatten(parts[0]) + Content(parts[1..])
  }

  /** What reading a blob comes to: its content, or the first failure. */
  function BlobOutcome(texts: Texts, opening: Frame, answers: seq<Frame>, closing: Frame): Result<seq<byte>, FbError> {
    match opening.reply.Error(texts)
    case Some(e) => Err(e)
    case None =>
      match Collected(texts, answers)
      case Err(e) => Err(e)
      case Ok(data) =>
        match closing.reply.Error(texts)
        case Some(e) => Err(e)
        case None => Ok(data)
  }

  /** A blob is its whole content if opening, every answer and closing succeed; otherwise the first
      of these that fails decides. */
  lemma BlobMeans(texts: Texts, opening: Frame, answers: seq<Frame>, closing: Frame, parts: seq<seq<seq<byte>>>, k: nat)
    ensures var r := BlobOutcome(texts, opening, answers, closing);
            && (opening.reply.Error(texts).Some? ==> r == Err(opening.reply.Error(texts).value))
            && (opening.reply.Succeeds(texts) && k < |answers| && SegmentOutcome(texts, answers[k]).Err?
                && (forall i :: 0 <= i < k ==> SegmentOutcome(texts, answers[i]).Ok?) ==>
                  r == Err(SegmentOutcome(texts, answers[k]).error))
            && (opening.reply.Succeeds(texts) && |parts| == |answers|
                && (forall i :: 0 <= i < |parts| ==>
                      SegmentsFit(parts[i]) && answers[i].reply.Succeeds(texts)
                      && answers[i].reply.body.data == SegmentsBytes(parts[i])) ==>
                  r == match closing.reply.Error(texts)
                       case Some(e) => Err(e)
                       case None => Ok(Content(parts)))
  {
    hide SegmentOutcome, Reply.Error, SegmentsFit, SegmentsBytes, Collected, Content;
    if k < |answers| && SegmentOutcome(texts, answers[k]).Err?
       && forall i :: 0 <= i < k ==> SegmentOutcome(texts, answers[i]).Ok? {
      CollectedFails(texts, answers, k);
    }
    if |parts| == |answers|
       && forall i :: 0 <= i < |parts| ==>
            SegmentsFit(parts[i]) && answers[i].reply.Succeeds(texts)
            && answers[i].reply.body.data == SegmentsBytes(parts[i]) {
      CollectedIsContent(texts, answers, parts);
    }
  }

  /** The part of `into_column` that reads a blob: opening it, its segments, closing it. The first
      failure is what comes of it, and the session stays aligned in every case. */
  method ReadBlob(conn: FirebirdWireConnection, opening: Frame, answers: seq<Frame>, closing: Frame)
    returns (r: Result<seq<byte>, FbError>)
    requires conn.Valid() && AllSucceed(conn.texts, conn.outstanding)
    requires opening.reply.Fits() && closing.reply.Fits() && Script(conn.texts, answers)
    modifies conn, conn.socket
    ensures conn.Valid() && conn.outstanding == []
    ensures r == BlobOutcome(conn.texts, opening, answers, closing)
  {
    hide Script, Collected, Reply.Fits, Reply.Error, FramesBytes;
    var _ :- conn.Request(opening);
    var data :- ReadSegmentsOf(conn, answers);
    var _ :- conn.Request(closing);
    return Ok(data);
  }
}
