/** Batched fetching (rsfbclient-rust/src/client.rs, `fetch`, `fetch_batch`, `execute`): rows
    are requested in batches and handed out one at a time. */
module Fetch {
  import opened Wrappers
  import opened Util
  import opened Wire
  import opened Rows
  import opened Client
  import opened Session

  /** How many batches one call of `fetch` may read. */
  const MAX_BATCHES: nat := 1000

  type RowData = seq<ParsedColumn>

  /** The rows of one op_fetch, and whether the cursor is exhausted. */
  datatype Fetched = Fetched(rows: seq<RowData>, eof: bool)

  /** The loop of `fetch_batch` over the whole stream, with `rows` already read. */
  function ReadBatch(texts: Texts, fmt: Layout, count: nat, s: seq<byte>, z: nat, rows: seq<RowData>)
    : (a: Attempt<Fetched>)
    decreases |s|
  {
    var (one, s1, z1) :- ReadFetch(texts, fmt, s, z);
    match one
    case Row(cols) =>
      if |rows| + 1 > count then Bad(TooManyRows, s1, z1)
      else ReadBatch(texts, fmt, count, s1, z1, rows + [cols])
    case BatchEnd => Got(Fetched(rows, false), s1, z1)
    case End => Got(Fetched(rows, true), s1, z1)
  }

  // ---------------------------------------------------------------- what the server sends

  /** A row message. Any status but 100 announces a row. */
  datatype RowMsg = RowMsg(dummies: nat, status: u32, cells: seq<Cell>)

  /** How the answer to one op_fetch ends: with the terminator of a batch, which has some status
      but 100 and count 0, with that of the cursor, which has status 100 and some count, or with
      a generic response that cuts it short. */
  datatype Ending = More(dummies: nat, word: u32) | Last(dummies: nat, word: u32) | Refusal(frame: Frame)

  /** All that answers one op_fetch. */
  datatype Batch = Batch(rows: seq<RowMsg>, end: Ending)

  /** The error a fetch makes of a generic response: that of the server, or, if the server
      reports none, that the response is out of place. */
  function RefusalError(texts: Texts, frame: Frame): FbError {
    match frame.reply.Error(texts)
    case Some(e) => e
    case None => UnexpectedFetchOp(OP_RESPONSE)
  }

  predicate RowMsgFits(texts: Texts, fmt: Layout, m: RowMsg) {
    m.status != END_OF_CURSOR && RowFits(texts, fmt, m.cells)
  }

  predicate BatchFits(texts: Texts, fmt: Layout, b: Batch) {
    (b.end.More? ==> b.end.word != END_OF_CURSOR) && (b.end.Refusal? ==> b.end.frame.reply.Fits())
    && forall i :: 0 <= i < |b.rows| ==> RowMsgFits(texts, fmt, b.rows[i])
  }

  function RowMsgBytes(texts: Texts, fmt: Layout, m: RowMsg): seq<byte>
    requires RowMsgFits(texts, fmt, m)
  {
    Dummies(m.dummies) + U32Bytes(OP_FETCH_RESPONSE) + (U32Bytes(m.status) + RowBytes(texts, fmt, m.cells))
  }

  function EndBytes(end: Ending): seq<byte>
    requires end.Refusal? ==> end.frame.reply.Fits()
  {
    if end.Refusal? then end.frame.Bytes()
    else
      Dummies(end.dummies) + U32Bytes(OP_FETCH_RESPONSE)
      + (if end.Last? then U32Bytes(END_OF_CURSOR) + U32Bytes(end.word) else U32Bytes(end.word) + U32Bytes(0))
  }

  /** The messages of a batch from row `i` on. */
  function BatchBytes(texts: Texts, fmt: Layout, b: Batch, i: nat): seq<byte>
    requires BatchFits(texts, fmt, b) && i <= |b.rows|
    decreases |b.rows| - i
  {
    if i == |b.rows| then EndBytes(b.end)
    else RowMsgBytes(texts, fmt, b.rows[i]) + BatchBytes(texts, fmt, b, i + 1)
  }

  function BatchRows(texts: Texts, fmt: Layout, b: Batch): (rows: seq<RowData>)
    requires BatchFits(texts, fmt, b)
    ensures |rows| == |b.rows|
  {
    seq(|b.rows|, i requires 0 <= i < |b.rows| => RowColumns(texts, fmt, b.rows[i].cells))
  }

  /** Succeeding lazy replies in front of a fetch message are skipped. */
  lemma FetchSkipsLazies(texts: Texts, fmt: Layout, lazies: seq<Frame>, tail: seq<byte>)
    requires FramesFit(lazies) && AllSucceed(texts, lazies) && NextOp(tail).Done?
    ensures ReadFetch(texts, fmt, FramesBytes(lazies) + tail, |lazies|) == ReadFetch(texts, fmt, tail, 0)
  {
    hide SkipLazy, NextOp, ReadFetchBody, FramesBytes;
    SkipLazyReplies(texts, lazies, tail);
    SkipNothing(texts, tail);
  }

  lemma SkipNothing(texts: Texts, tail: seq<byte>)
    requires NextOp(tail).Done?
    ensures SkipLazy(texts, tail, 0) == Got(NextOp(tail).value, NextOp(tail).rest, 0)
  {
  }

  lemma RowMsgRoundTrip(texts: Texts, fmt: Layout, m: RowMsg, more: seq<byte>)
    requires RowMsgFits(texts, fmt, m)
    ensures NextOp(RowMsgBytes(texts, fmt, m) + more).Done?
    ensures ReadFetch(texts, fmt, RowMsgBytes(texts, fmt, m) + more, 0)
         == Got(Row(RowColumns(texts, fmt, m.cells)), more, 0)
  {
    hide NextOp, ReadU32, U32Bytes, ReadRow, RowBytes, RowFits, Dummies, ReadResponse;
    var row := RowBytes(texts, fmt, m.cells) + more;
    var body := U32Bytes(m.status) + row;
    assert RowMsgBytes(texts, fmt, m) + more == Dummies(m.dummies) + U32Bytes(OP_FETCH_RESPONSE) + body;
    NextOpSkipsDummies(m.dummies, OP_FETCH_RESPONSE, body);
    U32RoundTrip(m.status, row);
    RowStartsWithCount(texts, fmt, m.cells, more);
    RowRoundTrip(texts, fmt, m.cells, more);
  }

  lemma RowStartsWithCount(texts: Texts, fmt: Layout, cells: seq<Cell>, more: seq<byte>)
    requires RowFits(texts, fmt, cells)
    ensures ReadU32(RowBytes(texts, fmt, cells) + more).Done?
    ensures ReadU32(RowBytes(texts, fmt, cells) + more).value == 1
  {
    hide ReadU32, U32Bytes, NullBitmap.Bitmap, CellsBytes, RowFits;
    var rest := (if fmt.v13 then NullBitmap.Bitmap(Nulls(cells)) else []) + CellsBytes(texts, fmt, cells, 0) + more;
    assert RowBytes(texts, fmt, cells) + more == U32Bytes(1) + rest;
    U32RoundTrip(1, rest);
  }

  lemma EndRoundTrip(texts: Texts, fmt: Layout, end: Ending, more: seq<byte>)
    requires (end.More? ==> end.word != END_OF_CURSOR) && (end.Refusal? ==> end.frame.reply.Fits())
    ensures NextOp(EndBytes(end) + more).Done?
    ensures ReadFetch(texts, fmt, EndBytes(end) + more, 0)
         == if end.Refusal? then Bad(RefusalError(texts, end.frame), more, 0)
            else Got(if end.Last? then End else BatchEnd, more, 0)
  {
    hide NextOp, ReadU32, U32Bytes, ReadRow, Dummies, ReadResponse, Frame.Bytes, Reply.Bytes, Reply.Error;
    if end.Refusal? {
      FrameRoundTrip(texts, end.frame, more);
    } else {
      var status := if end.Last? then END_OF_CURSOR else end.word;
      var messages := if end.Last? then end.word else 0;
      var body := U32Bytes(status) + (U32Bytes(messages) + more);
      assert EndBytes(end) + more == Dummies(end.dummies) + U32Bytes(OP_FETCH_RESPONSE) + body;
      NextOpSkipsDummies(end.dummies, OP_FETCH_RESPONSE, body);
      U32RoundTrip(status, U32Bytes(messages) + more);
      U32RoundTrip(messages, more);
    }
  }

  /** What reading a whole batch comes to. */
  function BatchOutcome(texts: Texts, fmt: Layout, b: Batch): (r: Result<Fetched, FbError>)
    requires BatchFits(texts, fmt, b)
  {
    if b.end.Refusal? then Err(RefusalError(texts, b.end.frame))
    else Ok(Fetched(BatchRows(texts, fmt, b), b.end.Last?))
  }

  function Answered<T>(r: Result<T, FbError>, more: seq<byte>): Attempt<T> {
    match r
    case Ok(v) => Got(v, more, 0)
    case Err(e) => Bad(e, more, 0)
  }

  lemma {:induction false} BatchTailRoundTrip(texts: Texts, fmt: Layout, count: nat, b: Batch, i: nat, more: seq<byte>)
    requires BatchFits(texts, fmt, b) && i <= |b.rows| <= count
    ensures NextOp(BatchBytes(texts, fmt, b, i) + more).Done?
    ensures ReadBatch(texts, fmt, count, BatchBytes(texts, fmt, b, i) + more, 0, BatchRows(texts, fmt, b)[..i])
         == Answered(BatchOutcome(texts, fmt, b), more)
    decreases |b.rows| - i
  {
    hide ReadFetch, NextOp, RowMsgBytes, EndBytes, RowMsgFits, RowColumns, RefusalError;
    var rows := BatchRows(texts, fmt, b);
    if i == |b.rows| {
      EndRoundTrip(texts, fmt, b.end, more);
      assert rows[..i] == rows;
    } else {
      var rest := BatchBytes(texts, fmt, b, i + 1) + more;
      assert BatchBytes(texts, fmt, b, i) + more == RowMsgBytes(texts, fmt, b.rows[i]) + rest;
      RowMsgRoundTrip(texts, fmt, b.rows[i], rest);
      assert rows[..i + 1] == rows[..i] + [rows[i]];
      BatchTailRoundTrip(texts, fmt, count, b, i + 1, more);
    }
  }

  /** One op_fetch: behind any number of succeeding lazy replies, the whole batch is read,
      terminator included, and nothing behind it. If the server cuts the batch short, its error
      is all that comes of it, whatever rows came before. */
  lemma BatchRoundTrip(texts: Texts, fmt: Layout, count: nat, lazies: seq<Frame>, b: Batch, more: seq<byte>)
    requires FramesFit(lazies) && AllSucceed(texts, lazies)
    requires BatchFits(texts, fmt, b) && |b.rows| <= count
    ensures ReadBatch(texts, fmt, count, FramesBytes(lazies) + BatchBytes(texts, fmt, b, 0) + more, |lazies|, [])
         == Answered(BatchOutcome(texts, fmt, b), more)
  {
    hide ReadFetch, NextOp, BatchBytes, FramesBytes, RowMsgFits, RowColumns, RefusalError;
    var tail := BatchBytes(texts, fmt, b, 0) + more;
    assert FramesBytes(lazies) + BatchBytes(texts, fmt, b, 0) + more == FramesBytes(lazies) + tail;
    assert BatchRows(texts, fmt, b)[..0] == [];
    BatchTailRoundTrip(texts, fmt, count, b, 0, more);
    FetchSkipsLazies(texts, fmt, lazies, tail);
  }

  /** One row more than was asked for ends the reading with an error, and what is behind that row
      stays in the stream. */
  lemma SurplusRowIsRefused(texts: Texts, fmt: Layout, count: nat, lazies: seq<Frame>, b: Batch, more: seq<byte>)
    requires FramesFit(lazies) && AllSucceed(texts, lazies)
    requires BatchFits(texts, fmt, b) && |b.rows| > count
    ensures ReadBatch(texts, fmt, count, FramesBytes(lazies) + BatchBytes(texts, fmt, b, 0) + more, |lazies|, [])
         == Bad(TooManyRows, BatchBytes(texts, fmt, b, count + 1) + more, 0)
  {
    hide ReadFetch, NextOp, BatchBytes, FramesBytes, RowMsgFits, RowColumns;
    var tail := BatchBytes(texts, fmt, b, 0) + more;
    assert FramesBytes(lazies) + BatchBytes(texts, fmt, b, 0) + more == FramesBytes(lazies) + tail;
    assert BatchRows(texts, fmt, b)[..0] == [];
    SurplusTail(texts, fmt, count, b, 0, more);
    FetchSkipsLazies(texts, fmt, lazies, tail);
  }

  lemma {:induction false} SurplusTail(texts: Texts, fmt: Layout, count: nat, b: Batch, i: nat, more: seq<byte>)
    requires BatchFits(texts, fmt, b) && i <= count < |b.rows|
    ensures NextOp(BatchBytes(texts, fmt, b, i) + more).Done?
    ensures ReadBatch(texts, fmt, count, BatchBytes(texts, fmt, b, i) + more, 0, BatchRows(texts, fmt, b)[..i])
         == Bad(TooManyRows, BatchBytes(texts, fmt, b, count + 1) + more, 0)
    decreases count - i
  {
    hide ReadFetch, NextOp, RowMsgBytes, EndBytes, RowMsgFits, RowColumns;
    var rows := BatchRows(texts, fmt, b);
    var rest := BatchBytes(texts, fmt, b, i + 1) + more;
    assert BatchBytes(texts, fmt, b, i) + more == RowMsgBytes(texts, fmt, b.rows[i]) + rest;
    RowMsgRoundTrip(texts, fmt, b.rows[i], rest);
    assert rows[..i + 1] == rows[..i] + [rows[i]];
    if i < count {
      SurplusTail(texts, fmt, count, b, i + 1, more);
    }
  }

  // ---------------------------------------------------------------- the cursor on the server

  /** An open cursor: the batches it will answer the coming op_fetch requests with. Only the
      last one ends the cursor; any other may be cut short by an error. */
  predicate CursorFits(texts: Texts, fmt: Layout, count: nat, batches: seq<Batch>) {
    forall i :: 0 <= i < |batches| ==>
      BatchFits(texts, fmt, batches[i]) && |batches[i].rows| <= count
      && (batches[i].end.Last? <==> i == |batches| - 1)
  }

  /** All rows the server is going to send. */
  function CursorRows(texts: Texts, fmt: Layout, count: nat, batches: seq<Batch>): seq<RowData>
    requires CursorFits(texts, fmt, count, batches)
  {
    if batches == [] then []
    else BatchRows(texts, fmt, batches[0]) + CursorRows(texts, fmt, count, batches[1..])
  }

  /** How many batches without a row come before one with rows, one that is cut short, or the
      end of the cursor. */
  function LeadingEmpty(batches: seq<Batch>): (k: nat)
    ensures k <= |batches|
  {
    if batches == [] || !batches[0].end.More? || batches[0].rows != [] then 0
    else 1 + LeadingEmpty(batches[1..])
  }

  /** The error that ends a call of `fetch` with an empty queue, if one does: that of a batch
      that is cut short, or that too many batches bring nothing. */
  function FetchProblem(texts: Texts, batches: seq<Batch>): Option<FbError> {
    var k := LeadingEmpty(batches);
    if k <= MAX_BATCHES && k < |batches| && batches[k].end.Refusal? then
      Some(RefusalError(texts, batches[k].end.frame))
    else if k >= MAX_BATCHES then Some(TooManyEmptyBatches)
    else None
  }

  /** The rows that are lost with that error: those the batch brought before it was cut short. */
  function LostRows(texts: Texts, fmt: Layout, count: nat, batches: seq<Batch>): seq<RowData>
    requires CursorFits(texts, fmt, count, batches)
  {
    var k := LeadingEmpty(batches);
    if k <= MAX_BATCHES && k < |batches| && batches[k].end.Refusal? then BatchRows(texts, fmt, batches[k]) else []
  }

  /** No batch is cut short, and no thousand batches without a row follow each other. */
  ghost predicate NeverFails(batches: seq<Batch>) {
    batches == []
    || (LeadingEmpty(batches) < MAX_BATCHES && !batches[0].end.Refusal? && NeverFails(batches[1..]))
  }

  lemma LeadingEmptyStep(texts: Texts, fmt: Layout, count: nat, batches: seq<Batch>)
    requires CursorFits(texts, fmt, count, batches) && batches != []
    ensures BatchFits(texts, fmt, batches[0])
    ensures LeadingEmpty(batches)
         == if batches[0].rows != [] || !batches[0].end.More? then 0 else 1 + LeadingEmpty(batches[1..])
    ensures batches[0].end.Last? <==> batches[1..] == []
  {
  }

  /** The three ways a call of `fetch` ends behind `k` batches that bring nothing. */
  lemma EndOfFetch(texts: Texts, fmt: Layout, count: nat, batches: seq<Batch>, k: nat)
    requires CursorFits(texts, fmt, count, batches) && k <= |batches|
    ensures k <= MAX_BATCHES && k < |batches| && LeadingEmpty(batches) == k && batches[k].end.Refusal? ==>
              FetchProblem(texts, batches) == Some(RefusalError(texts, batches[k].end.frame))
              && LostRows(texts, fmt, count, batches) == BatchRows(texts, fmt, batches[k])
    ensures k <= MAX_BATCHES && k < |batches| && LeadingEmpty(batches) == k && !batches[k].end.Refusal? ==>
              FetchProblem(texts, batches) == if k == MAX_BATCHES then Some(TooManyEmptyBatches) else None
    ensures LeadingEmpty(batches) > MAX_BATCHES ==> FetchProblem(texts, batches) == Some(TooManyEmptyBatches)
    ensures LeadingEmpty(batches) > MAX_BATCHES
            || (k < |batches| && LeadingEmpty(batches) == k && !batches[k].end.Refusal?) ==>
              LostRows(texts, fmt, count, batches) == []
    ensures batches != [] && LeadingEmpty(batches) >= MAX_BATCHES ==> !NeverFails(batches)
  {
    hide LeadingEmpty, CursorFits, BatchFits, BatchRows, RefusalError;
  }

  lemma NoBatchNoRows(texts: Texts, fmt: Layout, count: nat)
    ensures CursorFits(texts, fmt, count, []) && CursorRows(texts, fmt, count, []) == []
  {
  }

  /** The cursor of a statement on the server. */
  class ServerCursor {
    const texts: Texts
    const fmt: Layout
    /** `FB_FETCH_BATCH`: how many rows an op_fetch asks for. */
    const count: nat
    var batches: seq<Batch>

    constructor (texts: Texts, fmt: Layout, count: nat)
      ensures Valid() && batches == []
      ensures this.texts == texts && this.fmt == fmt && this.count == count
    {
      this.texts := texts;
      this.fmt := fmt;
      this.count := count;
      this.batches := [];
    }

    ghost predicate Valid()
      reads this
    {
      CursorFits(texts, fmt, count, batches)
    }

    /** The rows the server has not sent yet. */
    ghost function Rows(): seq<RowData>
      requires Valid()
      reads this
    {
      CursorRows(texts, fmt, count, batches)
    }

    /** The server runs the statement: whatever was left of an earlier cursor is gone. */
    method Open(newBatches: seq<Batch>)
      requires CursorFits(texts, fmt, count, newBatches)
      modifies this
      ensures Valid() && batches == newBatches
    {
      batches := newBatches;
    }

    method NextBatch() returns (batch: Batch)
      requires Valid() && batches != []
      modifies this
      ensures Valid() && batches == old(batches)[1..]
      ensures batch == old(batches)[0] && BatchFits(texts, fmt, batch) && |batch.rows| <= count
    {
      batch := batches[0];
      batches := batches[1..];
    }
  }

  // ---------------------------------------------------------------- the client side

  /** `StmtHandleData`. */
  class StmtHandle {
    const fmt: Layout
    const paramCount: nat
    /** Rows already fetched in a batch but not yet delivered. */
    var prefetched: seq<RowData>
    var cursorEof: bool

    constructor (fmt: Layout, paramCount: nat)
      ensures this.fmt == fmt && this.paramCount == paramCount
      ensures prefetched == [] && !cursorEof
    {
      this.fmt := fmt;
      this.paramCount := paramCount;
      prefetched := [];
      cursorEof := false;
    }
  }

  /** The statement and the cursor on the server belong together: the client believes the
      cursor exhausted exactly when the server has no batch left. */
  ghost predicate Paired(conn: FirebirdWireConnection, stmt: StmtHandle, server: ServerCursor)
    reads conn, conn.socket, stmt, server
  {
    conn.Valid() && AllSucceed(conn.texts, conn.outstanding)
    && server.Valid() && server.texts == conn.texts && server.fmt == stmt.fmt
    && (stmt.cursorEof <==> server.batches == [])
  }

  /** The rows the application is still going to see. */
  ghost function Upcoming(stmt: StmtHandle, server: ServerCursor): seq<RowData>
    requires server.Valid()
    reads stmt, server
  {
    stmt.prefetched + server.Rows()
  }

  /** The reading loop of `fetch_batch`, on any stream. */
  method ReadBatchMessages(conn: FirebirdWireConnection, fmt: Layout, count: nat) returns (r: Result<Fetched, FbError>)
    requires conn.buffLen > 0
    modifies conn`pending, conn`lazyCount, conn.socket
    ensures Answers(ReadBatch(conn.texts, fmt, count, old(conn.Stream()), old(conn.lazyCount), []),
                    r, conn.Stream(), conn.lazyCount)
  {
    hide ReadFetch;
    var texts := conn.texts;
    var parse := (s, z) => ReadFetch(texts, fmt, s, z);
    forall s, more, z | !parse(s, z).Short? ensures parse(s + more, z) == parse(s, z).Append(more) {
      FetchStable(texts, fmt, s, z, more);
    }
    var rows: seq<RowData> := [];
    var got := 0;
    while true
      invariant got == |rows|
      invariant ReadBatch(texts, fmt, count, conn.Stream(), conn.lazyCount, rows)
             == ReadBatch(texts, fmt, count, old(conn.Stream()), old(conn.lazyCount), [])
      decreases |conn.Stream()|
    {
      var one :- conn.ReadWith(parse);
      match one
      case Row(cols) =>
        rows := rows + [cols];
        got := got + 1;
        if got > count {
          return Err(TooManyRows);
        }
      case BatchEnd =>
        return Ok(Fetched(rows, false));
      case End =>
        return Ok(Fetched(rows, true));
    }
  }

  /** The request for a batch and the reading of its answer, over any outstanding lazy replies
      that succeed. */
  method RequestBatch(conn: FirebirdWireConnection, fmt: Layout, count: nat, batch: Batch)
    returns (r: Result<Fetched, FbError>)
    requires conn.Valid() && AllSucceed(conn.texts, conn.outstanding)
    requires BatchFits(conn.texts, fmt, batch) && |batch.rows| <= count
    modifies conn, conn.socket
    ensures conn.Valid() && conn.outstanding == []
    ensures r == BatchOutcome(conn.texts, fmt, batch)
  {
    hide ReadBatch, BatchFits, FramesBytes, BatchBytes, BatchRows, RefusalError;
    ghost var before := conn.Stream();
    var bytes := BatchBytes(conn.texts, fmt, batch, 0);
    conn.socket.Deliver(bytes);
    assert conn.Stream() == before + bytes;
    assert before + bytes + [] == before + bytes;
    BatchRoundTrip(conn.texts, fmt, count, conn.outstanding, batch, []);
    r := ReadBatchMessages(conn, fmt, count);
    conn.outstanding := [];
    NoFrames();
  }

  /** `fetch_batch`: the next batch of the server ends up in the queue. If the server cuts it
      short, its error is returned and exactly the rows that came before are lost. The session
      stays aligned in either case, whatever lazy replies were outstanding. */
  method FetchBatch(conn: FirebirdWireConnection, stmt: StmtHandle, server: ServerCursor)
    returns (r: Result<(), FbError>)
    requires Paired(conn, stmt, server) && !stmt.cursorEof
    modifies conn, conn.socket, stmt, server
    ensures Paired(conn, stmt, server) && conn.outstanding == []
    ensures server.batches == old(server.batches)[1..]
    ensures BatchFits(conn.texts, stmt.fmt, old(server.batches)[0])
    ensures r == match BatchOutcome(conn.texts, stmt.fmt, old(server.batches)[0])
                 case Ok(_) => Ok(())
                 case Err(e) => Err(e)
    ensures var brought := BatchRows(conn.texts, stmt.fmt, old(server.batches)[0]);
            && stmt.prefetched == old(stmt.prefetched) + (if r.Ok? then brought else [])
            && (r.Ok? ==> Upcoming(stmt, server) == old(Upcoming(stmt, server)))
            && (r.Err? ==> !stmt.cursorEof
                           && Upcoming(stmt, server) == stmt.prefetched + server.Rows()
                           && old(Upcoming(stmt, server)) == old(stmt.prefetched) + (brought + server.Rows()))
    ensures r.Err? ==> (Upcoming(stmt, server) == old(Upcoming(stmt, server)) <==> old(server.batches)[0].rows == [])
  {
    hide BatchFits, FramesBytes, RowColumns, RefusalError;
    var batch := server.NextBatch();
    var fetched := RequestBatch(conn, stmt.fmt, server.count, batch);
    if fetched.Err? {
      assert stmt.prefetched + [] == stmt.prefetched;
      return Err(fetched.error);
    }
    stmt.cursorEof := fetched.value.eof;
    stmt.prefetched := stmt.prefetched + fetched.value.rows;
    return Ok(());
  }

  /** `fetch`: the next row, once each and in order, and none when the cursor is exhausted.
      Exactly when it fails, with which error, and which rows are lost with it: none when a
      thousand batches in a row bring nothing, those in front of the error when the server cuts
      a batch short. */
  method FetchRow(conn: FirebirdWireConnection, stmt: StmtHandle, server: ServerCursor)
    returns (r: Result<Option<RowData>, FbError>)
    requires Paired(conn, stmt, server)
    modifies conn, conn.socket, stmt, server
    ensures Paired(conn, stmt, server)
    ensures var queued := old(stmt.prefetched) != [] || old(stmt.cursorEof);
            && (r.Ok? <==> queued || FetchProblem(conn.texts, old(server.batches)).None?)
            && (r.Err? ==> Some(r.error) == FetchProblem(conn.texts, old(server.batches)))
    ensures r.Ok? ==>
              var all := old(Upcoming(stmt, server));
              if all == [] then r == Ok(None) && Upcoming(stmt, server) == []
              else r == Ok(Some(all[0])) && Upcoming(stmt, server) == all[1..]
    ensures r == Ok(None) ==> stmt.cursorEof && stmt.prefetched == []
    ensures r.Err? ==>
              var lost := old(LostRows(server.texts, server.fmt, server.count, server.batches));
              old(Upcoming(stmt, server)) == lost + Upcoming(stmt, server)
    ensures r.Ok? ==> (NeverFails(old(server.batches)) <==> NeverFails(server.batches))
    ensures r.Err? ==> !NeverFails(old(server.batches))
  {
    hide BatchFits, RowColumns, CursorRows, CursorFits, LeadingEmpty, FramesFit, AllSucceed, FramesBytes, RefusalError,
         FirebirdWireConnection.Valid, FetchProblem, LostRows, BatchRows;
    var emptyBatches := 0;
    ghost var first := server.batches;
    NoBatchNoRows(server.texts, server.fmt, server.count);
    while stmt.prefetched == [] && !stmt.cursorEof
      invariant Paired(conn, stmt, server)
      invariant emptyBatches <= MAX_BATCHES && emptyBatches <= |first| && server.batches == first[emptyBatches..]
      invariant Upcoming(stmt, server) == old(Upcoming(stmt, server))
      invariant LeadingEmpty(first) < MAX_BATCHES ==> (NeverFails(first) <==> NeverFails(server.batches))
      invariant emptyBatches == 0 ==> stmt.prefetched == old(stmt.prefetched) && stmt.cursorEof == old(stmt.cursorEof)
      invariant emptyBatches > 0 ==> old(stmt.prefetched) == [] && !old(stmt.cursorEof)
      invariant stmt.prefetched == [] && !stmt.cursorEof ==>
                  LeadingEmpty(first) == emptyBatches + LeadingEmpty(server.batches)
      invariant emptyBatches > 0 && (stmt.prefetched != [] || stmt.cursorEof) ==>
                  LeadingEmpty(first) == emptyBatches - 1 && !first[emptyBatches - 1].end.Refusal?
      decreases |server.batches|
    {
      ghost var batch := server.batches[0];
      assert batch == first[emptyBatches];
      LeadingEmptyStep(server.texts, server.fmt, server.count, server.batches);
      EndOfFetch(server.texts, server.fmt, server.count, first, emptyBatches);
      var fetched := FetchBatch(conn, stmt, server);
      if fetched.Err? {
        return Err(fetched.error);
      }
      emptyBatches := emptyBatches + 1;
      assert stmt.prefetched == BatchRows(conn.texts, stmt.fmt, batch);
      if emptyBatches > MAX_BATCHES {
        return Err(TooManyEmptyBatches);
      }
    }
    if emptyBatches > 0 {
      EndOfFetch(server.texts, server.fmt, server.count, first, emptyBatches - 1);
    }
    if stmt.prefetched == [] {
      return Ok(None);
    }
    assert Upcoming(stmt, server)[0] == stmt.prefetched[0];
    assert Upcoming(stmt, server)[1..] == stmt.prefetched[1..] + server.Rows();
    r := Ok(Some(stmt.prefetched[0]));
    stmt.prefetched := stmt.prefetched[1..];
  }

  /** `execute`: the queue and the end mark of the previous execution are dropped before the
      statement runs, so from here on only rows of this execution come up. The reply to the
      execution and the reply to the record count are read; the data of the latter is
      returned. */
  method Execute(conn: FirebirdWireConnection, stmt: StmtHandle, server: ServerCursor, params: nat,
                 executed: Frame, counted: Frame, batches: seq<Batch>)
    returns (r: Result<seq<byte>, FbError>)
    requires conn.Valid() && AllSucceed(conn.texts, conn.outstanding)
    requires executed.reply.Fits() && counted.reply.Fits()
    requires server.Valid() && server.texts == conn.texts && server.fmt == stmt.fmt
    requires CursorFits(conn.texts, stmt.fmt, server.count, batches) && batches != []
    modifies conn, conn.socket, stmt, server
    ensures params != stmt.paramCount ==>
              r.Err? && stmt.prefetched == old(stmt.prefetched) && stmt.cursorEof == old(stmt.cursorEof)
              && server.batches == old(server.batches)
    ensures params == stmt.paramCount ==> stmt.prefetched == [] && !stmt.cursorEof && conn.outstanding == []
    ensures conn.Valid() && server.Valid() && AllSucceed(conn.texts, conn.outstanding)
    ensures r.Ok? <==> params == stmt.paramCount && executed.reply.Succeeds(conn.texts)
                       && counted.reply.Succeeds(conn.texts)
    ensures r.Ok? ==> Paired(conn, stmt, server) && server.batches == batches
                      && r.value == counted.reply.body.data
    ensures r.Ok? ==> Upcoming(stmt, server) == CursorRows(conn.texts, stmt.fmt, server.count, batches)
  {
    hide ReadReply, Frame.Bytes, Reply.Bytes, CursorFits, CursorRows, FramesBytes;
    if params != stmt.paramCount {
      return Err(Other("wrong number of parameters"));
    }
    stmt.prefetched := [];
    stmt.cursorEof := false;
    var _ :- conn.Request(executed);
    server.Open(batches);
    var info :- conn.Request(counted);
    return Ok(info.data);
  }

  /** Fetching until there is no row left or a fetch fails, as collecting a statement iterator
      does. The rows of the execution come out in order, once each, and all of them if and only
      if no batch is cut short and no thousand empty ones follow each other. */
  method FetchAll(conn: FirebirdWireConnection, stmt: StmtHandle, server: ServerCursor)
    returns (rows: seq<RowData>, failure: Option<FbError>)
    requires Paired(conn, stmt, server)
    modifies conn, conn.socket, stmt, server
    ensures Paired(conn, stmt, server)
    ensures rows <= old(Upcoming(stmt, server))
    ensures failure.None? <==> NeverFails(old(server.batches))
    ensures failure.None? ==> rows == old(Upcoming(stmt, server)) && Upcoming(stmt, server) == []
                              && stmt.cursorEof && stmt.prefetched == []
  {
    hide CursorFits, CursorRows, LeadingEmpty, FramesFit, AllSucceed, FramesBytes, Upcoming,
         FetchProblem, LostRows, NeverFails, FirebirdWireConnection.Valid;
    rows := [];
    while true
      invariant Paired(conn, stmt, server)
      invariant NeverFails(old(server.batches)) <==> NeverFails(server.batches)
      invariant rows + Upcoming(stmt, server) == old(Upcoming(stmt, server))
      decreases |Upcoming(stmt, server)|
    {
      ghost var all := Upcoming(stmt, server);
      var row := FetchRow(conn, stmt, server);
      if row.Err? {
        assert rows <= rows + all;
        return rows, Some(row.error);
      }
      if row.value.None? {
        NothingFails(server);
        assert rows + [] == rows;
        return rows, None;
      }
      var cols := row.value.value;
      MoveFirst(rows, cols, Upcoming(stmt, server), all);
      rows := rows + [cols];
    }
  }

  lemma MoveFirst<T>(a: seq<T>, first: T, rest: seq<T>, all: seq<T>)
    requires all != [] && all[0] == first && all[1..] == rest
    ensures a + all == a + [first] + rest && |rest| < |all|
  {
    assert all == [first] + rest;
  }

  lemma NothingFails(server: ServerCursor)
    ensures server.batches == [] ==> NeverFails(server.batches)
  {
  }
}
