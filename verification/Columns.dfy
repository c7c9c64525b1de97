/** From a parsed batch to rows of columns (rsfbclient-rust/src/client.rs, `fetch_batch`;
    rsfbclient-rust/src/wire.rs, `into_column`): blobs are read one after the other once the whole
    batch is there. */
module Columns {
  import opened Wrappers
  import opened Util
  import opened Wire
  import opened Rows
  import opened Client
  import opened Session
  import opened Fetch
  import opened Blobs

  datatype ColumnValue = Plain(value: SqlValue) | Binary(data: seq<byte>)

  datatype Column = Column(name: seq<byte>, sqltype: int, value: ColumnValue)

  type Row = seq<Column>

  /** What the server sends when a blob is read. */
  datatype BlobReplies = BlobReplies(opening: Frame, answers: seq<Frame>, closing: Frame) {
    ghost predicate Fits(texts: Texts) {
      opening.reply.Fits() && closing.reply.Fits() && Script(texts, answers)
    }
  }

  /** What `into_column` makes of a parsed column. */
  function ColumnOutcome(texts: Texts, parsed: ParsedColumn, blob: BlobReplies): Result<Column, FbError> {
    match parsed
    case Complete(name, sqltype, value) => Ok(Column(name, sqltype, Plain(value)))
    case Blob(binary, _, name) =>
      match BlobOutcome(texts, blob.opening, blob.answers, blob.closing)
      case Err(e) => Err(e)
      case Ok(data) =>
        if binary then Ok(Column(name, SQL_BLOB, Binary(data)))
        else
          match texts.decode(data)
          case None => Err(InvalidText)
          case Some(text) => Ok(Column(name, SQL_BLOB, Plain(SqlValue.Text(text))))
  }

  /** A column that is complete stays what it is. A blob column has its name, the type of a blob,
      and the content of its blob: as bytes if it is binary, and otherwise as the text they decode
      to. It fails if the blob cannot be read or its text not be decoded, and only then. */
  lemma ColumnOutcomeMeans(texts: Texts, parsed: ParsedColumn, blob: BlobReplies)
    ensures parsed.Complete? ==>
              ColumnOutcome(texts, parsed, blob) == Ok(Column(parsed.name, parsed.sqltype, Plain(parsed.value)))
    ensures parsed.Blob? ==>
              match BlobOutcome(texts, blob.opening, blob.answers, blob.closing)
              case Err(e) => ColumnOutcome(texts, parsed, blob) == Err(e)
              case Ok(data) =>
                if parsed.binary then ColumnOutcome(texts, parsed, blob) == Ok(Column(parsed.colName, 520, Binary(data)))
                else if texts.decode(data).None? then ColumnOutcome(texts, parsed, blob) == Err(InvalidText)
                else
                  ColumnOutcome(texts, parsed, blob)
                  == Ok(Column(parsed.colName, 520, Plain(SqlValue.Text(texts.decode(data).value))))
  {
    hide BlobOutcome;
  }

  /** One entry for each column; only those of blob columns are used. */
  ghost predicate RowBlobsFit(texts: Texts, row: RowData, blobs: seq<BlobReplies>) {
    |blobs| == |row| && forall i :: 0 <= i < |row| ==> blobs[i].Fits(texts)
  }

  /** The columns of a row, or the first failure. */
  function RowOutcome(texts: Texts, row: RowData, blobs: seq<BlobReplies>): Result<Row, FbError>
    requires |blobs| == |row|
    decreases |row|
  {
    if row == [] then Ok([])
    else
      match ColumnOutcome(texts, row[0], blobs[0])
      case Err(e) => Err(e)
      case Ok(column) =>
        match RowOutcome(texts, row[1..], blobs[1..])
        case Err(e) => Err(e)
        case Ok(rest) => Ok([column] + rest)
  }

  /** A row is all its columns in order, or the failure of the first that fails. */
  lemma {:induction false} RowOutcomeMeans(texts: Texts, row: RowData, blobs: seq<BlobReplies>)
    requires |blobs| == |row|
    ensures match RowOutcome(texts, row, blobs)
            case Ok(cols) =>
              |cols| == |row| && forall i :: 0 <= i < |row| ==> ColumnOutcome(texts, row[i], blobs[i]) == Ok(cols[i])
            case Err(e) =>
              exists i :: 0 <= i < |row| && ColumnOutcome(texts, row[i], blobs[i]) == Err(e)
                          && forall j :: 0 <= j < i ==> ColumnOutcome(texts, row[j], blobs[j]).Ok?
    decreases |row|
  {
    hide ColumnOutcome;
    if row != [] {
      var rest, more := row[1..], blobs[1..];
      RowOutcomeMeans(texts, rest, more);
      if ColumnOutcome(texts, row[0], blobs[0]).Ok? && RowOutcome(texts, rest, more).Err? {
        var e := RowOutcome(texts, rest, more).error;
        var i :| 0 <= i < |rest| && ColumnOutcome(texts, rest[i], more[i]) == Err(e)
                 && forall j :: 0 <= j < i ==> ColumnOutcome(texts, rest[j], more[j]).Ok?;
        assert ColumnOutcome(texts, row[i + 1], blobs[i + 1]) == Err(e);
        forall j | 0 <= j < i + 1 ensures ColumnOutcome(texts, row[j], blobs[j]).Ok? {
          assert j > 0 ==> row[j] == rest[j - 1] && blobs[j] == more[j - 1];
        }
      }
    }
  }

  ghost predicate BlobsFit(texts: Texts, rows: seq<RowData>, blobs: seq<seq<BlobReplies>>) {
    |blobs| == |rows| && forall i :: 0 <= i < |rows| ==> RowBlobsFit(texts, rows[i], blobs[i])
  }

  predicate SameShape(rows: seq<RowData>, blobs: seq<seq<BlobReplies>>) {
    |blobs| == |rows| && forall i :: 0 <= i < |rows| ==> |blobs[i]| == |rows[i]|
  }

  /** The first row with a blob that cannot be read, or the number of rows. */
  function FirstBroken(texts: Texts, rows: seq<RowData>, blobs: seq<seq<BlobReplies>>): (k: nat)
    requires SameShape(rows, blobs)
    ensures k <= |rows|
    ensures k < |rows| ==> RowOutcome(texts, rows[k], blobs[k]).Err?
    ensures forall i :: 0 <= i < k ==> RowOutcome(texts, rows[i], blobs[i]).Ok?
  {
    hide RowOutcome;
    if rows == [] || RowOutcome(texts, rows[0], blobs[0]).Err? then 0
    else 1 + FirstBroken(texts, rows[1..], blobs[1..])
  }

  /** The first `k` rows as they are handed out. */
  function Resolved(texts: Texts, rows: seq<RowData>, blobs: seq<seq<BlobReplies>>, k: nat): (r: seq<Row>)
    requires SameShape(rows, blobs) && k <= FirstBroken(texts, rows, blobs)
    ensures |r| == k
  {
    seq(k, i requires 0 <= i < k => RowOutcome(texts, rows[i], blobs[i]).value)
  }

  /** `into_column`; the session stays aligned in every case. */
  method IntoColumn(conn: FirebirdWireConnection, parsed: ParsedColumn, blob: BlobReplies)
    returns (r: Result<Column, FbError>)
    requires conn.Valid() && AllSucceed(conn.texts, conn.outstanding) && blob.Fits(conn.texts)
    modifies conn, conn.socket
    ensures conn.Valid() && AllSucceed(conn.texts, conn.outstanding)
    ensures r == ColumnOutcome(conn.texts, parsed, blob)
  {
    hide FramesBytes, Script, BlobOutcome, FramesFit;
    match parsed
    case Complete(name, sqltype, value) => return Ok(Column(name, sqltype, Plain(value)));
    case Blob(binary, _, name) =>
      var data :- ReadBlob(conn, blob.opening, blob.answers, blob.closing);
      if binary {
        return Ok(Column(name, SQL_BLOB, Binary(data)));
      }
      var text := conn.texts.decode(data);
      if text.None? {
        return Err(InvalidText);
      }
      return Ok(Column(name, SQL_BLOB, Plain(SqlValue.Text(text.value))));
  }

  /** The columns of one row. */
  method IntoColumns(conn: FirebirdWireConnection, row: RowData, blobs: seq<BlobReplies>)
    returns (r: Result<Row, FbError>)
    requires conn.Valid() && AllSucceed(conn.texts, conn.outstanding) && RowBlobsFit(conn.texts, row, blobs)
    modifies conn, conn.socket
    ensures conn.Valid() && AllSucceed(conn.texts, conn.outstanding)
    ensures r == RowOutcome(conn.texts, row, blobs)
  {
    hide ColumnOutcome, FirebirdWireConnection.Valid, AllSucceed, BlobReplies.Fits;
    var cols: Row := [];
    assert row[0..] == row && blobs[0..] == blobs;
    NothingInFront(RowOutcome(conn.texts, row, blobs));
    for i := 0 to |row|
      invariant conn.Valid() && AllSucceed(conn.texts, conn.outstanding)
      invariant RowOutcome(conn.texts, row, blobs) == InFront(cols, RowOutcome(conn.texts, row[i..], blobs[i..]))
    {
      assert row[i..][1..] == row[i + 1..] && blobs[i..][1..] == blobs[i + 1..];
      var column :- IntoColumn(conn, row[i], blobs[i]);
      InFrontAgain(cols, column, RowOutcome(conn.texts, row[i + 1..], blobs[i + 1..]));
      cols := cols + [column];
    }
    assert cols + [] == cols;
    return Ok(cols);
  }

  function InFront(cols: Row, r: Result<Row, FbError>): Result<Row, FbError> {
    match r
    case Ok(rest) => Ok(cols + rest)
    case Err(e) => Err(e)
  }

  lemma NothingInFront(r: Result<Row, FbError>)
    ensures InFront([], r) == r
  {
    assert r.Ok? ==> [] + r.value == r.value;
  }

  lemma InFrontAgain(cols: Row, column: Column, r: Result<Row, FbError>)
    ensures InFront(cols, InFront([column], r)) == InFront(cols + [column], r)
  {
    assert r.Ok? ==> cols + ([column] + r.value) == cols + [column] + r.value;
  }

  /** The last loop of `fetch_batch`. The rows before the first one with a blob that cannot be
      read go into the queue, and that one and all behind it are lost. */
  method IntoRows(conn: FirebirdWireConnection, rows: seq<RowData>, blobs: seq<seq<BlobReplies>>, queue: seq<Row>)
    returns (prefetched: seq<Row>, r: Result<(), FbError>)
    requires conn.Valid() && AllSucceed(conn.texts, conn.outstanding)
    requires BlobsFit(conn.texts, rows, blobs) && SameShape(rows, blobs)
    modifies conn, conn.socket
    ensures conn.Valid() && AllSucceed(conn.texts, conn.outstanding)
    ensures var k := FirstBroken(conn.texts, rows, blobs);
            && prefetched == queue + Resolved(conn.texts, rows, blobs, k)
            && (r.Ok? <==> k == |rows|)
            && (r.Err? ==> r.error == RowOutcome(conn.texts, rows[k], blobs[k]).error)
  {
    hide RowOutcome, FirebirdWireConnection.Valid, AllSucceed, RowBlobsFit, FirstBroken;
    ghost var k := FirstBroken(conn.texts, rows, blobs);
    prefetched := queue;
    for i := 0 to |rows|
      invariant i <= k
      invariant conn.Valid() && AllSucceed(conn.texts, conn.outstanding)
      invariant prefetched == queue + Resolved(conn.texts, rows, blobs, i)
    {
      var row := IntoColumns(conn, rows[i], blobs[i]);
      if row.Err? {
        return prefetched, Err(row.error);
      }
      assert Resolved(conn.texts, rows, blobs, i + 1) == Resolved(conn.texts, rows, blobs, i) + [row.value];
      prefetched := prefetched + [row.value];
    }
    return prefetched, Ok(());
  }

  /** `fetch_batch` with its blobs, over any outstanding lazy replies that succeed. The end mark
      is set before the blobs are read. When the server cuts the batch short, all its rows are
      lost; when a blob cannot be read, exactly the rows from that one on are, and the rows in
      front of it stay in the queue, although the error is reported first. The session stays
      aligned in every case. */
  method FetchWholeBatch(conn: FirebirdWireConnection, fmt: Layout, count: nat, batch: Batch,
                         blobs: seq<seq<BlobReplies>>, queue: seq<Row>, eof: bool)
    returns (prefetched: seq<Row>, cursorEof: bool, r: Result<(), FbError>)
    requires conn.Valid() && AllSucceed(conn.texts, conn.outstanding)
    requires BatchFits(conn.texts, fmt, batch) && |batch.rows| <= count
    requires BlobsFit(conn.texts, BatchRows(conn.texts, fmt, batch), blobs)
    requires SameShape(BatchRows(conn.texts, fmt, batch), blobs)
    modifies conn, conn.socket
    ensures conn.Valid() && AllSucceed(conn.texts, conn.outstanding)
    ensures batch.end.Refusal? ==>
              prefetched == queue && cursorEof == eof && r == Err(RefusalError(conn.texts, batch.end.frame))
    ensures !batch.end.Refusal? ==>
              var rows := BatchRows(conn.texts, fmt, batch);
              var k := FirstBroken(conn.texts, rows, blobs);
              && cursorEof == batch.end.Last?
              && prefetched == queue + Resolved(conn.texts, rows, blobs, k)
              && (r.Ok? <==> k == |rows|)
              && (r.Err? ==> r.error == RowOutcome(conn.texts, rows[k], blobs[k]).error)
  {
    hide BatchFits, FramesBytes, RowColumns, RefusalError, FirstBroken, Resolved, RowOutcome, RowBlobsFit;
    var fetched := RequestBatch(conn, fmt, count, batch);
    if fetched.Err? {
      return queue, eof, Err(fetched.error);
    }
    cursorEof := fetched.value.eof;
    prefetched, r := IntoRows(conn, fetched.value.rows, blobs, queue);
  }
}
