/** Decoding of one row of a result set (rsfbclient-rust/src/wire.rs, `parse_sql_response`
    and `parse_fetch_response`). */
module Rows {
  import opened Wrappers
  import opened Util
  import opened Wire
  import opened NullBitmap

  const SQL_VARYING := 448
  const SQL_DOUBLE := 480
  const SQL_TIMESTAMP := 510
  const SQL_BLOB := 520
  const SQL_INT64 := 580
  const SQL_BOOLEAN := 32764

  /** The parts of a described output column that decoding depends on. */
  datatype OutColumn = OutColumn(sqltype: i16, subtype: i16, alias: seq<byte>) {
    /** The type code without the nullable indicator in its lowest bit. */
    function Kind(): int {
      var code := if sqltype < 0 then sqltype + TWO_32 else sqltype;
      code - code % 2
    }

    predicate Supported() {
      Kind() in {SQL_VARYING, SQL_INT64, SQL_DOUBLE, SQL_TIMESTAMP, SQL_BOOLEAN}
      || (Kind() == SQL_BLOB && subtype <= 1)
    }
  }

  /** Columns, and whether nulls come in a bitmap (protocol 13) or as an indicator behind
      each value (older protocols). */
  datatype Layout = Layout(columns: seq<OutColumn>, v13: bool)

  /** Floating point values are carried as their eight bytes. */
  datatype SqlValue =
    | Null
    | Text(text: string)
    | Integer(i: i64)
    | Floating(bits: seq<byte>)
    | Timestamp(date: i32, time: u32)
    | Boolean(b: bool)

  datatype ParsedColumn =
    | Complete(name: seq<byte>, sqltype: int, value: SqlValue)
    | Blob(binary: bool, id: u64, colName: seq<byte>)

  /** The bytes of one value, before the null indicator of the old layout is looked at. */
  datatype Payload =
    | RawText(bytes: seq<byte>)
    | RawInt(i: i64)
    | RawFloat(bits: seq<byte>)
    | RawTimestamp(date: i32, time: u32)
    | RawBlob(id: u64)
    | RawBool(flag: byte)

  function ReadPayload(col: OutColumn, s: seq<byte>): (p: Parsed<Payload>)
    ensures p.Failed? ==> p.error.UnsupportedColumn?
    ensures p.Done? ==> |p.rest| <= |s|
  {
    var kind := col.Kind();
    if kind == SQL_VARYING then
      var (d, s1) :- ReadWireBytes(s);
      Done(RawText(d), s1)
    else if kind == SQL_INT64 then
      var (i, s1) :- ReadI64(s);
      Done(RawInt(i), s1)
    else if kind == SQL_DOUBLE then
      var (f, s1) :- Take(s, 8);
      Done(RawFloat(f), s1)
    else if kind == SQL_TIMESTAMP then
      var (date, s1) :- ReadI32(s);
      var (time, s2) :- ReadU32(s1);
      Done(RawTimestamp(date, time), s2)
    else if kind == SQL_BLOB && col.subtype <= 1 then
      var (id, s1) :- ReadU64(s);
      Done(RawBlob(id), s1)
    else if kind == SQL_BOOLEAN then
      var (b, s1) :- ReadU8(s);
      var (_, s2) :- Take(s1, 3);
      Done(RawBool(b), s2)
    else
      Failed(UnsupportedColumn(kind), s)
  }

  /** The column a payload that is not null stands for; no column when its text cannot be
      decoded. */
  function Finish(texts: Texts, col: OutColumn, payload: Payload): Option<ParsedColumn> {
    match payload
    case RawText(d) =>
      (match texts.decode(d)
       case Some(t) => Some(Complete(col.alias, col.Kind(), SqlValue.Text(t)))
       case None => None)
    case RawInt(i) => Some(Complete(col.alias, col.Kind(), Integer(i)))
    case RawFloat(f) => Some(Complete(col.alias, col.Kind(), Floating(f)))
    case RawTimestamp(date, time) => Some(Complete(col.alias, col.Kind(), Timestamp(date, time)))
    case RawBlob(id) => Some(Blob(col.subtype == 0, id, col.alias))
    case RawBool(b) => Some(Complete(col.alias, col.Kind(), Boolean(b == 1)))
  }

  function NullColumn(col: OutColumn): ParsedColumn {
    Complete(col.alias, col.Kind(), Null)
  }

  /** `nullBit` is the bit of the bitmap, and absent in the old layout, where the indicator
      follows the value. */
  function ReadColumn(texts: Texts, col: OutColumn, nullBit: Option<bool>, s: seq<byte>): (p: Parsed<ParsedColumn>)
    ensures p.Failed? ==> !IsIncomplete(p.error)
    ensures p.Done? ==> |p.rest| <= |s|
  {
    if nullBit == Some(true) then Done(NullColumn(col), s)
    else
      var (payload, s1) :- ReadPayload(col, s);
      var (indicator, s2) :- if nullBit.Some? then Done(0, s1) else ReadU32(s1);
      if indicator != 0 then Done(NullColumn(col), s2)
      else match Finish(texts, col, payload)
           case Some(c) => Done(c, s2)
           case None => Failed(InvalidText, s2)
  }

  /** Columns `i` and up, in front of those already parsed. */
  function ReadColumns(texts: Texts, fmt: Layout, i: nat, bitmap: seq<byte>, s: seq<byte>,
                       parsed: seq<ParsedColumn>): (p: Parsed<seq<ParsedColumn>>)
    requires i <= |fmt.columns|
    requires fmt.v13 ==> |bitmap| == BitmapLen(|fmt.columns|)
    ensures p.Failed? ==> !IsIncomplete(p.error)
    ensures p.Done? ==> |p.rest| <= |s|
    decreases |fmt.columns| - i
  {
    if i == |fmt.columns| then Done(parsed, s)
    else
      var (col, s1) :- ReadColumn(texts, fmt.columns[i], NullBit(fmt, i, bitmap), s);
      ReadColumns(texts, fmt, i + 1, bitmap, s1, parsed + [col])
  }

  function NullBit(fmt: Layout, i: nat, bitmap: seq<byte>): Option<bool>
    requires i < |fmt.columns|
    requires fmt.v13 ==> |bitmap| == BitmapLen(|fmt.columns|)
  {
    if fmt.v13 then Some(IsNull(bitmap, i)) else None
  }

  function ReadRow(texts: Texts, fmt: Layout, s: seq<byte>): (p: Parsed<seq<ParsedColumn>>)
    ensures p.Failed? ==> !IsIncomplete(p.error)
    ensures p.Done? ==> |p.rest| <= |s| - 4
  {
    var (hasRow, s1) :- ReadU32(s);
    if hasRow == 0 then Failed(NoColumns, s1)
    else if fmt.v13 then
      var (bitmap, s2) :- Take(s1, BitmapLen(|fmt.columns|));
      ReadColumns(texts, fmt, 0, bitmap, s2, [])
    else
      ReadColumns(texts, fmt, 0, [], s1, [])
  }

  // ---------------------------------------------------------------- prefix stability

  lemma PayloadStable(col: OutColumn, s: seq<byte>, more: seq<byte>)
    requires !ReadPayload(col, s).Incomplete?
    ensures ReadPayload(col, s + more) == ReadPayload(col, s).Append(more)
  {
    hide ReadU32, ReadU64, ReadI64, ReadWireBytes, Take;
    var kind := col.Kind();
    if kind == SQL_VARYING {
      WireBytesStable(s, more);
    } else if kind == SQL_INT64 {
      I64Stable(s, more);
    } else if kind == SQL_DOUBLE {
      TakeStable(s, 8, more);
    } else if kind == SQL_TIMESTAMP {
      U32Stable(s, more);
      U32Stable(ReadI32(s).rest, more);
    } else if kind == SQL_BLOB && col.subtype <= 1 {
      U64Stable(s, more);
    } else if kind == SQL_BOOLEAN {
      U8Stable(s, more);
      TakeStable(ReadU8(s).rest, 3, more);
    }
  }

  lemma U8Stable(s: seq<byte>, more: seq<byte>)
    requires ReadU8(s).Done?
    ensures ReadU8(s + more) == ReadU8(s).Append(more)
  {
  }

  lemma ColumnStable(texts: Texts, col: OutColumn, nullBit: Option<bool>, s: seq<byte>, more: seq<byte>)
    requires !ReadColumn(texts, col, nullBit, s).Incomplete?
    ensures ReadColumn(texts, col, nullBit, s + more) == ReadColumn(texts, col, nullBit, s).Append(more)
  {
    hide ReadPayload, ReadU32, OutColumn.Kind;
    if nullBit != Some(true) {
      PayloadStable(col, s, more);
      var p := ReadPayload(col, s);
      if p.Done? && nullBit.None? {
        U32Stable(p.rest, more);
      }
    }
  }

  lemma {:induction false} ColumnsStable(texts: Texts, fmt: Layout, i: nat, bitmap: seq<byte>, s: seq<byte>,
                                         parsed: seq<ParsedColumn>, more: seq<byte>)
    requires i <= |fmt.columns|
    requires fmt.v13 ==> |bitmap| == BitmapLen(|fmt.columns|)
    requires !ReadColumns(texts, fmt, i, bitmap, s, parsed).Incomplete?
    ensures ReadColumns(texts, fmt, i, bitmap, s + more, parsed)
         == ReadColumns(texts, fmt, i, bitmap, s, parsed).Append(more)
    decreases |fmt.columns| - i
  {
    hide ReadColumn, NullBit;
    if i < |fmt.columns| {
      var bit := NullBit(fmt, i, bitmap);
      ColumnStable(texts, fmt.columns[i], bit, s, more);
      var p := ReadColumn(texts, fmt.columns[i], bit, s);
      if p.Done? {
        ColumnsStable(texts, fmt, i + 1, bitmap, p.rest, parsed + [p.value], more);
      }
    }
  }

  /** A row that was complete stays the same row when more bytes arrive behind it. */
  lemma RowStable(texts: Texts, fmt: Layout, s: seq<byte>, more: seq<byte>)
    requires !ReadRow(texts, fmt, s).Incomplete?
    ensures ReadRow(texts, fmt, s + more) == ReadRow(texts, fmt, s).Append(more)
  {
    hide ReadU32, Take, ReadColumns;
    U32Stable(s, more);
    var s1 := ReadU32(s).rest;
    if ReadU32(s).value != 0 {
      if fmt.v13 {
        var len := BitmapLen(|fmt.columns|);
        TakeStable(s1, len, more);
        ColumnsStable(texts, fmt, 0, Take(s1, len).value, Take(s1, len).rest, [], more);
      } else {
        ColumnsStable(texts, fmt, 0, [], s1, [], more);
      }
    }
  }

  // ---------------------------------------------------------------- the layout and its inverse

  function PayloadBytes(payload: Payload): seq<byte>
    requires payload.RawText? ==> FitsWire(payload.bytes)
  {
    match payload
    case RawText(d) => WireBytes(d)
    case RawInt(i) => U64Bytes(OfI64(i))
    case RawFloat(f) => f
    case RawTimestamp(date, time) => U32Bytes(OfI32(date)) + U32Bytes(time)
    case RawBlob(id) => U64Bytes(id)
    case RawBool(b) => [b] + Zeros(3)
  }

  predicate PayloadFits(col: OutColumn, payload: Payload) {
    var kind := col.Kind();
    match payload
    case RawText(d) => kind == SQL_VARYING && FitsWire(d)
    case RawInt(_) => kind == SQL_INT64
    case RawFloat(f) => kind == SQL_DOUBLE && |f| == 8
    case RawTimestamp(_, _) => kind == SQL_TIMESTAMP
    case RawBlob(_) => kind == SQL_BLOB && col.subtype <= 1
    case RawBool(_) => kind == SQL_BOOLEAN
  }

  /** A value as the server sends it: null when the indicator is not zero. In the old layout
      a null value still has a payload. */
  datatype Cell = Cell(payload: Payload, indicator: u32) {
    predicate IsNull() {
      indicator != 0
    }
  }

  predicate CellFits(texts: Texts, col: OutColumn, cell: Cell) {
    PayloadFits(col, cell.payload)
    && (!cell.IsNull() && cell.payload.RawText? ==> texts.decode(cell.payload.bytes).Some?)
  }

  /** What a value as the server sends it stands for: the column has the name and the type code
      of its description, without the null bit, and no value if the indicator is set. Otherwise
      its value is the decoded text, the number, the bytes of the floating point value, date and
      time, or the flag; a blob column has the id, and is binary exactly for subtype 0. */
  predicate Represents(texts: Texts, col: OutColumn, cell: Cell, c: ParsedColumn) {
    if cell.IsNull() || !cell.payload.RawBlob? then
      && c.Complete? && c.name == col.alias && c.sqltype == col.Kind()
      && if cell.IsNull() then c.value.Null?
         else
           match cell.payload
           case RawText(d) => c.value.Text? && texts.decode(d) == Some(c.value.text)
           case RawInt(i) => c.value.Integer? && c.value.i == i
           case RawFloat(bits) => c.value.Floating? && c.value.bits == bits
           case RawTimestamp(date, time) => c.value.Timestamp? && c.value.date == date && c.value.time == time
           case RawBool(flag) => c.value.Boolean? && (c.value.b <==> flag == 1)
           case RawBlob(_) => false
    else
      c.Blob? && c.colName == col.alias && c.id == cell.payload.id && (c.binary <==> col.subtype == 0)
  }

  /** The type code is that of the description, read as an unsigned number, without its lowest
      bit. */
  lemma KindIs(col: OutColumn)
    ensures col.Kind() % 2 == 0
    ensures col.sqltype >= 0 ==> col.Kind() == col.sqltype - col.sqltype % 2
    ensures col.sqltype < 0 ==> col.Kind() == TWO_32 + col.sqltype - col.sqltype % 2
  {
  }

  predicate RowFits(texts: Texts, fmt: Layout, cells: seq<Cell>) {
    |cells| == |fmt.columns|
    && forall i :: 0 <= i < |cells| ==> CellFits(texts, fmt.columns[i], cells[i])
  }

  function Nulls(cells: seq<Cell>): (nulls: seq<bool>)
    ensures |nulls| == |cells|
  {
    seq(|cells|, i requires 0 <= i < |cells| => cells[i].IsNull())
  }

  function CellBytes(texts: Texts, v13: bool, col: OutColumn, cell: Cell): seq<byte>
    requires CellFits(texts, col, cell)
  {
    if v13 then if cell.IsNull() then [] else PayloadBytes(cell.payload)
    else PayloadBytes(cell.payload) + U32Bytes(cell.indicator)
  }

  function CellsBytes(texts: Texts, fmt: Layout, cells: seq<Cell>, i: nat): seq<byte>
    requires RowFits(texts, fmt, cells) && i <= |cells|
    decreases |cells| - i
  {
    if i == |cells| then []
    else CellBytes(texts, fmt.v13, fmt.columns[i], cells[i]) + CellsBytes(texts, fmt, cells, i + 1)
  }

  /** A row message: the message count, the bitmap in the new layout, the values. */
  function RowBytes(texts: Texts, fmt: Layout, cells: seq<Cell>): seq<byte>
    requires RowFits(texts, fmt, cells)
  {
    U32Bytes(1) + (if fmt.v13 then Bitmap(Nulls(cells)) else []) + CellsBytes(texts, fmt, cells, 0)
  }

  function CellColumn(texts: Texts, col: OutColumn, cell: Cell): ParsedColumn
    requires CellFits(texts, col, cell)
  {
    if cell.IsNull() then NullColumn(col) else Finish(texts, col, cell.payload).value
  }

  function RowColumns(texts: Texts, fmt: Layout, cells: seq<Cell>): (row: seq<ParsedColumn>)
    requires RowFits(texts, fmt, cells)
    ensures |row| == |cells|
  {
    seq(|cells|, i requires 0 <= i < |cells| => CellColumn(texts, fmt.columns[i], cells[i]))
  }

  lemma PayloadRoundTrip(col: OutColumn, payload: Payload, more: seq<byte>)
    requires PayloadFits(col, payload)
    ensures ReadPayload(col, PayloadBytes(payload) + more) == Done(payload, more)
  {
    hide ReadU32, ReadU64, ReadI32, ReadI64, ReadWireBytes, Take, U32Bytes, U64Bytes, WireBytes;
    match payload
    case RawText(d) => WireBytesRoundTrip(d, more);
    case RawInt(i) => I64RoundTrip(i, more);
    case RawFloat(f) => TakeRoundTrip(f, more);
    case RawTimestamp(date, time) =>
      assert PayloadBytes(payload) + more == U32Bytes(OfI32(date)) + (U32Bytes(time) + more);
      I32RoundTrip(date, U32Bytes(time) + more);
      U32RoundTrip(time, more);
    case RawBlob(id) => U64RoundTrip(id, more);
    case RawBool(b) =>
      assert PayloadBytes(payload) + more == [b] + (Zeros(3) + more);
      U8RoundTrip(b, Zeros(3) + more);
      TakeRoundTrip(Zeros(3), more);
  }

  lemma ColumnMeans(texts: Texts, col: OutColumn, cell: Cell)
    requires CellFits(texts, col, cell)
    ensures Represents(texts, col, cell, CellColumn(texts, col, cell))
  {
    hide OutColumn.Kind;
  }

  lemma CellRoundTrip(texts: Texts, v13: bool, col: OutColumn, cell: Cell, more: seq<byte>)
    requires CellFits(texts, col, cell)
    ensures ReadColumn(texts, col, if v13 then Some(cell.IsNull()) else None,
                       CellBytes(texts, v13, col, cell) + more)
         == Done(CellColumn(texts, col, cell), more)
    ensures Represents(texts, col, cell, CellColumn(texts, col, cell))
  {
    ColumnMeans(texts, col, cell);
    hide Represents, ReadU32, ReadPayload, U32Bytes, PayloadBytes, Finish, OutColumn.Kind;
    if v13 {
      if cell.IsNull() {
        assert CellBytes(texts, v13, col, cell) + more == more;
      } else {
        PayloadRoundTrip(col, cell.payload, more);
      }
    } else {
      assert CellBytes(texts, v13, col, cell) + more
          == PayloadBytes(cell.payload) + (U32Bytes(cell.indicator) + more);
      PayloadRoundTrip(col, cell.payload, U32Bytes(cell.indicator) + more);
      U32RoundTrip(cell.indicator, more);
    }
  }

  lemma {:induction false} CellsRoundTrip(texts: Texts, fmt: Layout, cells: seq<Cell>, i: nat, bitmap: seq<byte>,
                                          more: seq<byte>)
    requires RowFits(texts, fmt, cells) && i <= |cells|
    requires fmt.v13 ==> bitmap == Bitmap(Nulls(cells)) && |bitmap| == BitmapLen(|cells|)
    ensures ReadColumns(texts, fmt, i, bitmap, CellsBytes(texts, fmt, cells, i) + more,
                        RowColumns(texts, fmt, cells)[..i])
         == Done(RowColumns(texts, fmt, cells), more)
    decreases |cells| - i
  {
    hide ReadColumn, CellBytes, CellColumn, CellFits, Bitmap;
    var row := RowColumns(texts, fmt, cells);
    if i < |cells| {
      var rest := CellsBytes(texts, fmt, cells, i + 1) + more;
      assert CellsBytes(texts, fmt, cells, i) + more
          == CellBytes(texts, fmt.v13, fmt.columns[i], cells[i]) + rest;
      if fmt.v13 {
        BitmapAgreement(Nulls(cells), i);
      }
      CellRoundTrip(texts, fmt.v13, fmt.columns[i], cells[i], rest);
      assert row[..i + 1] == row[..i] + [CellColumn(texts, fmt.columns[i], cells[i])];
      CellsRoundTrip(texts, fmt, cells, i + 1, bitmap, more);
    } else {
      assert CellsBytes(texts, fmt, cells, i) + more == more;
      assert row[..i] == row;
    }
  }

  /** Every column stands for its value. */
  predicate RowRepresents(texts: Texts, fmt: Layout, cells: seq<Cell>, row: seq<ParsedColumn>) {
    |row| == |cells| == |fmt.columns|
    && forall i :: 0 <= i < |row| ==> Represents(texts, fmt.columns[i], cells[i], row[i])
  }

  lemma RowMeans(texts: Texts, fmt: Layout, cells: seq<Cell>)
    requires RowFits(texts, fmt, cells)
    ensures RowRepresents(texts, fmt, cells, RowColumns(texts, fmt, cells))
  {
    hide Represents, CellFits, CellColumn;
    forall i | 0 <= i < |cells|
      ensures Represents(texts, fmt.columns[i], cells[i], CellColumn(texts, fmt.columns[i], cells[i]))
    {
      ColumnMeans(texts, fmt.columns[i], cells[i]);
    }
  }

  /** Decoding inverts the row layout, in both protocols and for every pattern of nulls: all
      values come back, and exactly the bytes of the row are consumed. */
  lemma RowRoundTrip(texts: Texts, fmt: Layout, cells: seq<Cell>, more: seq<byte>)
    requires RowFits(texts, fmt, cells)
    ensures ReadRow(texts, fmt, RowBytes(texts, fmt, cells) + more) == Done(RowColumns(texts, fmt, cells), more)
    ensures RowRepresents(texts, fmt, cells, RowColumns(texts, fmt, cells))
  {
    hide ReadU32, U32Bytes, ReadColumns, CellsBytes, Bitmap, CellFits, Take, RowRepresents;
    RowMeans(texts, fmt, cells);
    var values := CellsBytes(texts, fmt, cells, 0) + more;
    assert RowColumns(texts, fmt, cells)[..0] == [];
    if fmt.v13 {
      var bitmap := Bitmap(Nulls(cells));
      BitmapLength(Nulls(cells));
      assert RowBytes(texts, fmt, cells) + more == U32Bytes(1) + (bitmap + values);
      U32RoundTrip(1, bitmap + values);
      TakeRoundTrip(bitmap, values);
      CellsRoundTrip(texts, fmt, cells, 0, bitmap, more);
    } else {
      assert RowBytes(texts, fmt, cells) + more == U32Bytes(1) + values;
      U32RoundTrip(1, values);
      CellsRoundTrip(texts, fmt, cells, 0, [], more);
    }
  }

  /** Exactly which columns can be decoded: a value is read when the type is supported, and
      refused with its type otherwise. */
  lemma UnsupportedIsRefused(col: OutColumn, s: seq<byte>)
    ensures !col.Supported() ==> ReadPayload(col, s) == Failed(UnsupportedColumn(col.Kind()), s)
    ensures col.Supported() ==> !ReadPayload(col, s).Failed?
  {
    hide ReadU32, ReadU64, ReadI64, ReadWireBytes, OutColumn.Kind;
  }

  /** A text the charset cannot decode is an error, unless the value is null. */
  lemma UndecodableTextIsRefused(texts: Texts, v13: bool, col: OutColumn, cell: Cell, more: seq<byte>)
    requires PayloadFits(col, cell.payload) && cell.payload.RawText? && !cell.IsNull()
    requires texts.decode(cell.payload.bytes).None?
    ensures ReadColumn(texts, col, if v13 then Some(false) else None,
                       PayloadBytes(cell.payload) + ((if v13 then [] else U32Bytes(cell.indicator)) + more))
         == Failed(InvalidText, more)
  {
    hide ReadU32, ReadPayload, U32Bytes, PayloadBytes, OutColumn.Kind;
    PayloadRoundTrip(col, cell.payload, (if v13 then [] else U32Bytes(cell.indicator)) + more);
    U32RoundTrip(cell.indicator, more);
    assert [] + more == more;
  }

  /** A message without a row is an error. */
  lemma NoRowIsRefused(texts: Texts, fmt: Layout, more: seq<byte>)
    ensures ReadRow(texts, fmt, U32Bytes(0) + more) == Failed(NoColumns, more)
  {
    hide ReadU32, U32Bytes;
    U32RoundTrip(0, more);
  }

  // ---------------------------------------------------------------- the imperative decoder

  /** `read_null`. */
  method ReadNull(fmt: Layout, bitmap: seq<byte>, resp: Cursor, i: nat) returns (r: Result<bool, FbError>)
    requires i < |fmt.columns|
    requires fmt.v13 ==> |bitmap| == BitmapLen(|fmt.columns|)
    modifies resp
    ensures fmt.v13 ==> r == Ok(IsNull(bitmap, i)) && resp.data == old(resp.data)
    ensures !fmt.v13 ==>
              match ReadU32(old(resp.data))
              case Done(n, rest) => r == Ok(n != 0) && resp.data == rest
              case _ => r == Err(MissingBytes)
  {
    if fmt.v13 {
      return Ok(Bit(bitmap[i / 8], i % 8));
    }
    var n :- resp.GetU32();
    return Ok(n != 0);
  }

  /** The match on the column type in the loop of `parse_sql_response`. */
  method ParsePayload(col: OutColumn, resp: Cursor) returns (r: Result<Payload, FbError>)
    modifies resp
    ensures Agrees(ReadPayload(col, old(resp.data)), r, resp.data)
  {
    hide ReadU32, ReadU64, ReadI32, ReadI64, ReadWireBytes;
    var kind := col.Kind();
    if kind == SQL_VARYING {
      var d :- resp.GetWireBytes();
      return Ok(RawText(d));
    } else if kind == SQL_INT64 {
      var i :- resp.GetI64();
      return Ok(RawInt(i));
    } else if kind == SQL_DOUBLE {
      var f :- resp.CopyToSlice(8);
      return Ok(RawFloat(f));
    } else if kind == SQL_TIMESTAMP {
      var date :- resp.GetI32();
      var time :- resp.GetU32();
      return Ok(RawTimestamp(date, time));
    } else if kind == SQL_BLOB && col.subtype <= 1 {
      var id :- resp.GetU64();
      return Ok(RawBlob(id));
    } else if kind == SQL_BOOLEAN {
      var b :- resp.GetU8();
      var _ :- resp.Advance(3);
      return Ok(RawBool(b));
    } else {
      return Err(UnsupportedColumn(kind));
    }
  }

  /** `parse_sql_response`. */
  method ParseSqlResponse(texts: Texts, fmt: Layout, resp: Cursor)
    returns (r: Result<seq<ParsedColumn>, FbError>)
    modifies resp
    ensures Agrees(ReadRow(texts, fmt, old(resp.data)), r, resp.data)
  {
    hide ReadU32, ReadPayload, IsNull, OutColumn.Kind;
    var hasRow :- resp.GetU32();
    if hasRow == 0 {
      return Err(NoColumns);
    }
    var bitmap := [];
    if fmt.v13 {
      bitmap :- resp.CopyToSlice(BitmapLen(|fmt.columns|));
    }
    var data: seq<ParsedColumn> := [];
    ghost var start := resp.data;
    for i := 0 to |fmt.columns|
      invariant |data| == i && (fmt.v13 ==> |bitmap| == BitmapLen(|fmt.columns|))
      invariant ReadColumns(texts, fmt, i, bitmap, resp.data, data)
             == ReadColumns(texts, fmt, 0, bitmap, start, [])
    {
      var col := fmt.columns[i];
      ghost var before := resp.data;
      var isNull := false;
      if fmt.v13 {
        var bit := ReadNull(fmt, bitmap, resp, i);
        isNull := bit.value;
      }
      if isNull {
        data := data + [NullColumn(col)];
      } else {
        var payload :- ParsePayload(col, resp);
        isNull :- ReadNull(fmt, bitmap, resp, i);
        if isNull {
          data := data + [NullColumn(col)];
        } else {
          match Finish(texts, col, payload)
          case Some(c) => data := data + [c];
          case None => return Err(InvalidText);
        }
      }
      assert ReadColumn(texts, col, NullBit(fmt, i, bitmap), before) == Done(data[i], resp.data);
    }
    return Ok(data);
  }
}
