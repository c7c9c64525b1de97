/** `prepare_statement` (rsfbclient-rust/src/client.rs): the description of the columns is put
    together from as many replies as the server needs, and the column types are coerced to
    those the row decoder handles. */
module Prepare {
  import opened Wrappers
  import opened Util
  import Wire
  import Client
  import Rows
  import opened Session
  import opened Xsqlda

  // ---------------------------------------------------------------- coercion

  const SQL_TEXT := 452
  const SQL_FLOAT := 482
  const SQL_LONG := 496
  const SQL_SHORT := 500
  const SQL_TYPE_TIME := 560
  const SQL_TYPE_DATE := 570

  /** `sqltype & !1`. */
  function WithoutNullBit(sqltype: i16): i16 {
    sqltype - sqltype % 2
  }

  /** `XSqlVar::coerce`. */
  function Coerce(v: XSqlVar): Result<XSqlVar, FbError> {
    var t := WithoutNullBit(v.sqltype);
    if t == SQL_TEXT || t == Rows.SQL_VARYING then Ok(v.(sqltype := Rows.SQL_VARYING + 1))
    else if t == SQL_SHORT || t == SQL_LONG || t == Rows.SQL_INT64 then
      if v.scale == 0 then Ok(v.(dataLength := 8, sqltype := Rows.SQL_INT64 + 1))
      else Ok(v.(dataLength := 8, scale := 0, sqltype := Rows.SQL_DOUBLE + 1))
    else if t == SQL_FLOAT || t == Rows.SQL_DOUBLE then Ok(v.(dataLength := 8, sqltype := Rows.SQL_DOUBLE + 1))
    else if t == Rows.SQL_TIMESTAMP || t == SQL_TYPE_DATE || t == SQL_TYPE_TIME then
      Ok(v.(dataLength := 8, sqltype := Rows.SQL_TIMESTAMP + 1))
    else if t == Rows.SQL_BLOB && v.sqlsubtype <= 1 then Ok(v.(sqltype := Rows.SQL_BLOB + 1))
    else if t == Rows.SQL_BOOLEAN then Ok(v.(sqltype := Rows.SQL_BOOLEAN + 1))
    else Err(UnsupportedColumn(OutColumn(v, []).Kind()))
  }

  /** The column the row decoder works with. */
  function OutColumn(v: XSqlVar, alias: seq<byte>): Rows.OutColumn {
    Rows.OutColumn(v.sqltype, v.sqlsubtype, alias)
  }

  /** Coercion and the row decoder cover the same types: a coerced column is always one the
      decoder supports, coercing again changes nothing, and what the decoder supports can be
      coerced. */
  lemma CoercedColumnsDecode(v: XSqlVar, alias: seq<byte>)
    ensures Coerce(v).Ok? ==> OutColumn(Coerce(v).value, alias).Supported()
    ensures Coerce(v).Ok? ==> Coerce(Coerce(v).value) == Coerce(v)
    ensures OutColumn(v, alias).Supported() ==> Coerce(v).Ok?
    ensures Coerce(v).Ok? && v.scale == 0 && OutColumn(v, alias).Supported() ==>
              OutColumn(Coerce(v).value, alias).Kind() == OutColumn(v, alias).Kind()
  {
    assert v.sqltype < 0 ==> OutColumn(v, alias).Kind() > 0x7fff;
    assert v.sqltype >= 0 ==> OutColumn(v, alias).Kind() == WithoutNullBit(v.sqltype);
  }

  /** What kind of values a column holds. */
  datatype Class = Characters | Exact | Approximate | Moment | Large | Truth | Unknown

  function ClassOf(v: XSqlVar): Class {
    var t := WithoutNullBit(v.sqltype);
    if t in {SQL_TEXT, Rows.SQL_VARYING} then Characters
    else if t in {SQL_SHORT, SQL_LONG, Rows.SQL_INT64} then Exact
    else if t in {SQL_FLOAT, Rows.SQL_DOUBLE} then Approximate
    else if t in {Rows.SQL_TIMESTAMP, SQL_TYPE_DATE, SQL_TYPE_TIME} then Moment
    else if t == Rows.SQL_BLOB && v.sqlsubtype <= 1 then Large
    else if t == Rows.SQL_BOOLEAN then Truth
    else Unknown
  }

  /** What becomes of the description of a column: texts are texts of variable length, exact
      numbers 64-bit integers, or floating point numbers if they have a scale, approximate numbers
      floating point numbers, and days and times of day timestamps; large objects and flags stay
      what they are. The column can always be null, and nothing but the type, the scale and the
      length of the value changes. */
  predicate Coerced(before: XSqlVar, v: XSqlVar) {
    var kind := ClassOf(before);
    && v.sqltype % 2 == 1
    && WithoutNullBit(v.sqltype)
       == (match kind
           case Characters => Rows.SQL_VARYING
           case Exact => if before.scale == 0 then Rows.SQL_INT64 else Rows.SQL_DOUBLE
           case Approximate => Rows.SQL_DOUBLE
           case Moment => Rows.SQL_TIMESTAMP
           case Large => Rows.SQL_BLOB
           case Truth => Rows.SQL_BOOLEAN
           case Unknown => -1)
    && v.scale == (if kind.Exact? then 0 else before.scale)
    && v.dataLength == (if kind.Exact? || kind.Approximate? || kind.Moment? then 8 else before.dataLength)
    && v == before.(sqltype := v.sqltype, scale := v.scale, dataLength := v.dataLength)
  }

  /** A column is coerced by its class, and refused exactly when it is in none. */
  lemma CoerceMeans(v: XSqlVar)
    ensures Coerce(v).Ok? <==> !ClassOf(v).Unknown?
    ensures Coerce(v).Ok? ==> Coerced(v, Coerce(v).value)
    ensures Coerce(v).Err? ==> Coerce(v).error == UnsupportedColumn(OutColumn(v, []).Kind())
  {
  }

  /** All columns are coerced, or the first one in no class decides the error. */
  ghost predicate CoercedAs(vars: seq<XSqlVar>, r: Result<seq<XSqlVar>, FbError>) {
    match r
    case Ok(coerced) =>
      |coerced| == |vars|
      && forall i :: 0 <= i < |vars| ==> !ClassOf(vars[i]).Unknown? && Coerced(vars[i], coerced[i])
    case Err(e) =>
      exists i :: 0 <= i < |vars| && ClassOf(vars[i]).Unknown?
                  && e == UnsupportedColumn(OutColumn(vars[i], []).Kind())
                  && forall j :: 0 <= j < i ==> !ClassOf(vars[j]).Unknown?
  }

  /** The loop that coerces the columns in place. */
  method CoerceColumns(xsqlda: seq<XSqlVar>) returns (r: Result<seq<XSqlVar>, FbError>)
    ensures CoercedAs(xsqlda, r)
  {
    hide Coerce, Coerced, ClassOf;
    var vars := xsqlda;
    for i := 0 to |xsqlda|
      invariant |vars| == |xsqlda| && vars[i..] == xsqlda[i..]
      invariant forall j :: 0 <= j < i ==> !ClassOf(xsqlda[j]).Unknown? && Coerced(xsqlda[j], vars[j])
    {
      assert vars[i] == vars[i..][0] == xsqlda[i];
      CoerceMeans(vars[i]);
      var v := Coerce(vars[i]);
      if v.Err? {
        return Err(v.error);
      }
      vars := vars[i := v.value];
    }
    return Ok(vars);
  }

  // ---------------------------------------------------------------- the server

  /** One reply to a description request: its header, after how many items it stops, and the
      response around it. */
  datatype Part = Part(header: Header, cut: nat, dummies: nat, handle: u32, objectId: u64,
                       status: seq<Wire.StatusItem>)

  /** The response that carries the description from column `from` on. */
  function PartFrame(columns: seq<Column>, from: nat, part: Part, truncated: bool): Frame
    requires ColumnsFit(columns) && from <= |columns|
    requires part.cut <= ITEMS_PER_COLUMN * (|columns| - from)
    requires ItemsFit(ItemsFrom(columns, from)[..part.cut])
  {
    Frame(part.dummies,
          Wire.Reply(Wire.Response(part.handle, part.objectId,
                                   ReplyBytes(part.header, columns, from, part.cut, truncated)),
                     part.status))
  }

  /** The server can send the reply, and it is a success. */
  ghost predicate PartFits(texts: Wire.Texts, columns: seq<Column>, from: nat, part: Part, truncated: bool) {
    ColumnsFit(columns) && from <= |columns|
    && part.cut <= ITEMS_PER_COLUMN * (|columns| - from)
    && ItemsFit(ItemsFrom(columns, from)[..part.cut])
    && part.header.Accepted()
    && PartFrame(columns, from, part, truncated).reply.Fits()
    && PartFrame(columns, from, part, truncated).reply.Succeeds(texts)
  }

  /** The replies of a server that describes from the requested column on. Every truncated reply
      begins at least one column that was not described yet. The last reply is complete, unless
      the server refuses a request in the end. `described` is the number of columns begun so
      far, and the next request asks for the last of them again. */
  ghost predicate ScriptFits(texts: Wire.Texts, columns: seq<Column>, described: nat, script: seq<Part>,
                             refusal: Option<Frame>)
    decreases |script|
  {
    if script == [] then
      refusal.Some? && refusal.value.reply.Fits() && !refusal.value.reply.Succeeds(texts)
    else
      described <= |columns|
      && var from := if described == 0 then 0 else described - 1;
         var truncated := IsTruncated(script, refusal);
         PartFits(texts, columns, from, script[0], truncated)
         && if !truncated then script[0].cut == ITEMS_PER_COLUMN * (|columns| - from)
            else Described(from, script[0].cut) > described
                 && ScriptFits(texts, columns, Described(from, script[0].cut), script[1..], refusal)
  }

  predicate IsTruncated(script: seq<Part>, refusal: Option<Frame>) {
    |script| > 1 || refusal.Some?
  }

  // ---------------------------------------------------------------- the client

  datatype Statement = Statement(stmtType: nat, handle: u32, xsqlda: seq<XSqlVar>, paramCount: nat)

  /** What one reply makes of the vector. */
  ghost predicate Fills(names: Names, columns: seq<Column>, from: nat, cut: nat, cols: seq<XSqlVar>,
                        filled: seq<XSqlVar>)
    requires from <= |columns| && cut <= ITEMS_PER_COLUMN * (|columns| - from)
  {
    |filled| == Described(from, cut)
    && from <= |cols| && filled[..from] == cols[..from]
    && forall k :: from <= k < from + cut / ITEMS_PER_COLUMN ==> filled[k] == columns[k].Var(names)
  }

  /** The first exchange: allocation and preparation are answered together. The data is parsed
      outside the retrying reader, as it is complete by then. */
  method PrepareFirst(conn: FirebirdWireConnection, names: Names, columns: seq<Column>, alloc: Frame, part: Part,
                      truncated: bool)
    returns (r: Result<(u32, PrepareInfo, seq<XSqlVar>), FbError>)
    requires conn.Valid() && AllSucceed(conn.texts, conn.outstanding)
    requires alloc.reply.Fits() && alloc.reply.Succeeds(conn.texts)
    requires PartFits(conn.texts, columns, 0, part, truncated)
    modifies conn, conn.socket
    ensures conn.Valid() && conn.outstanding == []
    ensures r.Ok? && r.value.0 == alloc.reply.body.handle
    ensures r.value.1 == PrepareInfo(part.header.stmt % 256, part.header.params, truncated)
    ensures Fills(names, columns, 0, part.cut, [], r.value.2)
  {
    hide ReplyBytes, Header.Accepted, ReadXsqlda, Column.Var, ItemFits, Frame.Bytes, Wire.Reply.Error, Wire.Reply.Fits,
         FramesBytes, Client.ReadPrepare;
    var prepared := conn.Prepare(alloc, PartFrame(columns, 0, part, truncated));
    ghost var filled := ReplyRead(names, part.header, columns, 0, part.cut, truncated, []);
    var data := new Cursor(prepared.value.data);
    var info := ParseXsqlda(names, data, []);
    return Ok((prepared.value.handle, info.value.0, info.value.1));
  }

  /** One turn of the loop: the request names the last column begun, counting from one. */
  method DescribeMore(conn: FirebirdWireConnection, names: Names, columns: seq<Column>, part: Part, truncated: bool,
                      xsqlda: seq<XSqlVar>)
    returns (r: Result<(PrepareInfo, seq<XSqlVar>), FbError>)
    requires conn.Valid() && AllSucceed(conn.texts, conn.outstanding)
    requires 0 < |xsqlda| && part.cut > 0
    requires PartFits(conn.texts, columns, |xsqlda| - 1, part, truncated)
    modifies conn, conn.socket
    ensures conn.Valid() && conn.outstanding == []
    ensures r.Ok? && r.value.0 == PrepareInfo(part.header.stmt % 256, part.header.params, truncated)
    ensures Fills(names, columns, |xsqlda| - 1, part.cut, xsqlda, r.value.1)
  {
    hide ReplyBytes, Header.Accepted, ReadXsqlda, Column.Var, ItemFits, Frame.Bytes, Wire.Reply.Error, Wire.Reply.Fits,
         FramesBytes, Client.ReadReply;
    var nextIndex := |xsqlda| % TWO_16;
    var response := conn.Request(PartFrame(columns, nextIndex - 1, part, truncated));
    ghost var filled := ReplyRead(names, part.header, columns, nextIndex - 1, part.cut, truncated, xsqlda);
    var data := new Cursor(response.value.data);
    r := ParseXsqlda(names, data, xsqlda);
  }

  /** The vector holds the right entry for every column but the last one it has. */
  ghost predicate AllButLast(names: Names, columns: seq<Column>, xsqlda: seq<XSqlVar>) {
    0 < |xsqlda| <= |columns| && xsqlda[..|xsqlda| - 1] == Vars(names, columns)[..|xsqlda| - 1]
  }

  /** A truncated reply leaves only the last column of the longer vector in doubt. */
  lemma TruncatedPart(names: Names, columns: seq<Column>, from: nat, cut: nat, cols: seq<XSqlVar>, filled: seq<XSqlVar>)
    requires from <= |columns| && 0 < cut <= ITEMS_PER_COLUMN * (|columns| - from)
    requires Fills(names, columns, from, cut, cols, filled)
    requires cols[..from] == Vars(names, columns)[..from]
    ensures AllButLast(names, columns, filled)
  {
  }

  /** A complete reply leaves nothing in doubt. */
  lemma CompletePart(names: Names, columns: seq<Column>, from: nat, cut: nat, cols: seq<XSqlVar>, filled: seq<XSqlVar>)
    requires from <= |columns| && cut == ITEMS_PER_COLUMN * (|columns| - from)
    requires Fills(names, columns, from, cut, cols, filled)
    requires cols[..from] == Vars(names, columns)[..from]
    ensures filled == Vars(names, columns)
  {
  }

  /** `prepare_statement`. However the server cuts its description, the loop ends with every
      column described once and completely, the last column of each truncated reply having been
      asked for again; or with the error of the request the server refuses. The session stays
      aligned in either case. */
  method PrepareStatement(conn: FirebirdWireConnection, names: Names, columns: seq<Column>, alloc: Frame,
                          script: seq<Part>, refusal: Option<Frame>)
    returns (r: Result<Statement, FbError>)
    requires conn.Valid() && AllSucceed(conn.texts, conn.outstanding)
    requires alloc.reply.Fits() && alloc.reply.Succeeds(conn.texts)
    requires ScriptFits(conn.texts, columns, 0, script, refusal)
    modifies conn, conn.socket
    ensures conn.Valid() && conn.outstanding == []
    ensures refusal.Some? ==> r.Err? && refusal.value.reply.Error(conn.texts) == Some(r.error)
    ensures refusal.None? ==>
              CoercedAs(Vars(names, columns), match r case Ok(st) => Ok(st.xsqlda) case Err(e) => Err(e))
    ensures r.Ok? ==> script != [] && r.value.stmtType == script[0].header.stmt % 256
                      && r.value.handle == alloc.reply.body.handle
                      && r.value.paramCount == script[|script| - 1].header.params
  {
    hide PartFits, Fills, Vars, FramesBytes, FramesFit, CoercedAs, Wire.Reply.Error, Wire.Reply.Fits;
    LastIsRefusal(conn.texts, columns, 0, script, refusal);
    if script == [] {
      var refused := conn.Prepare(alloc, refusal.value);
      return Err(refused.error);
    }
    var truncated := IsTruncated(script, refusal);
    PartFitsColumns(conn.texts, columns, 0, script[0], truncated);
    var first := PrepareFirst(conn, names, columns, alloc, script[0], truncated);
    var handle, info, xsqlda := first.value.0, first.value.1, first.value.2;
    var stmtType, paramCount := info.stmtType, info.paramCount;
    truncated := info.truncated;
    var rest := script[1..];
    if truncated {
      TruncatedPart(names, columns, 0, script[0].cut, [], xsqlda);
      FilledLength(names, columns, 0, script[0].cut, [], xsqlda);
    } else {
      CompletePart(names, columns, 0, script[0].cut, [], xsqlda);
    }

    while truncated
      invariant conn.Valid() && conn.outstanding == []
      invariant rest != [] ==> truncated && rest[|rest| - 1] == script[|script| - 1]
      invariant rest == [] ==> (truncated <==> refusal.Some?)
      invariant !truncated ==> xsqlda == Vars(names, columns) && paramCount == script[|script| - 1].header.params
      invariant truncated ==>
                  AllButLast(names, columns, xsqlda) && ScriptFits(conn.texts, columns, |xsqlda|, rest, refusal)
      decreases |rest|
    {
      if rest == [] {
        var refused := conn.Request(refusal.value);
        return Err(refused.error);
      }
      ghost var from, cols := |xsqlda| - 1, xsqlda;
      var part, more := rest[0], IsTruncated(rest, refusal);
      PartFitsColumns(conn.texts, columns, from, part, more);
      var described := DescribeMore(conn, names, columns, part, more, xsqlda);
      truncated, paramCount := described.value.0.truncated, described.value.0.paramCount;
      xsqlda := described.value.1;
      if more {
        TruncatedPart(names, columns, from, part.cut, cols, xsqlda);
        FilledLength(names, columns, from, part.cut, cols, xsqlda);
      } else {
        CompletePart(names, columns, from, part.cut, cols, xsqlda);
      }
      rest := rest[1..];
    }

    var vars :- CoerceColumns(xsqlda);
    return Ok(Statement(stmtType, handle, vars, paramCount));
  }

  lemma {:induction false} LastIsRefusal(texts: Wire.Texts, columns: seq<Column>, described: nat, script: seq<Part>,
                                         refusal: Option<Frame>)
    requires ScriptFits(texts, columns, described, script, refusal)
    ensures refusal.Some? ==> refusal.value.reply.Fits() && !refusal.value.reply.Succeeds(texts)
    decreases |script|
  {
    hide PartFits, Wire.Reply.Fits, Wire.Reply.Error;
    if script != [] && refusal.Some? {
      var from := if described == 0 then 0 else described - 1;
      PartFitsColumns(texts, columns, from, script[0], true);
      LastIsRefusal(texts, columns, Described(from, script[0].cut), script[1..], refusal);
    }
  }

  lemma PartFitsColumns(texts: Wire.Texts, columns: seq<Column>, from: nat, part: Part, truncated: bool)
    requires PartFits(texts, columns, from, part, truncated)
    ensures from <= |columns| <= MAX_COLUMNS && part.cut <= ITEMS_PER_COLUMN * (|columns| - from)
  {
  }

  lemma FilledLength(names: Names, columns: seq<Column>, from: nat, cut: nat, cols: seq<XSqlVar>, filled: seq<XSqlVar>)
    requires from <= |columns| && cut <= ITEMS_PER_COLUMN * (|columns| - from)
    requires Fills(names, columns, from, cut, cols, filled)
    ensures |filled| == Described(from, cut)
  {
  }
}
