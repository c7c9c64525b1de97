/** Column descriptions (rsfbclient-rust/src/xsqlda.rs) and the loop of `prepare_statement`
    (rsfbclient-rust/src/client.rs) that puts them together from truncated replies. */
module Xsqlda {
  import opened Wrappers
  import opened Util

  const INFO_END: byte := 1
  const INFO_TRUNCATED: byte := 2
  const SQL_SELECT: byte := 4
  const SQL_BIND: byte := 5
  const SQL_DESCRIBE_VARS: byte := 7
  const SQL_DESCRIBE_END: byte := 8
  const SQL_SQLDA_SEQ: byte := 9
  const SQL_TYPE: byte := 11
  const SQL_SUB_TYPE: byte := 12
  const SQL_SCALE: byte := 13
  const SQL_LENGTH: byte := 14
  const SQL_NULL_IND: byte := 15
  const SQL_FIELD: byte := 16
  const SQL_RELATION: byte := 17
  const SQL_OWNER: byte := 18
  const SQL_ALIAS: byte := 19
  const SQL_STMT_TYPE: byte := 21

  const MAX_COLUMNS: nat := 1024

  /** `n as i16`. */
  function ToI16(n: i32): i16 {
    var low := n % 0x1_0000;
    if low < 0x8000 then low else low - 0x1_0000
  }

  datatype XSqlVar = XSqlVar(sqltype: i16, scale: i16, sqlsubtype: i16, dataLength: i16, nullInd: bool,
                             fieldName: string, relationName: string, ownerName: string, aliasName: string)

  const BLANK := XSqlVar(0, 0, 0, 0, false, "", "", "", "")

  /** How name bytes become a string: the empty string when they are not valid text. */
  type Names = seq<byte> -> string

  // ---------------------------------------------------------------- items

  datatype Item =
    | Index(col: u32)
    | Num(tag: byte, n: i32)
    | Name(tag: byte, bytes: seq<byte>)
    | EndOfColumn
    | Truncated
    | EndOfData

  predicate IsNumTag(tag: byte) {
    SQL_TYPE <= tag <= SQL_NULL_IND
  }

  predicate IsNameTag(tag: byte) {
    SQL_FIELD <= tag <= SQL_ALIAS
  }

  /** One turn of the loop of `parse_select_items`; `known` tells whether the current column
      exists, which is checked before a number is read and after a name was. */
  function ReadItem(s: seq<byte>, known: bool): (p: Parsed<Item>)
    ensures p.Done? ==> |p.rest| < |s|
    ensures p.Failed? ==> !IsIncomplete(p.error)
  {
    var (code, s1) :- ReadU8(s);
    if code == SQL_SQLDA_SEQ then
      var (_, s2) :- Take(s1, 2);
      var (col, s3) :- ReadU32Le(s2);
      if col == 0 then Failed(InvalidXsqlda, s3) else Done(Index(col), s3)
    else if IsNumTag(code) then
      var (_, s2) :- Take(s1, 2);
      if !known then Failed(InvalidXsqlda, s2)
      else
        var (n, s3) :- ReadI32Le(s2);
        Done(Num(code, n), s3)
    else if IsNameTag(code) then
      var (len, s2) :- ReadU16Le(s1);
      var (bytes, s3) :- Take(s2, len);
      if !known then Failed(InvalidXsqlda, s3) else Done(Name(code, bytes), s3)
    else if code == SQL_DESCRIBE_END then Done(EndOfColumn, s1)
    else if code == INFO_TRUNCATED then Done(Truncated, s1)
    else if code == INFO_END then Done(EndOfData, s1)
    else Failed(Other("Invalid item received in the xsqlda"), s1)
  }

  function SetNum(v: XSqlVar, tag: byte, n: i32): XSqlVar {
    if tag == SQL_TYPE then v.(sqltype := ToI16(n))
    else if tag == SQL_SUB_TYPE then v.(sqlsubtype := ToI16(n))
    else if tag == SQL_SCALE then v.(scale := ToI16(n))
    else if tag == SQL_LENGTH then v.(dataLength := ToI16(n))
    else if tag == SQL_NULL_IND then v.(nullInd := n != 0)
    else v
  }

  function SetName(v: XSqlVar, tag: byte, name: string): XSqlVar {
    if tag == SQL_FIELD then v.(fieldName := name)
    else if tag == SQL_RELATION then v.(relationName := name)
    else if tag == SQL_OWNER then v.(ownerName := name)
    else if tag == SQL_ALIAS then v.(aliasName := name)
    else v
  }

  /** The locals of the loop: the vector being filled and the index of the current column. */
  datatype Filling = Filling(cols: seq<XSqlVar>, index: nat) {
    predicate Known() {
      index < |cols|
    }

    function Apply(names: Names, item: Item): Filling {
      match item
      case Index(col) =>
        if col == 0 then this
        else Filling(if col - 1 >= |cols| then cols + [BLANK] else cols, col - 1)
      case Num(tag, n) => if Known() then this.(cols := cols[index := SetNum(cols[index], tag, n)]) else this
      case Name(tag, b) => if Known() then this.(cols := cols[index := SetName(cols[index], tag, names(b))]) else this
      case _ => this
    }
  }

  /** The loop of `parse_select_items`: whether the data was truncated, and the vector. */
  function ReadItems(names: Names, s: seq<byte>, f: Filling): (p: Parsed<(bool, seq<XSqlVar>)>)
    ensures p.Failed? ==> !IsIncomplete(p.error)
    decreases |s|
  {
    var (item, s1) :- ReadItem(s, f.Known());
    if item == Truncated then Done((true, f.cols), s1)
    else if item == EndOfData then Done((false, f.cols), s1)
    else ReadItems(names, s1, f.Apply(names, item))
  }

  function ReadSelectItems(names: Names, s: seq<byte>, cols: seq<XSqlVar>): (p: Parsed<(bool, seq<XSqlVar>)>)
    ensures p.Failed? ==> !IsIncomplete(p.error)
  {
    if s == [] then Done((false, cols), s) else ReadItems(names, s, Filling(cols, 0))
  }

  datatype PrepareInfo = PrepareInfo(stmtType: nat, paramCount: nat, truncated: bool)

  /** The statement types the client knows, 1 to 14, as the low byte of a number. */
  predicate KnownStmtType(n: u32) {
    1 <= n % 256 <= 14
  }

  function SkipDescribeEnds(s: seq<byte>): (rest: seq<byte>)
    ensures |rest| <= |s|
    decreases |s|
  {
    if s != [] && s[0] == SQL_DESCRIBE_END then SkipDescribeEnds(s[1..]) else s
  }

  /** The statement type. The checks of the header report bad data, never missing bytes. */
  function ReadStmtType(s: seq<byte>): (p: Parsed<u32>)
    ensures p.Failed? ==> !IsIncomplete(p.error)
    ensures !p.Incomplete?
  {
    if |s| < 7 || s[..3] != [SQL_STMT_TYPE, 4, 0] then Failed(InvalidXsqlda, s)
    else
      var stmt := ReadU32Le(s[3..]).value;
      if KnownStmtType(stmt) then Done(stmt, s[7..]) else Failed(Other("unknown statement type"), s[7..])
  }

  /** The start of a section, the parameters or the columns, with the number of its entries. */
  function ReadSection(s: seq<byte>, section: byte): (p: Parsed<u32>)
    ensures p.Failed? ==> !IsIncomplete(p.error)
    ensures !p.Incomplete?
  {
    if |s| < 8 || s[..2] != [section, SQL_DESCRIBE_VARS] then Failed(InvalidXsqlda, s)
    else Done(ReadU32Le(s[4..]).value, s[8..])
  }

  /** `parse_xsqlda`. */
  function ReadXsqlda(names: Names, s: seq<byte>, cols: seq<XSqlVar>): (p: Parsed<(PrepareInfo, seq<XSqlVar>)>)
    ensures p.Failed? ==> !IsIncomplete(p.error)
  {
    var (stmt, s1) :- ReadStmtType(s);
    var (params, s2) :- ReadSection(s1, SQL_BIND);
    var (colLen, s3) :- ReadSection(SkipDescribeEnds(s2), SQL_SELECT);
    if colLen > MAX_COLUMNS then Failed(InvalidXsqlda, s3)
    else
      var (filled, s4) :- ReadSelectItems(names, s3, cols);
      Done((PrepareInfo(stmt % 256, params, filled.0), filled.1), s4)
  }

  // ---------------------------------------------------------------- what the server sends

  function ItemBytes(item: Item): seq<byte>
    requires item.Name? ==> |item.bytes| < TWO_16
  {
    match item
    case Index(col) => [SQL_SQLDA_SEQ, 4, 0] + U32LeBytes(col)
    case Num(tag, n) => [tag, 4, 0] + U32LeBytes(OfI32(n))
    case Name(tag, b) => [tag] + U16LeBytes(|b|) + b
    case EndOfColumn => [SQL_DESCRIBE_END]
    case Truncated => [INFO_TRUNCATED]
    case EndOfData => [INFO_END]
  }

  predicate ItemFits(item: Item) {
    match item
    case Index(col) => col != 0
    case Num(tag, _) => IsNumTag(tag)
    case Name(tag, b) => IsNameTag(tag) && |b| < TWO_16
    case EndOfColumn => true
    case _ => false
  }

  predicate ItemsFit(items: seq<Item>) {
    forall i :: 0 <= i < |items| ==> ItemFits(items[i])
  }

  function ItemsBytes(items: seq<Item>): seq<byte>
    requires ItemsFit(items)
  {
    if items == [] then [] else ItemBytes(items[0]) + ItemsBytes(items[1..])
  }

  function ApplyAll(names: Names, items: seq<Item>, f: Filling): Filling {
    if items == [] then f else ApplyAll(names, items[1..], f.Apply(names, items[0]))
  }

  /** A column as the server describes it. */
  datatype Column = Column(sqltype: i16, subtype: i16, scale: i16, length: i16, nullInd: i32,
                           field: seq<byte>, relation: seq<byte>, owner: seq<byte>, alias: seq<byte>)
  {
    predicate Fits() {
      |field| < TWO_16 && |relation| < TWO_16 && |owner| < TWO_16 && |alias| < TWO_16
    }

    /** Its entry in the xsqlda. */
    function Var(names: Names): XSqlVar {
      XSqlVar(sqltype, scale, subtype, length, nullInd != 0, names(field), names(relation), names(owner), names(alias))
    }

    /** The items behind the index of the column. */
    function Body(): (items: seq<Item>)
      ensures |items| == 10
    {
      [Num(SQL_TYPE, sqltype), Num(SQL_SUB_TYPE, subtype), Num(SQL_SCALE, scale), Num(SQL_LENGTH, length),
       Num(SQL_NULL_IND, nullInd), Name(SQL_FIELD, field), Name(SQL_RELATION, relation), Name(SQL_OWNER, owner),
       Name(SQL_ALIAS, alias), EndOfColumn]
    }
  }

  const ITEMS_PER_COLUMN: nat := 11

  predicate ColumnsFit(columns: seq<Column>) {
    |columns| <= MAX_COLUMNS && forall i :: 0 <= i < |columns| ==> columns[i].Fits()
  }

  function ColumnItems(columns: seq<Column>, i: nat): (items: seq<Item>)
    requires i < |columns| < TWO_32
    ensures |items| == ITEMS_PER_COLUMN
  {
    [Index(i + 1)] + columns[i].Body()
  }

  /** All items of the columns from number `i` on. */
  function ItemsFrom(columns: seq<Column>, i: nat): (items: seq<Item>)
    requires i <= |columns| < TWO_32
    ensures |items| == ITEMS_PER_COLUMN * (|columns| - i)
    decreases |columns| - i
  {
    if i == |columns| then [] else ColumnItems(columns, i) + ItemsFrom(columns, i + 1)
  }

  function Vars(names: Names, columns: seq<Column>): (vars: seq<XSqlVar>)
    ensures |vars| == |columns|
  {
    seq(|columns|, i requires 0 <= i < |columns| => columns[i].Var(names))
  }

  // ---------------------------------------------------------------- reading items back

  lemma ItemRoundTrip(item: Item, known: bool, more: seq<byte>)
    requires ItemFits(item) && (known || item.Index? || item.EndOfColumn?)
    ensures ReadItem(ItemBytes(item) + more, known) == Done(item, more)
  {
    hide ReadU32Le, ReadU16Le, Take, U32LeBytes, U16LeBytes;
    match item
    case Index(col) =>
      HeaderRoundTrip(SQL_SQLDA_SEQ, U32LeBytes(col), more);
      U32LeRoundTrip(col, more);
    case Num(tag, n) =>
      HeaderRoundTrip(tag, U32LeBytes(OfI32(n)), more);
      I32LeRoundTrip(n, more);
    case Name(tag, b) =>
      assert ItemBytes(item) + more == [tag] + (U16LeBytes(|b|) + (b + more));
      U8RoundTrip(tag, U16LeBytes(|b|) + (b + more));
      U16LeRoundTrip(|b|, b + more);
      TakeRoundTrip(b, more);
    case EndOfColumn => U8RoundTrip(SQL_DESCRIBE_END, more);
  }

  /** A code, two bytes of length that are not looked at, and a value. */
  lemma HeaderRoundTrip(tag: byte, value: seq<byte>, more: seq<byte>)
    ensures ReadU8([tag, 4, 0] + value + more) == Done(tag, [4, 0] + (value + more))
    ensures Take([4, 0] + (value + more), 2) == Done([4, 0], value + more)
  {
  }

  /** Items always find their column: an index comes before all others. */
  predicate Anchored(items: seq<Item>, f: Filling) {
    items == [] || f.Known() || items[0].Index?
  }

  lemma AppliedIndexIsKnown(names: Names, f: Filling, item: Item)
    requires ItemFits(item) && (f.Known() || item.Index?)
    requires item.Index? ==> item.col <= |f.cols| + 1
    ensures f.Apply(names, item).Known()
  {
  }

  /** The indexes in the items never skip a column. */
  predicate Gapless(names: Names, items: seq<Item>, f: Filling)
    decreases |items|
  {
    items == [] || ((items[0].Index? ==> items[0].col <= |f.cols| + 1)
                    && Gapless(names, items[1..], f.Apply(names, items[0])))
  }

  /** Reading a list of items and the mark behind it fills the vector with the fold of the
      items. */
  lemma {:induction false} ItemsRoundTrip(names: Names, items: seq<Item>, f: Filling, truncated: bool, more: seq<byte>)
    requires ItemsFit(items) && Anchored(items, f) && Gapless(names, items, f)
    ensures ReadItems(names, ItemsBytes(items) + [if truncated then INFO_TRUNCATED else INFO_END] + more, f)
         == Done((truncated, ApplyAll(names, items, f).cols), more)
    decreases |items|
  {
    hide ReadU8, ItemBytes, Filling.Apply;
    var mark := [if truncated then INFO_TRUNCATED else INFO_END];
    if items == [] {
      assert ItemsBytes(items) + mark + more == mark + more;
      MarkRoundTrip(truncated, f.Known(), more);
    } else {
      var rest := ItemsBytes(items[1..]) + mark + more;
      assert ItemsBytes(items) + mark + more == ItemBytes(items[0]) + rest;
      ItemRoundTrip(items[0], f.Known(), rest);
      AppliedIndexIsKnown(names, f, items[0]);
      ItemsRoundTrip(names, items[1..], f.Apply(names, items[0]), truncated, more);
    }
  }

  lemma MarkRoundTrip(truncated: bool, known: bool, more: seq<byte>)
    ensures ReadItem([if truncated then INFO_TRUNCATED else INFO_END] + more, known)
         == Done(if truncated then Truncated else EndOfData, more)
  {
  }

  // ---------------------------------------------------------------- descriptions that are refused

  /** A number or a name without a column to belong to is an error. */
  lemma StrayItemIsRefused(names: Names, item: Item, f: Filling, more: seq<byte>)
    requires ItemFits(item) && (item.Num? || item.Name?) && !f.Known()
    ensures ReadItems(names, ItemBytes(item) + more, f).Failed?
    ensures ReadItems(names, ItemBytes(item) + more, f).error == InvalidXsqlda
  {
    hide ReadU32Le, ReadU16Le, Take, U32LeBytes, U16LeBytes;
    match item
    case Num(tag, n) =>
      HeaderRoundTrip(tag, U32LeBytes(OfI32(n)), more);
    case Name(tag, b) =>
      assert ItemBytes(item) + more == [tag] + (U16LeBytes(|b|) + (b + more));
      U8RoundTrip(tag, U16LeBytes(|b|) + (b + more));
      U16LeRoundTrip(|b|, b + more);
      TakeRoundTrip(b, more);
  }

  /** And so is one behind an index that skips a column, although a column was begun for it; a
      debug build already stops at the index. */
  lemma GapIsRefused(names: Names, col: u32, item: Item, f: Filling, more: seq<byte>)
    requires ItemFits(item) && (item.Num? || item.Name?) && col > |f.cols| + 1
    ensures ReadItems(names, ItemBytes(Index(col)) + (ItemBytes(item) + more), f).Failed?
    ensures ReadItems(names, ItemBytes(Index(col)) + (ItemBytes(item) + more), f).error == InvalidXsqlda
  {
    hide ItemBytes;
    ItemRoundTrip(Index(col), f.Known(), ItemBytes(item) + more);
    StrayItemIsRefused(names, item, f.Apply(names, Index(col)), more);
  }

  /** Columns are counted from one, and no other items are known. */
  lemma BadItemIsRefused(code: byte, known: bool, more: seq<byte>)
    ensures ReadItem([SQL_SQLDA_SEQ, 4, 0] + U32LeBytes(0) + more, known) == Failed(InvalidXsqlda, more)
    ensures !(SQL_SQLDA_SEQ == code || 11 <= code <= 19 || code in {INFO_END, INFO_TRUNCATED, SQL_DESCRIBE_END}) ==>
              ReadItem([code] + more, known).Failed?
  {
    hide ReadU32Le, U32LeBytes, Take;
    HeaderRoundTrip(SQL_SQLDA_SEQ, U32LeBytes(0), more);
    U32LeRoundTrip(0, more);
    U8RoundTrip(code, more);
  }

  /** A description that does not start with a statement type, or that has no section for the
      parameters behind it, is refused as a whole. */
  lemma BrokenHeaderIsRefused(names: Names, s: seq<byte>, stmt: u32, tail: seq<byte>, cols: seq<XSqlVar>)
    ensures |s| < 7 || s[..3] != [SQL_STMT_TYPE, 4, 0] ==> ReadXsqlda(names, s, cols) == Failed(InvalidXsqlda, s)
    ensures 1 <= stmt % 256 <= 14 && (|tail| < 8 || tail[..2] != [SQL_BIND, SQL_DESCRIBE_VARS]) ==>
              ReadXsqlda(names, [SQL_STMT_TYPE, 4, 0] + (U32LeBytes(stmt) + tail), cols) == Failed(InvalidXsqlda, tail)
  {
    hide ReadSelectItems, U32LeBytes;
    StmtTypeRead(stmt, tail);
  }

  // ---------------------------------------------------------------- filling the vector

  lemma {:induction false} ApplyConcat(names: Names, a: seq<Item>, b: seq<Item>, f: Filling)
    ensures ApplyAll(names, a + b, f) == ApplyAll(names, b, ApplyAll(names, a, f))
    ensures Gapless(names, a + b, f) <==> Gapless(names, a, f) && Gapless(names, b, ApplyAll(names, a, f))
    decreases |a|
  {
    hide Filling.Apply;
    if a == [] {
      assert a + b == b;
    } else {
      assert (a + b)[1..] == a[1..] + b;
      ApplyConcat(names, a[1..], b, f.Apply(names, a[0]));
    }
  }

  /** What items without an index, from item `k` on, make of the entry of their column. */
  function FoldVar(names: Names, items: seq<Item>, k: nat, v: XSqlVar): XSqlVar
    requires k <= |items|
    decreases |items| - k
  {
    if k == |items| then v
    else FoldVar(names, items, k + 1,
                 match items[k]
                 case Num(tag, n) => SetNum(v, tag, n)
                 case Name(tag, b) => SetName(v, tag, names(b))
                 case _ => v)
  }

  /** Items without an index change the entry of the current column only. */
  lemma {:induction false} BodyFolds(names: Names, items: seq<Item>, k: nat, f: Filling)
    requires k <= |items| && f.Known()
    requires forall j :: 0 <= j < |items| ==> !items[j].Index?
    ensures ApplyAll(names, items[k..], f) == f.(cols := f.cols[f.index := FoldVar(names, items, k, f.cols[f.index])])
    ensures Gapless(names, items[k..], f)
    decreases |items| - k
  {
    hide SetNum, SetName;
    if k < |items| {
      assert items[k..][1..] == items[k + 1..];
      BodyFolds(names, items, k + 1, f.Apply(names, items[k]));
    }
  }

  /** A number is cut to 16 bits: it stays the same modulo 65536. */
  lemma CutToShort(n: i32)
    ensures (ToI16(n) - n) % 0x1_0000 == 0
  {
    var low := n % 0x1_0000;
    assert n == n / 0x1_0000 * 0x1_0000 + low;
    MultipleOfRange(n / 0x1_0000);
  }

  lemma MultipleOfRange(q: int)
    ensures (-q * 0x1_0000) % 0x1_0000 == 0 && ((-q - 1) * 0x1_0000) % 0x1_0000 == 0
  {
  }

  lemma ShortInts(n: i16)
    ensures ToI16(n) == n
  {
  }

  /** The ten items of a column determine its entry, whatever was there before. */
  lemma BodyGivesVar(names: Names, c: Column, v: XSqlVar)
    ensures FoldVar(names, c.Body(), 0, v) == c.Var(names)
  {
    hide ToI16;
    var b := c.Body();
    ShortInts(c.sqltype);
    ShortInts(c.subtype);
    ShortInts(c.scale);
    ShortInts(c.length);
    var v1 := v.(sqltype := c.sqltype);
    assert FoldVar(names, b, 0, v) == FoldVar(names, b, 1, v1);
    var v2 := v1.(sqlsubtype := c.subtype);
    assert FoldVar(names, b, 1, v1) == FoldVar(names, b, 2, v2);
    var v3 := v2.(scale := c.scale);
    assert FoldVar(names, b, 2, v2) == FoldVar(names, b, 3, v3);
    var v4 := v3.(dataLength := c.length);
    assert FoldVar(names, b, 3, v3) == FoldVar(names, b, 4, v4);
    var v5 := v4.(nullInd := c.nullInd != 0);
    assert FoldVar(names, b, 4, v4) == FoldVar(names, b, 5, v5);
    var v6 := v5.(fieldName := names(c.field));
    assert FoldVar(names, b, 5, v5) == FoldVar(names, b, 6, v6);
    var v7 := v6.(relationName := names(c.relation));
    assert FoldVar(names, b, 6, v6) == FoldVar(names, b, 7, v7);
    var v8 := v7.(ownerName := names(c.owner));
    assert FoldVar(names, b, 7, v7) == FoldVar(names, b, 8, v8);
    var v9 := v8.(aliasName := names(c.alias));
    assert FoldVar(names, b, 8, v8) == FoldVar(names, b, 9, v9);
    assert FoldVar(names, b, 9, v9) == FoldVar(names, b, 10, v9) == v9;
  }

  /** The index of a column and some of its other items: the vector has an entry for the
      column, what the items make of the one that was there or of an empty one, and all entries
      before it are untouched. */
  lemma PartOfColumn(names: Names, columns: seq<Column>, i: nat, part: nat, f: Filling)
    requires ColumnsFit(columns) && i < |columns| && 1 <= part <= ITEMS_PER_COLUMN
    requires i <= |f.cols| <= i + 1
    ensures var items := ColumnItems(columns, i)[..part];
            var g := ApplyAll(names, items, f);
            && ItemsFit(items) && items[0].Index? && Gapless(names, items, f)
            && g.index == i && |g.cols| == i + 1 && g.cols[..i] == f.cols[..i]
            && g.cols[i] == FoldVar(names, columns[i].Body()[..part - 1], 0,
                                    if i < |f.cols| then f.cols[i] else XSqlVar(0, 0, 0, 0, false, "", "", "", ""))
            && (part == ITEMS_PER_COLUMN ==> g.cols[i] == columns[i].Var(names))
  {
    hide ToI16, SetNum, SetName, FoldVar;
    var items := ColumnItems(columns, i)[..part];
    var body := columns[i].Body()[..part - 1];
    var f1 := f.Apply(names, Index(i + 1));
    assert items[1..] == body[0..];
    BodyFolds(names, body, 0, f1);
    if part == ITEMS_PER_COLUMN {
      assert body == columns[i].Body();
      BodyGivesVar(names, columns[i], f1.cols[i]);
    }
    assert f1.cols[..i] == f.cols[..i];
  }

  function Described(from: nat, cut: nat): nat {
    from + (cut + 10) / ITEMS_PER_COLUMN
  }

  /** The first `cut` items of a description that starts at column `from`: one entry for every
      column that was begun, and the right entry for every column that was completed. */
  lemma {:induction false} PartFills(names: Names, columns: seq<Column>, from: nat, cut: nat, f: Filling)
    requires ColumnsFit(columns) && from <= |columns|
    requires cut <= ITEMS_PER_COLUMN * (|columns| - from)
    requires from <= |f.cols| <= from + 1 && (cut == 0 ==> |f.cols| == from)
    ensures var items := ItemsFrom(columns, from)[..cut];
            var g := ApplyAll(names, items, f);
            && ItemsFit(items) && Anchored(items, f) && Gapless(names, items, f)
            && |g.cols| == Described(from, cut) && g.cols[..from] == f.cols[..from]
            && forall k :: from <= k < from + cut / ITEMS_PER_COLUMN ==> g.cols[k] == columns[k].Var(names)
    decreases |columns| - from
  {
    hide Filling.Apply, ColumnItems, Column.Var, ItemFits;
    var items := ItemsFrom(columns, from)[..cut];
    if cut == 0 {
      assert items == [];
    } else if cut <= ITEMS_PER_COLUMN {
      assert items == ColumnItems(columns, from)[..cut];
      PartOfColumn(names, columns, from, cut, f);
    } else {
      var first := ColumnItems(columns, from);
      assert first == first[..ITEMS_PER_COLUMN];
      PartOfColumn(names, columns, from, ITEMS_PER_COLUMN, f);
      var rest := ItemsFrom(columns, from + 1)[..cut - ITEMS_PER_COLUMN];
      assert items == first + rest;
      var f1 := ApplyAll(names, first, f);
      PartFills(names, columns, from + 1, cut - ITEMS_PER_COLUMN, f1);
      ApplyConcat(names, first, rest, f);
      var g := ApplyAll(names, items, f);
      assert g.cols[..from] == g.cols[..from + 1][..from] == f1.cols[..from + 1][..from];
      assert g.cols[from] == g.cols[..from + 1][from] == f1.cols[from];
    }
  }

  // ---------------------------------------------------------------- a whole reply

  function DescribeEnds(n: nat): seq<byte> {
    if n == 0 then [] else [SQL_DESCRIBE_END] + DescribeEnds(n - 1)
  }

  /** What precedes the columns: the statement type, the parameters with an end mark each, and
      the number of columns. */
  datatype Header = Header(stmt: u32, params: u32, ends: nat, colLen: u32) {
    predicate Accepted() {
      KnownStmtType(stmt) && colLen <= MAX_COLUMNS
    }

    /** What a reply with this header gives, once its columns are read. */
    function Around(columns: Parsed<(bool, seq<XSqlVar>)>): Parsed<(PrepareInfo, seq<XSqlVar>)> {
      match columns
      case Done(filled, rest) => Done((PrepareInfo(stmt % 256, params, filled.0), filled.1), rest)
      case Incomplete => Incomplete
      case Failed(e, rest) => Failed(e, rest)
    }

    function Bytes(): seq<byte> {
      [SQL_STMT_TYPE, 4, 0] + U32LeBytes(stmt) + [SQL_BIND, SQL_DESCRIBE_VARS, 4, 0] + U32LeBytes(params)
      + DescribeEnds(ends) + [SQL_SELECT, SQL_DESCRIBE_VARS, 4, 0] + U32LeBytes(colLen)
    }
  }

  lemma {:induction false} DescribeEndsSkipped(n: nat, more: seq<byte>)
    requires more != [] && more[0] != SQL_DESCRIBE_END
    ensures SkipDescribeEnds(DescribeEnds(n) + more) == more
  {
    if n == 0 {
      assert DescribeEnds(0) + more == more;
    } else {
      assert (DescribeEnds(n) + more)[1..] == DescribeEnds(n - 1) + more;
      DescribeEndsSkipped(n - 1, more);
    }
  }

  lemma StmtTypeRead(stmt: u32, more: seq<byte>)
    ensures ReadStmtType([SQL_STMT_TYPE, 4, 0] + (U32LeBytes(stmt) + more))
         == if KnownStmtType(stmt) then Done(stmt, more) else Failed(Other("unknown statement type"), more)
  {
    hide ReadU32Le, U32LeBytes;
    var s := [SQL_STMT_TYPE, 4, 0] + (U32LeBytes(stmt) + more);
    assert s[..3] == [SQL_STMT_TYPE, 4, 0] && s[3..] == U32LeBytes(stmt) + more && s[7..] == more;
    U32LeRoundTrip(stmt, more);
  }

  lemma SectionRead(section: byte, count: u32, more: seq<byte>)
    ensures ReadSection([section, SQL_DESCRIBE_VARS, 4, 0] + (U32LeBytes(count) + more), section) == Done(count, more)
  {
    hide ReadU32Le, U32LeBytes;
    var s := [section, SQL_DESCRIBE_VARS, 4, 0] + (U32LeBytes(count) + more);
    assert s[..2] == [section, SQL_DESCRIBE_VARS] && s[4..] == U32LeBytes(count) + more && s[8..] == more;
    U32LeRoundTrip(count, more);
  }

  /** The header is accepted exactly when the statement type is one of those from 1 to 14 and
      there are no more than 1024 columns; then the columns behind it are read, and the result has
      the statement type, the number of parameters, and what came of the columns. */
  lemma HeaderRead(names: Names, h: Header, data: seq<byte>, cols: seq<XSqlVar>)
    ensures h.Accepted() <==> 1 <= h.stmt % 256 <= 14 && h.colLen <= 1024
    ensures h.Accepted() ==> ReadXsqlda(names, h.Bytes() + data, cols) == h.Around(ReadSelectItems(names, data, cols))
    ensures h.Accepted() && ReadSelectItems(names, data, cols).Done? ==>
              var columns := ReadSelectItems(names, data, cols);
              var read := ReadXsqlda(names, h.Bytes() + data, cols);
              read.Done? && read.rest == columns.rest
              && read.value.0 == PrepareInfo(h.stmt % 256, h.params, columns.value.0)
              && read.value.1 == columns.value.1
    ensures !h.Accepted() ==> ReadXsqlda(names, h.Bytes() + data, cols).Failed?
  {
    hide U32LeBytes, ReadSelectItems, ReadStmtType, ReadSection;
    var columns := [SQL_SELECT, SQL_DESCRIBE_VARS, 4, 0] + (U32LeBytes(h.colLen) + data);
    var s2 := DescribeEnds(h.ends) + columns;
    var s1 := [SQL_BIND, SQL_DESCRIBE_VARS, 4, 0] + (U32LeBytes(h.params) + s2);
    assert h.Bytes() + data == [SQL_STMT_TYPE, 4, 0] + (U32LeBytes(h.stmt) + s1);
    StmtTypeRead(h.stmt, s1);
    SectionRead(SQL_BIND, h.params, s2);
    DescribeEndsSkipped(h.ends, columns);
    SectionRead(SQL_SELECT, h.colLen, data);
  }

  /** A reply that describes the columns from number `from` on and stops after `cut` items. */
  function ReplyBytes(h: Header, columns: seq<Column>, from: nat, cut: nat, truncated: bool): seq<byte>
    requires ColumnsFit(columns) && from <= |columns|
    requires cut <= ITEMS_PER_COLUMN * (|columns| - from)
    requires ItemsFit(ItemsFrom(columns, from)[..cut])
  {
    h.Bytes() + (ItemsBytes(ItemsFrom(columns, from)[..cut]) + [if truncated then INFO_TRUNCATED else INFO_END])
  }

  /** What one reply adds to a vector that holds the columns before `from`, and possibly a
      part of column `from`. */
  lemma ReplyRead(names: Names, h: Header, columns: seq<Column>, from: nat, cut: nat, truncated: bool,
                  cols: seq<XSqlVar>) returns (filled: seq<XSqlVar>)
    requires h.Accepted() && ColumnsFit(columns) && from <= |columns|
    requires cut <= ITEMS_PER_COLUMN * (|columns| - from)
    requires from <= |cols| <= from + 1 && (cut == 0 ==> |cols| == from)
    ensures ItemsFit(ItemsFrom(columns, from)[..cut])
    ensures ReadXsqlda(names, ReplyBytes(h, columns, from, cut, truncated), cols)
         == Done((PrepareInfo(h.stmt % 256, h.params, truncated), filled), [])
    ensures |filled| == Described(from, cut) && filled[..from] == cols[..from]
    ensures forall k :: from <= k < from + cut / ITEMS_PER_COLUMN ==> filled[k] == columns[k].Var(names)
  {
    hide ReadItems, ItemsFrom, ApplyAll, ItemsBytes, Header.Bytes, ReadXsqlda, Column.Var, ItemFits, Gapless;
    var items := ItemsFrom(columns, from)[..cut];
    var f := Filling(cols, 0);
    PartFills(names, columns, from, cut, f);
    filled := ApplyAll(names, items, f).cols;
    var mark := [if truncated then INFO_TRUNCATED else INFO_END];
    ItemsRoundTrip(names, items, f, truncated, []);
    assert ItemsBytes(items) + mark + [] == ItemsBytes(items) + mark;
    HeaderRead(names, h, ItemsBytes(items) + mark, cols);
  }

  // ---------------------------------------------------------------- the imperative parser

  lemma ItemsStep(names: Names, s: seq<byte>, f: Filling, item: Item, rest: seq<byte>)
    requires ReadItem(s, f.Known()) == Done(item, rest) && item != Truncated && item != EndOfData
    ensures ReadItems(names, s, f) == ReadItems(names, rest, f.Apply(names, item))
  {
  }

  lemma ItemsStop(names: Names, s: seq<byte>, f: Filling)
    ensures var p := ReadItem(s, f.Known());
            && (p.Incomplete? ==> ReadItems(names, s, f).Incomplete?)
            && (p.Failed? ==> ReadItems(names, s, f) == Failed(p.error, p.rest))
            && (p.Done? && p.value.Truncated? ==> ReadItems(names, s, f) == Done((true, f.cols), p.rest))
            && (p.Done? && p.value.EndOfData? ==> ReadItems(names, s, f) == Done((false, f.cols), p.rest))
  {
  }

  /** The arm of `parse_select_items` for a number. */
  method ParseNum(resp: Cursor, code: byte, known: bool) returns (r: Result<i32, FbError>)
    requires IsNumTag(code)
    modifies resp
    ensures match ReadItem([code] + old(resp.data), known)
            case Done(item, rest) => item.Num? && item.tag == code && r == Ok(item.n) && resp.data == rest
            case Incomplete => r == Err(MissingBytes)
            case Failed(e, rest) => r == Err(e) && resp.data == rest
  {
    U8RoundTrip(code, resp.data);
    var _ :- resp.Advance(2);
    if !known {
      return Err(InvalidXsqlda);
    }
    r := resp.GetI32Le();
  }

  /** The arm for a name. */
  method ParseName(resp: Cursor, code: byte, known: bool) returns (r: Result<seq<byte>, FbError>)
    requires IsNameTag(code)
    modifies resp
    ensures match ReadItem([code] + old(resp.data), known)
            case Done(item, rest) => item.Name? && item.tag == code && r == Ok(item.bytes) && resp.data == rest
            case Incomplete => r == Err(MissingBytes)
            case Failed(e, rest) => r == Err(e) && resp.data == rest
  {
    U8RoundTrip(code, resp.data);
    var len :- resp.GetU16Le();
    var buff :- resp.CopyToSlice(len);
    if !known {
      return Err(InvalidXsqlda);
    }
    return Ok(buff);
  }

  /** `parse_select_items`; the vector is passed in and handed back. */
  method ParseSelectItems(names: Names, resp: Cursor, xsqlda: seq<XSqlVar>)
    returns (r: Result<(bool, seq<XSqlVar>), FbError>)
    modifies resp
    ensures Agrees(ReadSelectItems(names, old(resp.data), xsqlda), r, resp.data)
  {
    hide ReadItems, ReadU32Le, ReadI32Le, ReadU16Le, SetNum, SetName, ToI16;
    var left := resp.Remaining();
    if left == 0 {
      return Ok((false, xsqlda));
    }
    var cols := xsqlda;
    var colIndex: nat := 0;
    while true
      invariant ReadItems(names, resp.data, Filling(cols, colIndex)) == ReadSelectItems(names, old(resp.data), xsqlda)
      decreases |resp.data|
    {
      ghost var before, f := resp.data, Filling(cols, colIndex);
      ItemsStop(names, before, f);
      var code :- resp.GetU8();
      assert before == [code] + resp.data;
      if code == SQL_SQLDA_SEQ {
        var _ :- resp.Advance(2);
        var col :- resp.GetU32Le();
        if col == 0 {
          return Err(InvalidXsqlda);
        }
        colIndex := col - 1;
        if colIndex >= |cols| {
          cols := cols + [BLANK];
        }
        ItemsStep(names, before, f, Index(col), resp.data);
        assert Filling(cols, colIndex) == f.Apply(names, Index(col));
      } else if SQL_TYPE <= code <= SQL_NULL_IND {
        var n :- ParseNum(resp, code, colIndex < |cols|);
        ItemsStep(names, before, f, Num(code, n), resp.data);
        cols := cols[colIndex := SetNum(cols[colIndex], code, n)];
        assert Filling(cols, colIndex) == f.Apply(names, Num(code, n));
      } else if SQL_FIELD <= code <= SQL_ALIAS {
        var buff :- ParseName(resp, code, colIndex < |cols|);
        ItemsStep(names, before, f, Name(code, buff), resp.data);
        cols := cols[colIndex := SetName(cols[colIndex], code, names(buff))];
        assert Filling(cols, colIndex) == f.Apply(names, Name(code, buff));
      } else if code == SQL_DESCRIBE_END {
        ItemsStep(names, before, f, EndOfColumn, resp.data);
      } else if code == INFO_TRUNCATED {
        return Ok((true, cols));
      } else if code == INFO_END {
        return Ok((false, cols));
      } else {
        return Err(Other("Invalid item received in the xsqlda"));
      }
    }
  }

  method ParseStmtType(resp: Cursor) returns (r: Result<u32, FbError>)
    modifies resp
    ensures Agrees(ReadStmtType(old(resp.data)), r, resp.data)
  {
    hide LittleEndianValue;
    if |resp.data| < 7 || resp.data[..3] != [SQL_STMT_TYPE, 4, 0] {
      return Err(InvalidXsqlda);
    }
    var _ := resp.Advance(3);
    r := resp.GetU32Le();
    assert old(resp.data)[3..][4..] == old(resp.data)[7..];
    if !KnownStmtType(r.value) {
      return Err(Other("unknown statement type"));
    }
  }

  method ParseSection(resp: Cursor, section: byte) returns (r: Result<u32, FbError>)
    modifies resp
    ensures Agrees(ReadSection(old(resp.data), section), r, resp.data)
  {
    hide LittleEndianValue;
    if |resp.data| < 8 || resp.data[..2] != [section, SQL_DESCRIBE_VARS] {
      return Err(InvalidXsqlda);
    }
    var _ := resp.Advance(2);
    var _ := resp.Advance(2);
    assert old(resp.data)[2..][2..] == old(resp.data)[4..];
    r := resp.GetU32Le();
    assert old(resp.data)[4..][4..] == old(resp.data)[8..];
  }

  /** `parse_xsqlda`. */
  method ParseXsqlda(names: Names, resp: Cursor, xsqlda: seq<XSqlVar>)
    returns (r: Result<(PrepareInfo, seq<XSqlVar>), FbError>)
    modifies resp
    ensures Agrees(ReadXsqlda(names, old(resp.data), xsqlda), r, resp.data)
  {
    hide ReadSelectItems, ReadStmtType, ReadSection;
    var stmt :- ParseStmtType(resp);
    var paramCount :- ParseSection(resp, SQL_BIND);
    ghost var params := resp.data;
    while |resp.data| > 0 && resp.data[0] == SQL_DESCRIBE_END
      invariant SkipDescribeEnds(resp.data) == SkipDescribeEnds(params)
      decreases |resp.data|
    {
      var _ := resp.Advance(1);
    }
    var colLen :- ParseSection(resp, SQL_SELECT);
    if colLen > MAX_COLUMNS {
      return Err(InvalidXsqlda);
    }
    var filled :- ParseSelectItems(names, resp, xsqlda);
    return Ok((PrepareInfo(stmt % 256, paramCount, filled.0), filled.1));
  }
}
