/** The generic server response and its status vector (rsfbclient-rust/src/wire.rs). */
module Wire {
  import opened Wrappers
  import opened Util

  const OP_RESPONSE: u32 := 9
  const OP_EVENT: u32 := 52

  const ARG_END: u32 := 0
  const ARG_GDS: u32 := 1
  const ARG_STRING: u32 := 2
  const ARG_NUMBER: u32 := 4
  const ARG_INTERPRETED: u32 := 5
  const ARG_SQL_STATE: u32 := 19

  /** The gds code whose numeric argument is the sql code of the error. */
  const GDS_SQLERR: u32 := 335544436

  /** The tables the client looks texts up in: the message of each gds code, the decoder
      of status texts, and the charset of the connection. */
  datatype Texts = Texts(gds: u32 -> string,
                         utf8: seq<byte> -> string,
                         decode: seq<byte> -> Option<string>)

  // ---------------------------------------------------------------- message texts

  function Digits(n: nat): string {
    if n < 10 then ["0123456789"[n]] else Digits(n / 10) + ["0123456789"[n % 10]]
  }

  function Decimal(n: int): string {
    if n < 0 then "-" + Digits(-n) else Digits(n)
  }

  /** Replaces every occurrence of `pattern`, from the left and without overlaps. */
  function ReplaceAll(text: string, pattern: string, with: string): string
    requires pattern != ""
  {
    if text == "" then ""
    else if pattern <= text then with + ReplaceAll(text[|pattern|..], pattern, with)
    else [text[0]] + ReplaceAll(text[1..], pattern, with)
  }

  /** The number some digits stand for. */
  function ValueOf(s: string): int {
    if s == "" then 0 else 10 * ValueOf(s[..|s| - 1]) + (s[|s| - 1] as int - '0' as int)
  }

  /** Numbers are written with their decimal digits, the first of them not a zero, behind a sign
      if they are negative. */
  lemma DecimalMeans(n: int)
    ensures n >= 0 ==> IsNumeral(Decimal(n), n)
    ensures n < 0 ==> Decimal(n) != "" && Decimal(n)[0] == '-' && IsNumeral(Decimal(n)[1..], -n)
  {
    DigitsMean(if n < 0 then -n else n);
  }

  predicate IsNumeral(s: string, n: nat) {
    s != "" && (forall i :: 0 <= i < |s| ==> '0' <= s[i] <= '9') && (s[0] == '0' ==> |s| == 1) && ValueOf(s) == n
  }

  lemma {:induction false} DigitsMean(n: nat)
    ensures IsNumeral(Digits(n), n) && (n > 0 ==> Digits(n)[0] != '0')
  {
    var last := ["0123456789"[n % 10]];
    assert last[0] as int == '0' as int + n % 10;
    assert last[..0] == "";
    if n >= 10 {
      DigitsMean(n / 10);
      var s := Digits(n);
      assert s[..|s| - 1] == Digits(n / 10) && s[|s| - 1] == last[0];
    } else {
      assert Digits(n) == last;
      assert ValueOf(last) == 10 * ValueOf("") + n;
    }
  }

  /** Where the pattern does not occur, nothing changes; and where it occurs first, it is replaced
      and the replacing goes on behind it. */
  lemma {:induction false} ReplaceMeans(text: string, pattern: string, with: string, k: nat)
    requires pattern != "" && k <= |text| && forall j :: 0 <= j < k ==> !(pattern <= text[j..])
    ensures pattern <= text[k..] ==>
              ReplaceAll(text, pattern, with) == text[..k] + (with + ReplaceAll(text[k + |pattern|..], pattern, with))
    ensures k == |text| ==> ReplaceAll(text, pattern, with) == text
    decreases k
  {
    hide ReplaceAll;
    if k == 0 {
      ReplaceStep(text, pattern, with);
      assert text[0..] == text && text[..0] == "";
    } else {
      NoMatchBefore(text, pattern, k);
      ReplaceMeans(text[1..], pattern, with, k - 1);
      if pattern <= text[k..] {
        DropFirst(text, k - 1 + |pattern|);
        ReplaceLater(text, pattern, with, k, with + ReplaceAll(text[k + |pattern|..], pattern, with));
      } else if k == |text| {
        assert text[1..][..k - 1] + "" == text[1..] && text[..k] + "" == text;
        ReplaceLater(text, pattern, with, k, "");
      }
    }
  }

  lemma NoMatchBefore(text: string, pattern: string, k: nat)
    requires 0 < k <= |text| && forall j :: 0 <= j < k ==> !(pattern <= text[j..])
    ensures !(pattern <= text) && forall j :: 0 <= j < k - 1 ==> !(pattern <= text[1..][j..])
    ensures text[1..][k - 1..] == text[k..]
  {
    assert text[0..] == text;
    forall j | 0 <= j < k ensures text[1..][j..] == text[j + 1..] {
      DropFirst(text, j);
    }
  }

  /** What comes behind the first character stays behind it. */
  lemma ReplaceLater(text: string, pattern: string, with: string, k: nat, more: string)
    requires pattern != "" && 0 < k <= |text| && !(pattern <= text)
    requires ReplaceAll(text[1..], pattern, with) == text[1..][..k - 1] + more
    ensures ReplaceAll(text, pattern, with) == text[..k] + more
  {
    hide ReplaceAll;
    ReplaceStep(text, pattern, with);
    FirstBack(text, k, more);
  }

  lemma ReplaceStep(text: string, pattern: string, with: string)
    requires pattern != ""
    ensures ReplaceAll(text, pattern, with)
         == if text == "" then ""
            else if pattern <= text then with + ReplaceAll(text[|pattern|..], pattern, with)
            else [text[0]] + ReplaceAll(text[1..], pattern, with)
  {
  }

  lemma DropFirst(text: string, j: nat)
    requires j < |text|
    ensures text[1..][j..] == text[j + 1..]
  {
  }

  lemma FirstBack(text: string, k: nat, more: string)
    requires 0 < k <= |text|
    ensures [text[0]] + (text[1..][..k - 1] + more) == text[..k] + more
    ensures [text[0]] + text[1..] == text
  {
  }

  function Placeholder(arg: nat): (pattern: string)
    ensures pattern != ""
  {
    "@" + Digits(arg)
  }

  /** The locals of `parse_status_vector`: the sql code, the message so far, the last gds
      code and the number of arguments already substituted. */
  datatype Status = Status(sqlCode: int, message: string, gdsCode: u32, numArg: nat) {

    function Substitute(text: string): Status {
      this.(numArg := numArg + 1, message := ReplaceAll(message, Placeholder(numArg + 1), text))
    }

    /** The verdict at the end of the vector: a trailing newline is dropped, and whatever
        message is left is an error. */
    function Verdict(): Option<FbError> {
      var text := if message != "" && message[|message| - 1] == '\n' then message[..|message| - 1] else message;
      if text == "" then None else Some(Sql(sqlCode, text))
    }
  }

  const CLEAN := Status(-1, "", 0, 0)

  // ---------------------------------------------------------------- status vectors

  /** One item of a status vector. */
  datatype StatusItem =
    | Gds(code: u32)
    | Number(num: i32)
    | Text(bytes: seq<byte>)
    | Interpreted(bytes: seq<byte>)
    | SqlState(bytes: seq<byte>)
  {
    predicate Fits() {
      (Text? || Interpreted? || SqlState?) ==> FitsWire(bytes)
    }

    function Bytes(): seq<byte>
      requires Fits()
    {
      match this
      case Gds(code) => U32Bytes(ARG_GDS) + U32Bytes(code)
      case Number(num) => U32Bytes(ARG_NUMBER) + U32Bytes(OfI32(num))
      case Text(b) => U32Bytes(ARG_STRING) + WireBytes(b)
      case Interpreted(b) => U32Bytes(ARG_INTERPRETED) + WireBytes(b)
      case SqlState(b) => U32Bytes(ARG_SQL_STATE) + WireBytes(b)
    }

    /** What the item adds to the error being reported. */
    function Apply(texts: Texts, st: Status): Status {
      match this
      case Gds(code) =>
        if code != 0 then st.(gdsCode := code, message := st.message + texts.gds(code), numArg := 0)
        else st.(gdsCode := code)
      case Number(num) =>
        (if st.gdsCode == GDS_SQLERR then st.(sqlCode := num) else st).Substitute(Decimal(num))
      case Text(b) => st.Substitute(texts.utf8(b))
      case Interpreted(b) => st.(message := st.message + texts.utf8(b))
      case SqlState(_) => st
    }
  }

  predicate ItemsFit(items: seq<StatusItem>) {
    forall i :: 0 <= i < |items| ==> items[i].Fits()
  }

  function StatusBytes(items: seq<StatusItem>): seq<byte>
    requires ItemsFit(items)
  {
    if items == [] then U32Bytes(ARG_END) else items[0].Bytes() + StatusBytes(items[1..])
  }

  function ApplyAll(texts: Texts, items: seq<StatusItem>, st: Status): Status {
    if items == [] then st else ApplyAll(texts, items[1..], items[0].Apply(texts, st))
  }

  /** One turn of the loop of `parse_status_vector`: an item, or the end mark. */
  function ReadItem(s: seq<byte>): (p: Parsed<Option<StatusItem>>)
    ensures p.Done? ==> |p.rest| < |s|
    ensures p.Done? && p.value.Some? ==> p.value.value.Fits()
    ensures p.Failed? ==> p.error.UnknownStatusItem?
  {
    var (item, s1) :- ReadU32(s);
    if item == ARG_GDS then
      var (code, s2) :- ReadU32(s1);
      Done(Some(Gds(code)), s2)
    else if item == ARG_NUMBER then
      var (num, s2) :- ReadI32(s1);
      Done(Some(Number(num)), s2)
    else if item == ARG_STRING then
      var (b, s2) :- ReadWireBytes(s1);
      Done(Some(Text(b)), s2)
    else if item == ARG_INTERPRETED then
      var (b, s2) :- ReadWireBytes(s1);
      Done(Some(Interpreted(b)), s2)
    else if item == ARG_SQL_STATE then
      var (b, s2) :- ReadWireBytes(s1);
      Done(Some(SqlState(b)), s2)
    else if item == ARG_END then
      Done(None, s1)
    else
      Failed(UnknownStatusItem(item), s1)
  }

  function ReadStatus(texts: Texts, s: seq<byte>, st: Status): (p: Parsed<()>)
    ensures p.Done? ==> |p.rest| < |s|
    ensures p.Failed? ==> !IsIncomplete(p.error)
    decreases |s|
  {
    var (item, s1) :- ReadItem(s);
    match item
    case Some(i) => ReadStatus(texts, s1, i.Apply(texts, st))
    case None =>
      match st.Verdict()
      case Some(e) => Failed(e, s1)
      case None => Done((), s1)
  }

  lemma ItemStable(s: seq<byte>, more: seq<byte>)
    requires !ReadItem(s).Incomplete?
    ensures ReadItem(s + more) == ReadItem(s).Append(more)
  {
    U32Stable(s, more);
    var item := ReadU32(s).value;
    var s1 := ReadU32(s).rest;
    if item == ARG_GDS || item == ARG_NUMBER {
      U32Stable(s1, more);
    } else if item == ARG_STRING || item == ARG_INTERPRETED || item == ARG_SQL_STATE {
      WireBytesStable(s1, more);
    }
  }

  /** More bytes never change what a status vector that was already read to its end says. */
  lemma {:induction false} StatusStable(texts: Texts, s: seq<byte>, st: Status, more: seq<byte>)
    requires !ReadStatus(texts, s, st).Incomplete?
    ensures ReadStatus(texts, s + more, st) == ReadStatus(texts, s, st).Append(more)
    decreases |s|
  {
    ItemStable(s, more);
    var p := ReadItem(s);
    if p.Done? && p.value.Some? {
      StatusStable(texts, p.rest, p.value.value.Apply(texts, st), more);
    }
  }

  lemma ItemRoundTrip(item: StatusItem, more: seq<byte>)
    requires item.Fits()
    ensures ReadItem(item.Bytes() + more) == Done(Some(item), more)
  {
    hide U32Bytes, ReadU32, WireBytes, ReadWireBytes;
    match item
    case Gds(code) =>
      assert item.Bytes() + more == U32Bytes(ARG_GDS) + (U32Bytes(code) + more);
      U32RoundTrip(ARG_GDS, U32Bytes(code) + more);
      U32RoundTrip(code, more);
    case Number(num) =>
      assert item.Bytes() + more == U32Bytes(ARG_NUMBER) + (U32Bytes(OfI32(num)) + more);
      U32RoundTrip(ARG_NUMBER, U32Bytes(OfI32(num)) + more);
      I32RoundTrip(num, more);
    case Text(b) => TaggedRoundTrip(ARG_STRING, b, more);
    case Interpreted(b) => TaggedRoundTrip(ARG_INTERPRETED, b, more);
    case SqlState(b) => TaggedRoundTrip(ARG_SQL_STATE, b, more);
  }

  lemma TaggedRoundTrip(tag: u32, b: seq<byte>, more: seq<byte>)
    requires FitsWire(b)
    ensures ReadU32(U32Bytes(tag) + WireBytes(b) + more) == Done(tag, WireBytes(b) + more)
    ensures ReadWireBytes(WireBytes(b) + more) == Done(b, more)
  {
    hide U32Bytes, ReadU32, WireBytes, ReadWireBytes;
    assert U32Bytes(tag) + WireBytes(b) + more == U32Bytes(tag) + (WireBytes(b) + more);
    U32RoundTrip(tag, WireBytes(b) + more);
    WireBytesRoundTrip(b, more);
  }

  /** Reading an encoded status vector stops exactly behind it and reports what its items,
      folded from left to right, add up to. */
  lemma {:induction false} StatusRoundTrip(texts: Texts, items: seq<StatusItem>, st: Status, more: seq<byte>)
    requires ItemsFit(items)
    ensures ReadStatus(texts, StatusBytes(items) + more, st)
         == match ApplyAll(texts, items, st).Verdict()
            case Some(e) => Failed(e, more)
            case None => Done((), more)
    decreases |items|
  {
    hide U32Bytes, ReadU32, WireBytes, ReadWireBytes, StatusItem.Bytes, StatusItem.Apply, Status.Verdict;
    if items == [] {
      U32RoundTrip(ARG_END, more);
    } else {
      assert StatusBytes(items) + more == items[0].Bytes() + (StatusBytes(items[1..]) + more);
      ItemRoundTrip(items[0], StatusBytes(items[1..]) + more);
      StatusRoundTrip(texts, items[1..], items[0].Apply(texts, st), more);
    }
  }

  // ---------------------------------------------------------------- what an error says

  lemma {:induction false} ApplyConcat(texts: Texts, a: seq<StatusItem>, b: seq<StatusItem>, st: Status)
    ensures ApplyAll(texts, a + b, st) == ApplyAll(texts, b, ApplyAll(texts, a, st))
    decreases |a|
  {
    hide StatusItem.Apply;
    if a == [] {
      assert a + b == b;
    } else {
      assert (a + b)[1..] == a[1..] + b;
      ApplyConcat(texts, a[1..], b, a[0].Apply(texts, st));
    }
  }

  lemma ApplyLast(texts: Texts, items: seq<StatusItem>, st: Status)
    requires items != []
    ensures ApplyAll(texts, items, st)
         == items[|items| - 1].Apply(texts, ApplyAll(texts, items[..|items| - 1], st))
  {
    hide StatusItem.Apply;
    var front, last := items[..|items| - 1], [items[|items| - 1]];
    assert items == front + last && last[1..] == [];
    ApplyConcat(texts, front, last, st);
  }

  /** The code that came last, or zero. */
  function CurrentCode(items: seq<StatusItem>): u32 {
    if items == [] then 0
    else if items[|items| - 1].Gds? then items[|items| - 1].code
    else CurrentCode(items[..|items| - 1])
  }

  /** Item `k` is a number behind the code that announces the sql code. */
  predicate IsSqlCode(items: seq<StatusItem>, k: nat)
    requires k < |items|
  {
    items[k].Number? && CurrentCode(items[..k]) == GDS_SQLERR
  }

  /** The sql code of an error is the last number behind the code that announces it, or -1. */
  lemma {:induction false} SqlCodeIs(texts: Texts, items: seq<StatusItem>)
    ensures ApplyAll(texts, items, CLEAN).gdsCode == CurrentCode(items)
    ensures (forall k :: 0 <= k < |items| ==> !IsSqlCode(items, k)) ==> ApplyAll(texts, items, CLEAN).sqlCode == -1
    ensures forall k :: 0 <= k < |items| && IsSqlCode(items, k) && (forall j :: k < j < |items| ==> !IsSqlCode(items, j))
              ==> ApplyAll(texts, items, CLEAN).sqlCode == items[k].num
    decreases |items|
  {
    hide ReplaceAll, Placeholder, Decimal, CurrentCode;
    NoCode();
    if items != [] {
      var n := |items| - 1;
      var front := items[..n];
      ApplyLast(texts, items, CLEAN);
      SqlCodeIs(texts, front);
      CurrentCodeStep(items);
      forall k | 0 <= k < n ensures IsSqlCode(front, k) <==> IsSqlCode(items, k) {
        assert front[..k] == items[..k];
      }
      LastNumber(texts, items, n);
    }
  }

  /** The last item changes the sql code exactly when it is one. */
  lemma LastNumber(texts: Texts, items: seq<StatusItem>, n: nat)
    requires items != [] && n == |items| - 1
    requires ApplyAll(texts, items[..n], CLEAN).gdsCode == CurrentCode(items[..n])
    ensures ApplyAll(texts, items, CLEAN).sqlCode
         == if IsSqlCode(items, n) then items[n].num else ApplyAll(texts, items[..n], CLEAN).sqlCode
  {
    hide ReplaceAll, Placeholder, Decimal, CurrentCode;
    ApplyLast(texts, items, CLEAN);
  }

  lemma NoCode()
    ensures CurrentCode([]) == 0
  {
  }

  lemma CurrentCodeStep(items: seq<StatusItem>)
    requires items != []
    ensures CurrentCode(items)
         == if items[|items| - 1].Gds? then items[|items| - 1].code else CurrentCode(items[..|items| - 1])
  {
  }

  predicate AreArguments(items: seq<StatusItem>) {
    forall i :: 0 <= i < |items| ==> items[i].Number? || items[i].Text?
  }

  lemma {:induction false} ArgumentsApplied(texts: Texts, args: seq<StatusItem>, st: Status)
    requires AreArguments(args)
    ensures ApplyAll(texts, args, st).message == Residue(st.message, Arguments(texts, args), st.numArg + 1)
    decreases |args|
  {
    hide ReplaceAll, Placeholder, Decimal;
    if args != [] {
      ArgumentsApplied(texts, args[1..], args[0].Apply(texts, st));
      assert Arguments(texts, args)[1..] == Arguments(texts, args[1..]);
    }
  }

  /** The text of a code goes behind the message so far, and then the arguments behind the code
      take the places of `@1`, `@2` and so on, in the whole message. An interpreted text goes
      behind it as it is; a zero code and an sql state leave it alone. */
  lemma MessageIs(texts: Texts, items: seq<StatusItem>, code: u32, args: seq<StatusItem>, bytes: seq<byte>)
    requires code != 0 && AreArguments(args)
    ensures var before := ApplyAll(texts, items, CLEAN).message;
            && ApplyAll(texts, items + [Gds(code)] + args, CLEAN).message
               == Residue(before + texts.gds(code), Arguments(texts, args), 1)
            && ApplyAll(texts, items + [Interpreted(bytes)], CLEAN).message == before + texts.utf8(bytes)
            && ApplyAll(texts, items + [Gds(0)], CLEAN).message == before
            && ApplyAll(texts, items + [SqlState(bytes)], CLEAN) == ApplyAll(texts, items, CLEAN)
  {
    hide ApplyAll, Residue, Arguments, ReplaceAll, Placeholder, Decimal;
    var st := ApplyAll(texts, items, CLEAN);
    OneApplied(texts, items, Gds(code));
    ApplyConcat(texts, items + [Gds(code)], args, CLEAN);
    ArgumentsApplied(texts, args, ApplyAll(texts, items + [Gds(code)], CLEAN));
    OneApplied(texts, items, Interpreted(bytes));
    OneApplied(texts, items, Gds(0));
    OneApplied(texts, items, SqlState(bytes));
  }

  lemma OneApplied(texts: Texts, items: seq<StatusItem>, item: StatusItem)
    ensures ApplyAll(texts, items + [item], CLEAN) == item.Apply(texts, ApplyAll(texts, items, CLEAN))
  {
    hide StatusItem.Apply;
    ApplyLast(texts, items + [item], CLEAN);
    assert (items + [item])[..|items|] == items;
  }

  /** A reply is an error unless its message is empty or one newline; the error has the sql code
      and the message, without one newline at its end. */
  lemma VerdictMeans(st: Status)
    ensures st.Verdict().None? <==> st.message == "" || st.message == "\n"
    ensures st.Verdict().Some? ==>
              st.Verdict().value.Sql? && st.Verdict().value.code == st.sqlCode
              && var text := st.Verdict().value.msg;
                 if st.message[|st.message| - 1] == '\n' then st.message == text + "\n" else st.message == text
  {
    if st.message != "" && st.message[|st.message| - 1] == '\n' {
      assert st.message == st.message[..|st.message| - 1] + "\n";
    }
  }

  /** An item of a kind the client does not know ends the reading with an error. */
  lemma UnknownItemIsRefused(texts: Texts, item: u32, st: Status, more: seq<byte>)
    requires item !in {ARG_END, ARG_GDS, ARG_STRING, ARG_NUMBER, ARG_INTERPRETED, ARG_SQL_STATE}
    ensures ReadStatus(texts, U32Bytes(item) + more, st) == Failed(UnknownStatusItem(item), more)
  {
    hide U32Bytes, ReadU32;
    U32RoundTrip(item, more);
  }

  // ---------------------------------------------------------------- errors that get lost

  /** A character that substitution never removes, and that is not the newline that is dropped
      at the end. */
  predicate IsSolid(c: char) {
    c != '@' && c != '\n' && !('0' <= c <= '9')
  }

  predicate HasSolid(s: string) {
    exists i :: 0 <= i < |s| && IsSolid(s[i])
  }

  /** The text an item adds to the message by itself. */
  function Contribution(texts: Texts, item: StatusItem): string {
    match item
    case Gds(code) => if code != 0 then texts.gds(code) else ""
    case Interpreted(b) => texts.utf8(b)
    case _ => ""
  }

  lemma {:induction false} DigitsOnly(n: nat)
    ensures Digits(n) != "" && forall i :: 0 <= i < |Digits(n)| ==> '0' <= Digits(n)[i] <= '9'
  {
    if n >= 10 {
      DigitsOnly(n / 10);
    }
  }

  lemma {:induction false} ReplaceKeepsSolid(text: string, arg: nat, with: string)
    requires HasSolid(text)
    ensures HasSolid(ReplaceAll(text, Placeholder(arg), with))
    decreases |text|
  {
    hide Digits;
    DigitsOnly(arg);
    var pattern := Placeholder(arg);
    var i :| 0 <= i < |text| && IsSolid(text[i]);
    if pattern <= text {
      assert text == pattern + text[|pattern|..];
      var rest := text[|pattern|..];
      assert IsSolid(rest[i - |pattern|]);
      ReplaceKeepsSolid(rest, arg, with);
      SolidBehind(with, ReplaceAll(rest, pattern, with));
    } else if i == 0 {
      assert IsSolid(([text[0]] + ReplaceAll(text[1..], pattern, with))[0]);
    } else {
      assert IsSolid(text[1..][i - 1]);
      ReplaceKeepsSolid(text[1..], arg, with);
      SolidBehind([text[0]], ReplaceAll(text[1..], pattern, with));
    }
  }

  lemma SolidBehind(a: string, b: string)
    ensures HasSolid(b) ==> HasSolid(a + b)
    ensures HasSolid(a) ==> HasSolid(a + b)
  {
    if HasSolid(b) {
      var i :| 0 <= i < |b| && IsSolid(b[i]);
      assert (a + b)[|a| + i] == b[i];
    }
    if HasSolid(a) {
      var i :| 0 <= i < |a| && IsSolid(a[i]);
      assert (a + b)[i] == a[i];
    }
  }

  lemma {:induction false} SolidMessageIsReported(texts: Texts, items: seq<StatusItem>, st: Status)
    requires HasSolid(st.message)
    ensures ApplyAll(texts, items, st).Verdict().Some?
    decreases |items|
  {
    hide ReplaceAll, Placeholder, Digits;
    if items == [] {
      var i :| 0 <= i < |st.message| && IsSolid(st.message[i]);
      assert st.message[|st.message| - 1] == '\n' ==> i < |st.message| - 1;
    } else {
      SolidBehind(st.message, Contribution(texts, items[0]));
      if items[0].Number? {
        ReplaceKeepsSolid(st.message, st.numArg + 1, Decimal(items[0].num));
      } else if items[0].Text? {
        ReplaceKeepsSolid(st.message, st.numArg + 1, texts.utf8(items[0].bytes));
      }
      SolidMessageIsReported(texts, items[1..], items[0].Apply(texts, st));
    }
  }

  /** Whatever the arguments are and wherever it stands: a code or an interpreted text with any
      character besides the at sign, digits and newlines makes the vector an error. */
  lemma {:induction false} SolidTextIsReported(texts: Texts, items: seq<StatusItem>, k: nat, st: Status)
    requires k < |items| && HasSolid(Contribution(texts, items[k]))
    ensures ApplyAll(texts, items, st).Verdict().Some?
    decreases k
  {
    hide ReplaceAll, Placeholder, Digits;
    if k == 0 {
      SolidBehind(st.message, Contribution(texts, items[0]));
      SolidMessageIsReported(texts, items[1..], items[0].Apply(texts, st));
    } else {
      SolidTextIsReported(texts, items[1..], k - 1, items[0].Apply(texts, st));
    }
  }

  function Newlines(s: string): nat {
    if s == "" then 0 else (if s[0] == '\n' then 1 else 0) + Newlines(s[1..])
  }

  lemma {:induction false} NewlinesConcat(a: string, b: string)
    ensures Newlines(a + b) == Newlines(a) + Newlines(b)
  {
    if a == "" {
      assert a + b == b;
    } else {
      assert (a + b)[1..] == a[1..] + b;
      NewlinesConcat(a[1..], b);
    }
  }

  lemma {:induction false} NoNewlines(s: string)
    requires forall i :: 0 <= i < |s| ==> s[i] != '\n'
    ensures Newlines(s) == 0
  {
    if s != "" {
      NoNewlines(s[1..]);
    }
  }

  /** Substitution never removes a newline. */
  lemma {:induction false} ReplaceKeepsNewlines(text: string, arg: nat, with: string)
    ensures Newlines(ReplaceAll(text, Placeholder(arg), with)) >= Newlines(text)
    decreases |text|
  {
    hide Digits;
    DigitsOnly(arg);
    var pattern := Placeholder(arg);
    if text != "" {
      if pattern <= text {
        NoNewlines(pattern);
        NewlinesConcat(pattern, text[|pattern|..]);
        assert text == pattern + text[|pattern|..];
        ReplaceKeepsNewlines(text[|pattern|..], arg, with);
        NewlinesConcat(with, ReplaceAll(text[|pattern|..], pattern, with));
      } else {
        ReplaceKeepsNewlines(text[1..], arg, with);
        NewlinesConcat([text[0]], ReplaceAll(text[1..], pattern, with));
        assert [text[0]][1..] == "";
      }
    }
  }

  lemma {:induction false} NewlinesBound(s: string)
    ensures Newlines(s) <= |s|
  {
    if s != "" {
      NewlinesBound(s[1..]);
    }
  }

  /** Only one newline is dropped, so a message with two is an error. */
  lemma {:induction false} TwoNewlinesAreReported(texts: Texts, items: seq<StatusItem>, st: Status)
    requires Newlines(st.message) >= 2
    ensures ApplyAll(texts, items, st).Verdict().Some?
    decreases |items|
  {
    hide ReplaceAll, Placeholder, Digits;
    if items == [] {
      NewlinesBound(st.message);
    } else {
      NewlinesConcat(st.message, Contribution(texts, items[0]));
      if items[0].Number? {
        ReplaceKeepsNewlines(st.message, st.numArg + 1, Decimal(items[0].num));
      } else if items[0].Text? {
        ReplaceKeepsNewlines(st.message, st.numArg + 1, texts.utf8(items[0].bytes));
      }
      TwoNewlinesAreReported(texts, items[1..], items[0].Apply(texts, st));
    }
  }

  /** The codes a vector reports, and the arguments behind the first of them. */
  function Codes(items: seq<StatusItem>): seq<u32> {
    if items == [] then []
    else (if items[0].Gds? && items[0].code != 0 then [items[0].code] else []) + Codes(items[1..])
  }

  function Arguments(texts: Texts, items: seq<StatusItem>): seq<string> {
    if items == [] then []
    else
      (match Argument(texts, items[0])
       case Some(argument) => [argument]
       case None => []) + Arguments(texts, items[1..])
  }

  function Argument(texts: Texts, item: StatusItem): Option<string> {
    match item
    case Number(num) => Some(Decimal(num))
    case Text(b) => Some(texts.utf8(b))
    case _ => None
  }

  function CodeArguments(texts: Texts, items: seq<StatusItem>): seq<string> {
    if items == [] then []
    else if items[0].Gds? && items[0].code != 0 then Arguments(texts, items[1..])
    else CodeArguments(texts, items[1..])
  }

  /** What becomes of a text when the arguments from number `k` on are substituted. */
  function Residue(text: string, arguments: seq<string>, k: nat): string
    decreases |arguments|
  {
    if arguments == [] then text
    else Residue(ReplaceAll(text, Placeholder(k), arguments[0]), arguments[1..], k + 1)
  }

  /** The texts of the client's table: a bare newline, a bare first argument, or words. Texts
      the server interprets itself are empty or words. */
  ghost predicate FromTable(texts: Texts, items: seq<StatusItem>) {
    forall i :: 0 <= i < |items| ==>
      var text := Contribution(texts, items[i]);
      HasSolid(text) || (if items[i].Gds? && items[i].code != 0 then text == "\n" || text == "@1\n" else text == "")
  }

  predicate IsWordless(texts: Texts, item: StatusItem) {
    match item
    case Gds(code) => code == 0 || texts.gds(code) == "\n" || texts.gds(code) == "@1\n"
    case Interpreted(b) => texts.utf8(b) == ""
    case _ => true
  }

  predicate Wordless(texts: Texts, items: seq<StatusItem>) {
    forall i :: 0 <= i < |items| ==> IsWordless(texts, items[i])
  }

  /** A match of a placeholder never reaches over the newline at the end. */
  lemma {:induction false} ReplaceBeforeNewline(text: string, arg: nat, with: string)
    ensures ReplaceAll(text + "\n", Placeholder(arg), with) == ReplaceAll(text, Placeholder(arg), with) + "\n"
    decreases |text|
  {
    hide Digits;
    DigitsOnly(arg);
    var pattern, line := Placeholder(arg), text + "\n";
    assert pattern <= line <==> pattern <= text by {
      if pattern <= line {
        assert pattern[|pattern| - 1] != '\n' && line[|pattern| - 1] == pattern[|pattern| - 1];
        assert line[..|pattern|] == text[..|pattern|];
      }
    }
    if text == "" {
      assert line[1..] == "" && ReplaceAll("", pattern, with) == "";
    } else if pattern <= text {
      assert line[|pattern|..] == text[|pattern|..] + "\n";
      ReplaceBeforeNewline(text[|pattern|..], arg, with);
    } else {
      assert line[1..] == text[1..] + "\n";
      ReplaceBeforeNewline(text[1..], arg, with);
    }
  }

  /** After the only code of a vector, whose text is `text` and a newline. */
  lemma {:induction false} LastCode(texts: Texts, items: seq<StatusItem>, st: Status, text: string)
    requires Wordless(texts, items) && st.message == text + "\n"
    ensures ApplyAll(texts, items, st).Verdict().None? <==>
              Codes(items) == [] && Residue(text, Arguments(texts, items), st.numArg + 1) == ""
    decreases |items|
  {
    hide ReplaceAll, Placeholder, Newlines, StatusItem.Apply, Argument, IsWordless;
    if items == [] {
      assert st.message[..|st.message| - 1] == text;
    } else {
      var st' := items[0].Apply(texts, st);
      ItemApplied(texts, items[0], st, text);
      if items[0].Gds? && items[0].code != 0 {
        TwoNewlinesAreReported(texts, items[1..], st');
      } else {
        match Argument(texts, items[0])
        case Some(argument) =>
          LastCode(texts, items[1..], st', ReplaceAll(text, Placeholder(st.numArg + 1), argument));
        case None =>
          assert Arguments(texts, items) == Arguments(texts, items[1..]);
          LastCode(texts, items[1..], st', text);
      }
    }
  }

  lemma ItemApplied(texts: Texts, item: StatusItem, st: Status, text: string)
    requires IsWordless(texts, item) && st.message == text + "\n"
    ensures var st' := item.Apply(texts, st);
            if item.Gds? && item.code != 0 then Newlines(st'.message) >= 2
            else match Argument(texts, item)
                 case Some(argument) =>
                   st'.message == ReplaceAll(text, Placeholder(st.numArg + 1), argument) + "\n"
                   && st'.numArg == st.numArg + 1
                 case None => st'.message == st.message && st'.numArg == st.numArg
  {
    hide ReplaceAll, Placeholder, Newlines;
    if item.Gds? && item.code != 0 {
      SecondCode(texts, item.code, text);
    } else if Argument(texts, item).Some? {
      ReplaceBeforeNewline(text, st.numArg + 1, Argument(texts, item).value);
    }
  }

  lemma SecondCode(texts: Texts, code: u32, text: string)
    requires texts.gds(code) == "\n" || texts.gds(code) == "@1\n"
    ensures Newlines(text + "\n" + texts.gds(code)) >= 2
  {
    OneNewline();
    NewlinesConcat(text, "\n");
    NewlinesConcat(text + "\n", texts.gds(code));
  }

  lemma OneNewline()
    ensures Newlines("\n") == 1 && Newlines("@1\n") == 1
  {
    assert "\n"[1..] == "" && "@1\n"[1..] == "1\n" && "1\n"[1..] == "\n";
  }

  /** Before the first code nothing but a code can begin a message. */
  lemma {:induction false} FirstCode(texts: Texts, items: seq<StatusItem>, st: Status)
    requires Wordless(texts, items) && st.message == ""
    ensures ApplyAll(texts, items, st).Verdict().None? <==> IsHidden(texts, items)
    decreases |items|
  {
    hide Placeholder, Digits, Decimal;
    if items != [] {
      var st' := items[0].Apply(texts, st);
      if items[0].Gds? && items[0].code != 0 {
        var text := texts.gds(items[0].code);
        assert st'.message == text by { assert "" + text == text; }
        if text == "\n" {
          assert text == "" + "\n";
          LastCode(texts, items[1..], st', "");
          EmptyResidue(Arguments(texts, items[1..]), 1);
        } else {
          assert text == "@1" + "\n";
          LastCode(texts, items[1..], st', "@1");
        }
      } else {
        assert st'.message == "";
        FirstCode(texts, items[1..], st');
      }
    }
  }

  lemma {:induction false} EmptyResidue(arguments: seq<string>, k: nat)
    ensures Residue("", arguments, k) == ""
    decreases |arguments|
  {
    if arguments != [] {
      EmptyResidue(arguments[1..], k + 1);
    }
  }

  /** The vector reports no code at all, or just one, whose text is a bare newline or a first
      argument that comes out empty. */
  predicate IsHidden(texts: Texts, items: seq<StatusItem>) {
    var codes := Codes(items);
    codes == []
    || (|codes| == 1
        && (texts.gds(codes[0]) == "\n"
            || (texts.gds(codes[0]) == "@1\n" && Residue("@1", CodeArguments(texts, items), 1) == "")))
  }

  /** Exactly which vectors are taken for a success, over all vectors with texts like those of
      the table: those without any words that report no code, or only one, whose text is a
      bare newline, or its first argument, and that argument comes out empty. */
  lemma ErrorIsHiddenIff(texts: Texts, items: seq<StatusItem>)
    requires FromTable(texts, items)
    ensures ApplyAll(texts, items, CLEAN).Verdict().None? <==>
              (forall i :: 0 <= i < |items| ==> !HasSolid(Contribution(texts, items[i]))) && IsHidden(texts, items)
  {
    hide ReplaceAll, HasSolid, IsHidden;
    if forall i :: 0 <= i < |items| ==> !HasSolid(Contribution(texts, items[i])) {
      assert Wordless(texts, items);
      FirstCode(texts, items, CLEAN);
    } else {
      var k :| 0 <= k < |items| && HasSolid(Contribution(texts, items[k]));
      SolidTextIsReported(texts, items, k, CLEAN);
    }
  }

  /** A code without arguments, whatever the table says: it is lost if and only if its text is
      empty or a bare newline. */
  lemma LoneCodeIsHiddenIff(texts: Texts, code: u32)
    requires code != 0
    ensures ApplyAll(texts, [Gds(code)], CLEAN).Verdict().None? <==> texts.gds(code) == "" || texts.gds(code) == "\n"
  {
    var text := texts.gds(code);
    assert [Gds(code)][1..] == [] && "" + text == text;
    if text != "" && text[|text| - 1] == '\n' {
      assert text[..|text| - 1] == "" <==> text == "\n";
    }
  }

  /** A code that reports nothing but its one argument is lost if and only if the argument is
      empty. Of the newlines at the end only one is dropped, so a newline as argument is
      reported. */
  lemma EmptyArgumentHidesErrorIff(texts: Texts, code: u32, argument: seq<byte>)
    requires code != 0 && texts.gds(code) == "@1\n"
    ensures ApplyAll(texts, [Gds(code), Text(argument)], CLEAN).Verdict()
         == if texts.utf8(argument) == "" then None else Some(Sql(-1, texts.utf8(argument)))
  {
    hide ReplaceAll, Placeholder, Digits;
    var t := texts.utf8(argument);
    var st := Gds(code).Apply(texts, CLEAN);
    assert st.message == "@1\n" by { assert "" + texts.gds(code) == texts.gds(code); }
    ReplaceFirstPlaceholder(t);
    var st' := Text(argument).Apply(texts, st);
    assert [Gds(code), Text(argument)][1..] == [Text(argument)] && [Text(argument)][1..] == [];
    assert ApplyAll(texts, [Text(argument)], st) == ApplyAll(texts, [], st') == st';
    assert st'.message[..|st'.message| - 1] == t;
  }

  lemma ReplaceFirstPlaceholder(t: string)
    ensures Placeholder(1) == "@1"
    ensures ReplaceAll("@1\n", "@1", t) == t + "\n"
  {
    assert "@1" <= "@1\n" && "@1\n"[2..] == "\n" && "\n"[1..] == "";
    assert ReplaceAll("\n", "@1", t) == "\n";
  }

  /** A vector whose gds codes and interpreted texts add no message text is a success. */
  lemma {:induction false} QuietVectorSucceeds(texts: Texts, items: seq<StatusItem>, st: Status)
    requires st.message == ""
    requires forall i :: 0 <= i < |items| ==>
               (items[i].Gds? ==> items[i].code == 0 || texts.gds(items[i].code) == "") &&
               (items[i].Interpreted? ==> texts.utf8(items[i].bytes) == "")
    ensures ApplyAll(texts, items, st).Verdict() == None
    decreases |items|
  {
    if items != [] {
      assert items[0].Apply(texts, st).message == "";
      QuietVectorSucceeds(texts, items[1..], items[0].Apply(texts, st));
    }
  }

  /** How a vector that does not go on with another item ends. */
  lemma StatusFollowsItem(texts: Texts, s: seq<byte>, st: Status)
    ensures ReadItem(s).Incomplete? ==> ReadStatus(texts, s, st).Incomplete?
    ensures ReadItem(s).Failed? ==> ReadStatus(texts, s, st) == Failed(ReadItem(s).error, ReadItem(s).rest)
    ensures ReadItem(s).Done? && ReadItem(s).value.None? ==>
              ReadStatus(texts, s, st) == match st.Verdict()
                                          case Some(e) => Failed(e, ReadItem(s).rest)
                                          case None => Done((), ReadItem(s).rest)
  {
  }

  lemma StatusStep(texts: Texts, s: seq<byte>, st: Status, item: StatusItem, rest: seq<byte>)
    requires ReadItem(s) == Done(Some(item), rest)
    ensures ReadStatus(texts, s, st) == ReadStatus(texts, rest, item.Apply(texts, st))
  {
  }

  /** `parse_status_vector`. */
  method ParseStatusVector(texts: Texts, resp: Cursor) returns (r: Result<(), FbError>)
    modifies resp
    ensures Agrees(ReadStatus(texts, old(resp.data), CLEAN), r, resp.data)
  {
    hide ReadStatus, ReadU32, ReadI32, ReadWireBytes, ReplaceAll, Placeholder, Decimal;
    var sqlCode := -1;
    var message := "";
    var gdsCode := 0;
    var numArg := 0;

    while true
      invariant ReadStatus(texts, resp.data, Status(sqlCode, message, gdsCode, numArg))
             == ReadStatus(texts, old(resp.data), CLEAN)
      decreases |resp.data|
    {
      ghost var before, st := resp.data, Status(sqlCode, message, gdsCode, numArg);
      StatusFollowsItem(texts, before, st);
      var item :- resp.GetU32();
      if item == ARG_GDS {
        gdsCode :- resp.GetU32();
        if gdsCode != 0 {
          message := message + texts.gds(gdsCode);
          numArg := 0;
        }
        StatusStep(texts, before, st, Gds(gdsCode), resp.data);
      } else if item == ARG_NUMBER {
        var num :- resp.GetI32();
        if gdsCode == GDS_SQLERR {
          sqlCode := num;
        }
        numArg := numArg + 1;
        message := ReplaceAll(message, Placeholder(numArg), Decimal(num));
        StatusStep(texts, before, st, Number(num), resp.data);
      } else if item == ARG_STRING {
        var msg :- resp.GetWireBytes();
        numArg := numArg + 1;
        message := ReplaceAll(message, Placeholder(numArg), texts.utf8(msg));
        StatusStep(texts, before, st, Text(msg), resp.data);
      } else if item == ARG_INTERPRETED {
        var msg :- resp.GetWireBytes();
        message := message + texts.utf8(msg);
        StatusStep(texts, before, st, Interpreted(msg), resp.data);
      } else if item == ARG_SQL_STATE {
        var msg :- resp.GetWireBytes();
        StatusStep(texts, before, st, SqlState(msg), resp.data);
      } else if item == ARG_END {
        break;
      } else {
        return Err(UnknownStatusItem(item));
      }
    }

    if message != "" && message[|message| - 1] == '\n' {
      message := message[..|message| - 1];
    }
    if message != "" {
      return Err(Sql(sqlCode, message));
    }
    return Ok(());
  }

  // ---------------------------------------------------------------- responses

  datatype Response = Response(handle: u32, objectId: u64, data: seq<byte>)

  /** What the server puts behind the op code of a generic response. */
  datatype Reply = Reply(body: Response, status: seq<StatusItem>) {
    predicate Fits() {
      FitsWire(body.data) && ItemsFit(status)
    }

    function Bytes(): seq<byte>
      requires Fits()
    {
      U32Bytes(body.handle) + U64Bytes(body.objectId) + WireBytes(body.data) + StatusBytes(status)
    }

    /** The error the reply reports, if it reports one. */
    function Error(texts: Texts): Option<FbError> {
      ApplyAll(texts, status, CLEAN).Verdict()
    }

    predicate Succeeds(texts: Texts) {
      Error(texts).None?
    }

    /** What a request that gets this reply returns. */
    function Outcome(texts: Texts): Result<Response, FbError> {
      match Error(texts)
      case Some(e) => Err(e)
      case None => Ok(body)
    }
  }

  function ReadResponse(texts: Texts, s: seq<byte>): (p: Parsed<Response>)
    ensures p.Done? ==> |p.rest| < |s|
    ensures p.Failed? ==> !IsIncomplete(p.error)
  {
    var (handle, s1) :- ReadU32(s);
    var (objectId, s2) :- ReadU64(s1);
    var (data, s3) :- ReadWireBytes(s2);
    var (_, s4) :- ReadStatus(texts, s3, CLEAN);
    Done(Response(handle, objectId, data), s4)
  }

  lemma ResponseStable(texts: Texts, s: seq<byte>, more: seq<byte>)
    requires !ReadResponse(texts, s).Incomplete?
    ensures ReadResponse(texts, s + more) == ReadResponse(texts, s).Append(more)
  {
    U32Stable(s, more);
    var s1 := ReadU32(s).rest;
    U64Stable(s1, more);
    var s2 := ReadU64(s1).rest;
    WireBytesStable(s2, more);
    StatusStable(texts, ReadWireBytes(s2).rest, CLEAN, more);
  }

  /** A reply is read back exactly, whether it reports a success or an error: either way all
      its bytes are consumed and nothing behind them is. */
  lemma ResponseRoundTrip(texts: Texts, reply: Reply, more: seq<byte>)
    requires reply.Fits()
    ensures ReadResponse(texts, reply.Bytes() + more)
         == match reply.Error(texts)
            case Some(e) => Failed(e, more)
            case None => Done(reply.body, more)
  {
    hide ReadU32, ReadU64, ReadWireBytes, ReadStatus, U32Bytes, U64Bytes, WireBytes, StatusBytes, ApplyAll,
         Status.Verdict;
    var s3 := StatusBytes(reply.status) + more;
    var s2 := WireBytes(reply.body.data) + s3;
    var s1 := U64Bytes(reply.body.objectId) + s2;
    assert reply.Bytes() + more == U32Bytes(reply.body.handle) + s1;
    U32RoundTrip(reply.body.handle, s1);
    U64RoundTrip(reply.body.objectId, s2);
    WireBytesRoundTrip(reply.body.data, s3);
    StatusRoundTrip(texts, reply.status, CLEAN, more);
  }

  /** `parse_response`. */
  method ParseResponse(texts: Texts, resp: Cursor) returns (r: Result<Response, FbError>)
    modifies resp
    ensures Agrees(ReadResponse(texts, old(resp.data)), r, resp.data)
  {
    var handle :- resp.GetU32();
    var objectId :- resp.GetU64();
    var data :- resp.GetWireBytes();
    var _ :- ParseStatusVector(texts, resp);
    return Ok(Response(handle, objectId, data));
  }
}
