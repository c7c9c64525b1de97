/** Firebird's day numbers and times (rsfbclient-core/src/date_time.rs) against the proleptic
    Gregorian calendar. */
module DateTime {
  import opened Wrappers

  /** Division as the client's language does it on signed integers: toward zero. */
  function TruncDiv(a: int, b: int): int
    requires b > 0
  {
    if a >= 0 then a / b else -(-a / b)
  }

  datatype Date = Date(year: int, month: int, day: int)

  // ---------------------------------------------------------------- the calendar

  predicate IsLeap(year: int) {
    year % 4 == 0 && (year % 100 != 0 || year % 400 == 0)
  }

  function DaysInMonth(year: int, month: int): int {
    if month == 2 then if IsLeap(year) then 29 else 28
    else if month == 4 || month == 6 || month == 9 || month == 11 then 30
    else 31
  }

  predicate IsDate(d: Date) {
    1 <= d.month <= 12 && 1 <= d.day <= DaysInMonth(d.year, d.month)
  }

  function NextDay(d: Date): Date {
    if d.day < DaysInMonth(d.year, d.month) then d.(day := d.day + 1)
    else if d.month < 12 then Date(d.year, d.month + 1, 1)
    else Date(d.year + 1, 1, 1)
  }

  predicate Before(a: Date, b: Date) {
    a.year < b.year || (a.year == b.year && (a.month < b.month || (a.month == b.month && a.day < b.day)))
  }

  /** The first day both routines agree on, and its day number. */
  const ORIGIN := Date(0, 3, 1)
  const ORIGIN_NUMBER := -678881

  /** 1721119 - 2400001, negated. */
  const OFFSET := 678882

  predicate FromOrigin(d: Date) {
    IsDate(d) && !Before(d, ORIGIN)
  }

  /** The years of the client's date type, and its last day. */
  const MIN_YEAR := -262144
  const MAX_YEAR := 262143
  const LAST := Date(MAX_YEAR, 12, 31)
  const LAST_NUMBER := 95067188

  predicate IsNaiveDate(d: Date) {
    IsDate(d) && MIN_YEAR <= d.year <= MAX_YEAR
  }

  // ---------------------------------------------------------------- the routines

  /** `encode_date`. */
  function EncodeDate(date: Date): int {
    var month := if date.month > 2 then date.month - 3 else date.month + 9;
    var year := if date.month > 2 then date.year else date.year - 1;
    var c := TruncDiv(year, 100);
    var ya := year - 100 * c;
    TruncDiv(146097 * c, 4) + TruncDiv(1461 * ya, 4) + TruncDiv(153 * month + 2, 5) + date.day + 1721119 - 2400001
  }

  predicate InI32(n: int) {
    -0x8000_0000 <= n < 0x8000_0000
  }

  /** The numbers for which `4 * nday` stays within 32 bits in `decode_date`. */
  predicate FitsI32(date: int) {
    InI32(4 * (date + OFFSET)) && InI32(4 * (date + OFFSET) - 1)
  }

  /** The century and the rest of the quarter days, the year of the century and the day of the
      year, and the month and its day, as `decode_date` takes them out one after the other. */
  function CenturyOf(nday: int): int {
    TruncDiv(4 * nday - 1, 146097)
  }

  function DayOfCentury(nday: int): int {
    TruncDiv(4 * nday - 1 - 146097 * CenturyOf(nday), 4)
  }

  function YearOfCentury(day: int): int {
    TruncDiv(4 * day + 3, 1461)
  }

  function DayOfYear(day: int): int {
    TruncDiv(4 * day + 3 - 1461 * YearOfCentury(day) + 4, 4)
  }

  function MonthOf(day: int): int {
    TruncDiv(5 * day - 3, 153)
  }

  function DayOfMonth(day: int): int {
    TruncDiv(5 * day - 3 - 153 * MonthOf(day) + 5, 5)
  }

  /** The last step: months counted from March become calendar months. */
  function ToDate(year: int, month: int, day: int): Date {
    if month < 10 then Date(year, month + 3, day) else Date(year + 1, month - 9, day)
  }

  /** `decode_date` on unbounded integers, before the result is checked to be a date. */
  function DecodeDate(date: int): Date {
    var nday := date + (2400001 - 1721119);
    var day := DayOfCentury(nday);
    ToDate(100 * CenturyOf(nday) + YearOfCentury(day), MonthOf(DayOfYear(day)), DayOfMonth(DayOfYear(day)))
  }

  datatype Panic = Overflow | NotADate

  /** A 32-bit computation: a result that does not fit stops a debug build and wraps around in a
      release build. */
  function I32(n: int, release: bool): (r: Result<int, Panic>)
    ensures InI32(n) ==> r == Ok(n)
    ensures r.Ok? ==> InI32(r.value) && (r.value - n) % 0x1_0000_0000 == 0
    ensures r.Err? <==> !InI32(n) && !release
  {
    if InI32(n) then Ok(n)
    else if release then Ok((n + 0x8000_0000) % 0x1_0000_0000 - 0x8000_0000)
    else Err(Overflow)
  }

  /** `decode_date` as the client runs it: on 32-bit integers, and into its date type. */
  function DecodeDateI32(date: int, release: bool): (r: Result<Date, Panic>)
    ensures r.Ok? ==> IsNaiveDate(r.value)
  {
    var nday :- I32(date + (2400001 - 1721119), release);
    var quarters :- I32(4 * nday, release);
    var quarters :- I32(quarters - 1, release);
    var century := TruncDiv(quarters, 146097);
    var before :- I32(146097 * century, release);
    var rest :- I32(quarters - before, release);
    var day := TruncDiv(rest, 4);
    var quarters :- I32(4 * day + 3, release);
    var year := TruncDiv(quarters, 1461);
    var before :- I32(1461 * year, release);
    var rest :- I32(quarters - before + 4, release);
    var day := TruncDiv(rest, 4);
    var fifths :- I32(5 * day - 3, release);
    var month := TruncDiv(fifths, 153);
    var before :- I32(153 * month, release);
    var rest :- I32(fifths - before + 5, release);
    var year :- I32(100 * century + year, release);
    var d := ToDate(year, month, TruncDiv(rest, 5));
    if IsNaiveDate(d) then Ok(d) else Err(NotADate)
  }

  // ---------------------------------------------------------------- years counted from March

  /** Days before 1 March of year `y`, counted from 0000-03-01. */
  function YearStart(y: nat): nat {
    146097 * (y / 100) / 4 + 1461 * (y % 100) / 4
  }

  /** Days before month `m`, counted from 1 March. */
  function MonthStart(m: nat): nat {
    (153 * m + 2) / 5
  }

  /** A date in the year that begins in March: year, month 0 to 11, day. */
  predicate IsMarchDate(y: int, m: int, d: int) {
    y >= 0 && 0 <= m <= 11 && IsDate(ToDate(y, m, d))
  }

  lemma EncodeFromOrigin(y: int, m: int, d: int)
    requires IsMarchDate(y, m, d)
    ensures EncodeDate(ToDate(y, m, d)) == YearStart(y) + MonthStart(m) + d - OFFSET
  {
    hide IsLeap, DaysInMonth;
    var date := ToDate(y, m, d);
    assert (if date.month > 2 then date.year else date.year - 1) == y;
    assert y - 100 * (y / 100) == y % 100;
  }

  lemma MarchDateOf(date: Date) returns (y: int, m: int, d: int)
    requires FromOrigin(date)
    ensures IsMarchDate(y, m, d) && date == ToDate(y, m, d)
  {
    d := date.day;
    if date.month > 2 {
      y, m := date.year, date.month - 3;
    } else {
      y, m := date.year - 1, date.month + 9;
    }
  }

  /** The month lengths are those of the formula. */
  lemma MonthLengths(y: int, m: int, d: int)
    requires IsMarchDate(y, m, d)
    ensures m < 11 ==> DaysInMonth(ToDate(y, m, d).year, ToDate(y, m, d).month) == MonthStart(m + 1) - MonthStart(m)
    ensures m == 11 ==> DaysInMonth(ToDate(y, m, d).year, ToDate(y, m, d).month) == if IsLeap(y + 1) then 29 else 28
  {
  }

  /** A year from March on is a day longer exactly when the February at its end is. */
  lemma YearLengths(y: nat)
    ensures YearStart(y + 1) == YearStart(y) + if IsLeap(y + 1) then 366 else 365
  {
    hide YearStart, IsLeap;
    var c, ya := y / 100, y % 100;
    YearStartIs(c, ya);
    if ya == 99 {
      YearStartIs(c + 1, 0);
      LeapCentury(c + 1);
      CenturyLengths(c);
    } else {
      YearStartIs(c, ya + 1);
      LeapInCentury(c, ya + 1);
      FourYearLengths(ya);
    }
  }

  lemma YearStartIs(c: nat, ya: nat)
    requires ya < 100
    ensures YearStart(100 * c + ya) == 146097 * c / 4 + 1461 * ya / 4
  {
    assert (100 * c + ya) / 100 == c && (100 * c + ya) % 100 == ya;
  }

  lemma LeapCentury(c: nat)
    ensures IsLeap(100 * c) <==> c % 4 == 0
  {
  }

  lemma LeapInCentury(c: nat, ya: nat)
    requires 0 < ya < 100
    ensures IsLeap(100 * c + ya) <==> ya % 4 == 0
  {
    CenturyRemainders(c, ya);
    if ya % 4 == 0 {
      assert (100 * c + ya) % 4 == 0;
    }
  }

  lemma CenturyRemainders(c: nat, ya: nat)
    requires ya < 100
    ensures (100 * c + ya) % 100 == ya && (100 * c + ya) % 4 == ya % 4
  {
    CenturyYear(c, ya);
    Quarter(25 * c, ya);
  }

  lemma CenturyYear(c: nat, ya: nat)
    requires ya < 100
    ensures (100 * c + ya) % 100 == ya
  {
  }

  lemma Quarter(k: nat, ya: nat)
    ensures (4 * k + ya) % 4 == ya % 4
  {
  }

  lemma CenturyLengths(c: nat)
    ensures 146097 * (c + 1) / 4 == 146097 * c / 4 + 1461 * 99 / 4 + if (c + 1) % 4 == 0 then 366 else 365
  {
  }

  lemma FourYearLengths(ya: nat)
    ensures 1461 * (ya + 1) / 4 == 1461 * ya / 4 + if (ya + 1) % 4 == 0 then 366 else 365
  {
  }

  // ---------------------------------------------------------------- counting day by day

  /** The closed form counts days: the day after has the next number. */
  lemma EncodeCountsDays(date: Date)
    requires FromOrigin(date)
    ensures FromOrigin(NextDay(date)) && Before(date, NextDay(date))
    ensures EncodeDate(NextDay(date)) == EncodeDate(date) + 1
  {
    hide EncodeDate, YearStart, MonthStart, IsLeap;
    var y, m, d := MarchDateOf(date);
    EncodeFromOrigin(y, m, d);
    MonthLengths(y, m, d);
    var next := NextDay(date);
    var y', m', d' := MarchDateOf(next);
    EncodeFromOrigin(y', m', d');
    if d == DaysInMonth(date.year, date.month) {
      if m == 11 {
        YearLengths(y);
        FirstAndLastMonth();
        assert (y', m', d') == (y + 1, 0, 1);
      } else {
        assert (y', m', d') == (y, m + 1, 1);
      }
    }
  }

  lemma FirstAndLastMonth()
    ensures MonthStart(0) == 0 && MonthStart(11) == 337
  {
  }

  /** The calendar, counted day by day. */
  function DayNumber(k: nat): Date {
    if k == 0 then ORIGIN else NextDay(DayNumber(k - 1))
  }

  lemma {:induction false} EncodeRefinesCounting(k: nat)
    ensures FromOrigin(DayNumber(k)) && EncodeDate(DayNumber(k)) == ORIGIN_NUMBER + k
  {
    hide NextDay;
    if k != 0 {
      EncodeRefinesCounting(k - 1);
      EncodeCountsDays(DayNumber(k - 1));
    }
  }

  // ---------------------------------------------------------------- decode undoes encode

  lemma CenturyStage(c: nat, r: int)
    requires 1 <= r <= if c % 4 == 3 then 36525 else 36524
    ensures CenturyOf(146097 * c / 4 + r) == c && DayOfCentury(146097 * c / 4 + r) == r - 1
  {
  }

  lemma YearStage(ya: nat, s: int)
    requires 1 <= s <= if ya % 4 == 3 then 366 else 365
    ensures YearOfCentury(1461 * ya / 4 + s - 1) == ya && DayOfYear(1461 * ya / 4 + s - 1) == s
  {
    var t := 4 * s - 1 - ya % 4;
    assert 4 * (1461 * ya / 4) == 1461 * ya - ya % 4;
    assert 4 * (1461 * ya / 4 + s - 1) + 3 == 1461 * ya + t;
    YearRemainder(ya, t);
  }

  lemma YearRemainder(ya: nat, t: int)
    requires 0 <= t < 1461
    ensures TruncDiv(1461 * ya + t, 1461) == ya
  {
  }

  lemma MonthStage(m: nat, d: int)
    requires m <= 11 && 1 <= d <= if m == 11 then 29 else MonthStart(m + 1) - MonthStart(m)
    ensures MonthOf(MonthStart(m) + d) == m && DayOfMonth(MonthStart(m) + d) == d
  {
  }

  /** On unbounded integers every date from 0000-03-01 on survives. */
  lemma DecodeInvertsEncode(date: Date)
    requires FromOrigin(date)
    ensures DecodeDate(EncodeDate(date)) == date
  {
    hide EncodeDate, CenturyOf, DayOfCentury, YearOfCentury, DayOfYear, MonthOf, DayOfMonth;
    var y, m, d := MarchDateOf(date);
    EncodeFromOrigin(y, m, d);
    MonthLengths(y, m, d);
    var c, ya := y / 100, y % 100;
    var s := MonthStart(m) + d;
    MonthStage(m, d);
    DayOfYearBound(y, m, d);
    YearStage(ya, s);
    var r := 1461 * ya / 4 + s;
    CenturyBound(ya, s, c);
    CenturyStage(c, r);
  }

  /** Firebird's base date. */
  lemma BaseDate()
    ensures EncodeDate(Date(1858, 11, 17)) == 0 && DecodeDate(0) == Date(1858, 11, 17)
  {
    hide DecodeDate;
    assert EncodeDate(Date(1858, 11, 17)) == 0;
    DecodeInvertsEncode(Date(1858, 11, 17));
  }

  lemma DayOfYearBound(y: int, m: int, d: int)
    requires IsMarchDate(y, m, d)
    ensures 1 <= MonthStart(m) + d <= if IsLeap(y + 1) then 366 else 365
    ensures IsLeap(y + 1) ==> y % 100 % 4 == 3 && (y % 100 == 99 ==> y / 100 % 4 == 3)
  {
    hide IsLeap, YearStart;
    MonthLengths(y, m, d);
    var c, ya := y / 100, y % 100;
    if ya == 99 {
      LeapCentury(c + 1);
      assert y + 1 == 100 * (c + 1);
    } else {
      LeapInCentury(c, ya + 1);
      assert y + 1 == 100 * c + (ya + 1);
    }
  }

  lemma CenturyBound(ya: nat, s: int, c: nat)
    requires ya <= 99 && 1 <= s <= 366
    requires s == 366 ==> ya % 4 == 3 && (ya == 99 ==> c % 4 == 3)
    ensures 1 <= 1461 * ya / 4 + s <= if c % 4 == 3 then 36525 else 36524
  {
  }

  // ---------------------------------------------------------------- encode undoes decode

  /** On unbounded integers decoding is counting day by day from the origin on; the result is
      always a date and encoding it gives the number back. */
  lemma DecodeIsCounting(n: int)
    requires n >= ORIGIN_NUMBER
    ensures FromOrigin(DecodeDate(n)) && DecodeDate(n) == DayNumber(n - ORIGIN_NUMBER)
    ensures EncodeDate(DecodeDate(n)) == n
  {
    hide EncodeDate, DecodeDate, DayNumber;
    EncodeRefinesCounting(n - ORIGIN_NUMBER);
    DecodeInvertsEncode(DayNumber(n - ORIGIN_NUMBER));
  }

  lemma NegativeCentury(nday: int)
    requires nday <= 0
    ensures CenturyOf(nday) <= 0 && -36524 <= DayOfCentury(nday) <= 0
    ensures -3 <= 4 * nday - 1 - 146097 * CenturyOf(nday) - 4 * DayOfCentury(nday) <= 0
  {
  }

  lemma NegativeYear(day: int)
    requires -36524 <= day <= 0
    ensures -99 <= YearOfCentury(day) <= 0
    ensures DayOfYear(day) <= 1
    ensures DayOfYear(day) == 1 ==> 0 <= 4 * day + 3 - 1461 * YearOfCentury(day) <= 3
    ensures DayOfYear(day) == -30 ==> 4 * day + 3 - 1461 * YearOfCentury(day) + 4 <= -120
  {
  }

  /** Which days of the year leave a month and a day of the month that can be valid. */
  lemma NegativeMonth(s: int)
    requires s <= 1
    ensures s == 1 ==> MonthOf(s) == 0 && DayOfMonth(s) == 1
    ensures s == -30 ==> MonthOf(s) == -1 && DayOfMonth(s) == 1
    ensures s != 1 && s != -30 ==> DayOfMonth(s) < 1 || MonthOf(s) + 3 < 1
    ensures MonthOf(s) <= 0
  {
  }

  lemma EncodedMarch(c: int, q: int)
    requires c <= 0 && -99 <= q <= 0
    ensures 4 * EncodeDate(Date(100 * c + q, 3, 1)) >= 146097 * c + 1461 * q + 4 - 4 * OFFSET
  {
    assert TruncDiv(100 * c + q, 100) == c;
  }

  lemma EncodedFebruary(c: int, q: int)
    requires c <= 0 && -99 <= q <= 0
    ensures 4 * EncodeDate(Date(100 * c + q, 2, 1)) >= 146097 * c + 1461 * (q - 1) + 1352 - 4 * OFFSET
  {
    assert TruncDiv(100 * c + q - 1, 100) == if q == -99 then c - 1 else c;
  }

  /** Before the origin the truncating divisions leave nothing but a 1 March or a 1 February
      that could be a date, and neither encodes to the number it came from. */
  lemma DecodeFailsBeforeOrigin(n: int)
    requires n < ORIGIN_NUMBER
    ensures !IsDate(DecodeDate(n)) || EncodeDate(DecodeDate(n)) != n
  {
    hide EncodeDate, CenturyOf, DayOfCentury, YearOfCentury, DayOfYear, MonthOf, DayOfMonth;
    var nday := n + OFFSET;
    var c := CenturyOf(nday);
    var day := DayOfCentury(nday);
    NegativeCentury(nday);
    var q := YearOfCentury(day);
    var s := DayOfYear(day);
    NegativeYear(day);
    NegativeMonth(s);
    if s == 1 {
      assert DecodeDate(n) == Date(100 * c + q, 3, 1);
      EncodedMarch(c, q);
    } else if s == -30 {
      assert DecodeDate(n) == Date(100 * c + q, 2, 1);
      EncodedFebruary(c, q);
    }
  }

  lemma DecodedOrigin()
    ensures DecodeDate(ORIGIN_NUMBER) == ORIGIN && DecodeDate(ORIGIN_NUMBER - 1) == ORIGIN
  {
    hide CenturyOf, DayOfCentury, YearOfCentury, DayOfYear, MonthOf, DayOfMonth;
    NegativeCentury(0);
    CenturyStage(0, 1);
    YearStage(0, 1);
    FirstAndLastMonth();
    MonthStage(0, 1);
  }

  /** Later days have later dates. */
  lemma {:induction false} CountingIsMonotone(j: nat, k: nat)
    requires j < k
    ensures Before(DayNumber(j), DayNumber(k))
    decreases k
  {
    hide NextDay, EncodeDate;
    EncodeRefinesCounting(k - 1);
    EncodeCountsDays(DayNumber(k - 1));
    if j < k - 1 {
      CountingIsMonotone(j, k - 1);
    }
  }

  /** Encoding keeps the order of dates, both ways. */
  lemma EncodeIsMonotone(a: Date, b: Date)
    requires FromOrigin(a) && FromOrigin(b)
    ensures EncodeDate(a) < EncodeDate(b) <==> Before(a, b)
  {
    hide EncodeDate, DecodeDate, DayNumber;
    DecodeInvertsEncode(a);
    DecodeInvertsEncode(b);
    NotBeforeOrigin(a);
    NotBeforeOrigin(b);
    DecodeIsCounting(EncodeDate(a));
    DecodeIsCounting(EncodeDate(b));
    var j, k := EncodeDate(a) - ORIGIN_NUMBER, EncodeDate(b) - ORIGIN_NUMBER;
    if j < k {
      CountingIsMonotone(j, k);
    } else if k < j {
      CountingIsMonotone(k, j);
    }
  }

  lemma NotBeforeOrigin(date: Date)
    requires FromOrigin(date)
    ensures EncodeDate(date) >= ORIGIN_NUMBER
  {
  }

  // ---------------------------------------------------------------- 32 bits and the date type

  /** No date of the date type is encoded to a number that `decode_date` overflows on, or that
      does not fit its own 32 bits. */
  lemma DatesFitI32(date: Date)
    requires IsNaiveDate(date)
    ensures FitsI32(EncodeDate(date)) && InI32(EncodeDate(date))
    ensures -100_000_000 < EncodeDate(date)
  {
    var year := if date.month > 2 then date.year else date.year - 1;
    var c := TruncDiv(year, 100);
    assert -2622 <= c <= 2622 && -99 <= year - 100 * c <= 99;
  }

  /** Where the first product fits, no later step overflows. */
  lemma StepsFit(n: int, release: bool)
    requires FitsI32(n)
    ensures DecodeDateI32(n, release) == if IsNaiveDate(DecodeDate(n)) then Ok(DecodeDate(n)) else Err(NotADate)
  {
    hide TruncDiv, ToDate, IsDate;
    var nday := n + OFFSET;
    var rest := CenturyBounds(4 * nday - 1);
    var day := TruncDiv(rest, 4);
    DayBounds(day);
    MonthBounds(DayOfYear(day));
  }

  lemma CenturyBounds(quarters: int) returns (rest: int)
    ensures rest == quarters - 146097 * TruncDiv(quarters, 146097) && -146097 < rest < 146097
    ensures InI32(quarters) ==>
              InI32(146097 * TruncDiv(quarters, 146097)) && -14699 <= TruncDiv(quarters, 146097) <= 14699
    ensures -36525 <= TruncDiv(rest, 4) <= 36525
  {
    rest := quarters - 146097 * TruncDiv(quarters, 146097);
  }

  lemma DayBounds(day: int)
    requires -36525 <= day <= 36525
    ensures -101 <= YearOfCentury(day) <= 101 && -400 <= DayOfYear(day) <= 400
    ensures -1461 < 4 * day + 3 - 1461 * YearOfCentury(day) < 1461
  {
  }

  lemma MonthBounds(day: int)
    requires -400 <= day <= 400
    ensures -14 <= MonthOf(day) <= 14 && -153 < 5 * day - 3 - 153 * MonthOf(day) < 153
  {
  }

  lemma LastDay()
    ensures EncodeDate(LAST) == LAST_NUMBER && FromOrigin(LAST)
  {
  }

  /** From the origin on, the dates of the date type are those up to its last day. */
  lemma WithinDateType(date: Date)
    requires FromOrigin(date)
    ensures IsNaiveDate(date) <==> EncodeDate(date) <= LAST_NUMBER
  {
    hide EncodeDate;
    LastDay();
    EncodeIsMonotone(LAST, date);
  }

  lemma NotAfterLast(date: Date)
    requires IsNaiveDate(date)
    ensures EncodeDate(date) <= LAST_NUMBER
  {
    hide EncodeDate, DecodeDate;
    LastDay();
    if !Before(date, ORIGIN) {
      WithinDateType(date);
    } else {
      BeforeOriginIsSmall(date);
    }
  }

  lemma BeforeOriginIsSmall(date: Date)
    requires IsDate(date) && Before(date, ORIGIN)
    ensures EncodeDate(date) <= 0
  {
  }

  /** From the origin to the last day of the date type, decoding is counting day by day, and
      encoding gives the number back. */
  lemma EncodeUndoesDecode(n: int, release: bool)
    requires ORIGIN_NUMBER <= n <= LAST_NUMBER
    ensures DecodeDateI32(n, release) == Ok(DayNumber(n - ORIGIN_NUMBER))
    ensures EncodeDate(DayNumber(n - ORIGIN_NUMBER)) == n
  {
    hide EncodeDate, DecodeDate, DecodeDateI32, DayNumber;
    DecodeIsCounting(n);
    WithinDateType(DecodeDate(n));
    StepsFit(n, release);
  }

  /** Exactly which numbers survive decoding and encoding, in a debug and in a release build:
      those from -678881 to the last day of the date type. Any other number stops the client,
      or comes back as a different one; the number before the first, which the comment in the
      source still counts as good, decodes to the date of its successor. */
  lemma EncodeUndoesDecodeIff(n: int, release: bool)
    requires InI32(n)
    ensures (var r := DecodeDateI32(n, release); r.Ok? && EncodeDate(r.value) == n)
       <==> ORIGIN_NUMBER <= n <= LAST_NUMBER
    ensures DecodeDateI32(ORIGIN_NUMBER - 1, release) == DecodeDateI32(ORIGIN_NUMBER, release) == Ok(ORIGIN)
  {
    hide EncodeDate, DecodeDate, DecodeDateI32, DayNumber;
    DecodedOrigin();
    StepsFit(ORIGIN_NUMBER, release);
    StepsFit(ORIGIN_NUMBER - 1, release);
    var r := DecodeDateI32(n, release);
    if ORIGIN_NUMBER <= n <= LAST_NUMBER {
      EncodeUndoesDecode(n, release);
    } else if r.Ok? {
      NotAfterLast(r.value);
      DatesFitI32(r.value);
      if -100_000_000 < n < ORIGIN_NUMBER {
        StepsFit(n, release);
        DecodeFailsBeforeOrigin(n);
      }
    }
  }

  /** Behind the last day of the date type decoding always stops a debug build. */
  lemma DecodeStopsAfterLast(n: int)
    requires InI32(n) && n > LAST_NUMBER
    ensures DecodeDateI32(n, false) == Err(if FitsI32(n) then NotADate else Overflow)
  {
    hide EncodeDate, DecodeDate, DayNumber;
    if FitsI32(n) {
      DecodeIsCounting(n);
      WithinDateType(DecodeDate(n));
      StepsFit(n, false);
    }
  }

  /** Every date of the date type from 0000-03-01 on survives encoding and decoding. */
  lemma DecodeUndoesEncode(date: Date, release: bool)
    requires FromOrigin(date) && IsNaiveDate(date)
    ensures DecodeDateI32(EncodeDate(date), release) == Ok(date)
  {
    hide EncodeDate, DecodeDate, DecodeDateI32;
    DecodeInvertsEncode(date);
    DatesFitI32(date);
    StepsFit(EncodeDate(date), release);
  }

  /** And no earlier one does. */
  lemma DecodeUndoesEncodeIff(date: Date, release: bool)
    requires IsNaiveDate(date)
    ensures DecodeDateI32(EncodeDate(date), release) == Ok(date) <==> !Before(date, ORIGIN)
  {
    hide EncodeDate, DecodeDate, DecodeDateI32, DayNumber;
    var n := EncodeDate(date);
    DatesFitI32(date);
    if !Before(date, ORIGIN) {
      DecodeUndoesEncode(date, release);
    } else if n >= ORIGIN_NUMBER {
      NotAfterLast(date);
      EncodeUndoesDecode(n, release);
      EncodeRefinesCounting(n - ORIGIN_NUMBER);
    } else {
      StepsFit(n, release);
      DecodeFailsBeforeOrigin(n);
    }
  }

  // ---------------------------------------------------------------- times

  const ISC_TIME_SECONDS_PRECISION := 10000
  const FRACTION_TO_NANOS := 100000

  datatype Time = Time(hour: nat, minute: nat, second: nat, nanosecond: nat)

  /** The times the client's time type can hold; a leap second has a nanosecond count above
      a billion. */
  predicate IsTime(t: Time) {
    t.hour < 24 && t.minute < 60 && t.second < 60 && t.nanosecond < 2_000_000_000
  }

  /** `decode_time`, before the result is checked to be a time. */
  function DecodeTime(time: nat): Time {
    var hours := time / (3600 * ISC_TIME_SECONDS_PRECISION);
    var ntime := time % (3600 * ISC_TIME_SECONDS_PRECISION);
    var minutes := ntime / (60 * ISC_TIME_SECONDS_PRECISION);
    var ntime := ntime % (60 * ISC_TIME_SECONDS_PRECISION);
    Time(hours, minutes, ntime / ISC_TIME_SECONDS_PRECISION, ntime % ISC_TIME_SECONDS_PRECISION * FRACTION_TO_NANOS)
  }

  /** `encode_time`. */
  function EncodeTime(t: Time): nat {
    ((t.hour * 60 + t.minute) * 60 + t.second) * ISC_TIME_SECONDS_PRECISION + t.nanosecond / FRACTION_TO_NANOS
  }

  /** The next tenth of a millisecond, carried over from field to field; the day ends nowhere. */
  function NextTick(t: Time): Time {
    if t.nanosecond + 100_000 < 1_000_000_000 then t.(nanosecond := t.nanosecond + 100_000)
    else if t.second + 1 < 60 then Time(t.hour, t.minute, t.second + 1, 0)
    else if t.minute + 1 < 60 then Time(t.hour, t.minute + 1, 0, 0)
    else Time(t.hour + 1, 0, 0, 0)
  }

  /** The time counted tick by tick. */
  function TickNumber(k: nat): Time {
    if k == 0 then Time(0, 0, 0, 0) else NextTick(TickNumber(k - 1))
  }

  /** Decoding is counting ticks from midnight on, and encoding is the number counted. */
  lemma {:induction false} TimeRefinesCounting(k: nat)
    ensures DecodeTime(k) == TickNumber(k) && EncodeTime(TickNumber(k)) == k
  {
    hide DecodeTime, EncodeTime, NextTick;
    EncodeUndoesDecodeTime(k);
    if k == 0 {
      FieldsRead(0, 0, 0, 0);
    } else {
      TimeRefinesCounting(k - 1);
      TickCounts(k - 1);
    }
  }

  lemma TickCounts(n: nat)
    ensures DecodeTime(n + 1) == NextTick(DecodeTime(n))
  {
    hide DecodeTime;
    var h, m, s, f := FieldsOf(n);
    FieldsRead(h, m, s, f);
    if f + 1 < 10_000 {
      FieldsRead(h, m, s, f + 1);
    } else if s + 1 < 60 {
      FieldsRead(h, m, s + 1, 0);
    } else if m + 1 < 60 {
      FieldsRead(h, m + 1, 0, 0);
    } else {
      FieldsRead(h + 1, 0, 0, 0);
    }
  }

  /** Every number of ticks is made of hours, minutes, seconds and the ticks of a second. */
  lemma FieldsOf(n: nat) returns (hour: nat, minute: nat, second: nat, f: nat)
    ensures minute < 60 && second < 60 && f < 10_000
    ensures n == ((hour * 60 + minute) * 60 + second) * 10_000 + f
  {
    f := n % 10_000;
    second := n / 10_000 % 60;
    minute := n / 10_000 / 60 % 60;
    hour := n / 10_000 / 60 / 60;
  }

  /** Exactly which numbers are times: those below the number of fractions in a day. Encoding
      always gives the number back. */
  lemma EncodeUndoesDecodeTime(n: nat)
    ensures IsTime(DecodeTime(n)) <==> n < 24 * 3600 * ISC_TIME_SECONDS_PRECISION
    ensures EncodeTime(DecodeTime(n)) == n
  {
    var ntime := n % 36_000_000;
    assert n == n / 36_000_000 * 36_000_000 + ntime;
    assert ntime == ntime / 600_000 * 600_000 + ntime % 600_000;
  }

  /** Exactly which times survive: those on a whole tenth of a millisecond that are not in a
      leap second. */
  lemma DecodeUndoesEncodeTimeIff(t: Time)
    requires IsTime(t)
    ensures DecodeTime(EncodeTime(t)) == t <==> t.nanosecond % FRACTION_TO_NANOS == 0 && t.nanosecond < 1_000_000_000
  {
    if t.nanosecond < 1_000_000_000 {
      FieldsRead(t.hour, t.minute, t.second, t.nanosecond / FRACTION_TO_NANOS);
    } else {
      NoLeapSecond(EncodeTime(t));
    }
  }

  lemma FieldsRead(hour: nat, minute: nat, second: nat, f: nat)
    requires minute < 60 && second < 60 && f < 10_000
    ensures DecodeTime(((hour * 60 + minute) * 60 + second) * 10_000 + f)
         == Time(hour, minute, second, f * FRACTION_TO_NANOS)
  {
    var n := ((hour * 60 + minute) * 60 + second) * 10_000 + f;
    var ntime := minute * 600_000 + second * 10_000 + f;
    assert n == hour * 36_000_000 + ntime && ntime < 36_000_000;
    assert n / 36_000_000 == hour && n % 36_000_000 == ntime;
    var last := second * 10_000 + f;
    assert ntime / 600_000 == minute && ntime % 600_000 == last;
    assert last / 10_000 == second && last % 10_000 == f;
  }

  lemma NoLeapSecond(n: nat)
    ensures DecodeTime(n).nanosecond < 1_000_000_000
  {
  }
}
