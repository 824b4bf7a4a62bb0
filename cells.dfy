/** Scalar values held in the cells of a record table: calendar dates with the
    date parser used by the cleaners, integer and text conversions, and the
    cell datatype itself (pandas' NaN / NaT become `Missing` / `InvalidDate`). */
module Cells {

  datatype Option<+T> = None | Some(value: T)

  /** A failure-carrying result, for the operations that raise in the Python code. */
  datatype Result<+T> = Ok(value: T) | Err(reason: string)

  // ---------------------------------------------------------------------------
  // Calendar dates
  // ---------------------------------------------------------------------------

  datatype CalDate = CalDate(year: int, month: int, day: int)

  predicate IsLeapYear(y: int) {
    y % 4 == 0 && (y % 100 != 0 || y % 400 == 0)
  }

  function DaysInMonth(y: int, m: int): (n: int)
    requires 1 <= m <= 12
    ensures 28 <= n <= 31
    ensures n == 29 <==> m == 2 && IsLeapYear(y)
  {
    if m == 2 then (if IsLeapYear(y) then 29 else 28)
    else if m == 4 || m == 6 || m == 9 || m == 11 then 30
    else 31
  }

  predicate ValidDate(d: CalDate) {
    1 <= d.month <= 12 && 1 <= d.day <= DaysInMonth(d.year, d.month)
  }

  /** Chronological order on dates (time of day is not modelled). */
  predicate Before(a: CalDate, b: CalDate) {
    a.year < b.year ||
    (a.year == b.year && (a.month < b.month || (a.month == b.month && a.day < b.day)))
  }

  predicate NotAfter(a: CalDate, b: CalDate) {
    a == b || Before(a, b)
  }

  /** The first and last calendar days a nanosecond timestamp can hold at midnight
      (the timestamp range is 1677-09-21 00:12:43 to 2262-04-11 23:47:16). */
  const FirstDay := CalDate(1677, 9, 22)
  const LastDay := CalDate(2262, 4, 11)

  predicate Representable(d: CalDate) {
    ValidDate(d) && NotAfter(FirstDay, d) && NotAfter(d, LastDay)
  }

  /** A day that a date cell can hold. */
  type Day = d: CalDate | Representable(d) witness CalDate(2000, 1, 1)

  /** `d` minus `k` calendar months, the day clamped to the end of the target
      month (the behaviour of a month offset on a timestamp). */
  function MonthsBefore(d: CalDate, k: nat): (r: CalDate)
    requires ValidDate(d)
    ensures ValidDate(r)
    ensures r.year * 12 + r.month == d.year * 12 + d.month - k
    ensures r.day == if d.day <= DaysInMonth(r.year, r.month) then d.day else DaysInMonth(r.year, r.month)
    ensures k > 0 ==> Before(r, d)
  {
    var total := d.year * 12 + (d.month - 1) - k;
    var y, m := total / 12, total % 12 + 1;
    var last := DaysInMonth(y, m);
    CalDate(y, m, if d.day <= last then d.day else last)
  }

  // ---------------------------------------------------------------------------
  // Decimal digits
  // ---------------------------------------------------------------------------

  predicate IsDigit(c: char) {
    '0' <= c <= '9'
  }

  predicate AllDigits(s: string) {
    forall i | 0 <= i < |s| :: IsDigit(s[i])
  }

  function DigitValue(c: char): (n: nat)
    requires IsDigit(c)
    ensures n < 10
  {
    c as int - '0' as int
  }

  function DigitChar(n: nat): (c: char)
    requires n < 10
    ensures IsDigit(c) && DigitValue(c) == n
  {
    ('0' as int + n) as char
  }

  /** The number written by a string of decimal digits, most significant first. */
  function DigitsValue(s: string): nat
    requires AllDigits(s)
  {
    if |s| == 0 then 0 else DigitsValue(s[..|s| - 1]) * 10 + DigitValue(s[|s| - 1])
  }

  function Pow10(w: nat): (p: nat)
    ensures p >= 1
  {
    if w == 0 then 1 else 10 * Pow10(w - 1)
  }

  /** The last `w` decimal digits of `n`, zero-padded on the left. */
  function Pad(n: nat, w: nat): (s: string)
    ensures |s| == w && AllDigits(s)
  {
    if w == 0 then [] else Pad(n / 10, w - 1) + [DigitChar(n % 10)]
  }

  lemma {:induction false} PadValue(n: nat, w: nat)
    requires n < Pow10(w)
    ensures DigitsValue(Pad(n, w)) == n
  {
    if w > 0 {
      var p := Pad(n / 10, w - 1);
      assert Pad(n, w)[..w - 1] == p;
      PadValue(n / 10, w - 1);
    }
  }

  lemma {:induction false} PadOfDigits(s: string)
    requires AllDigits(s)
    ensures Pad(DigitsValue(s), |s|) == s
  {
    if |s| > 0 {
      var init := s[..|s| - 1];
      var v := DigitsValue(s);
      assert AllDigits(init);
      PadOfDigits(init);
      assert v / 10 == DigitsValue(init) && v % 10 == DigitValue(s[|s| - 1]);
      assert s == init + [s[|s| - 1]];
    }
  }

  /** Number of decimal digits needed to write `n`. */
  function Width(n: nat): (w: nat)
    ensures 1 <= w && n < Pow10(w)
  {
    if n < 10 then 1 else Width(n / 10) + 1
  }

  /** Decimal text of a natural number, without leading zeros. */
  function NatText(n: nat): (s: string)
    ensures |s| > 0 && AllDigits(s)
  {
    Pad(n, Width(n))
  }

  /** Decimal text of an integer, with a leading '-' when negative. */
  function IntText(i: int): (s: string)
    ensures |s| > 0
    ensures forall k | 0 <= k < |s| :: IsDigit(s[k]) || (k == 0 && s[k] == '-')
  {
    if i < 0 then "-" + NatText(-i) else NatText(i)
  }

  /** A non-empty string of decimal digits, read as a number. */
  function ParseNat(s: string): (r: Option<nat>)
    ensures r.Some? <==> |s| > 0 && AllDigits(s)
  {
    if |s| > 0 && AllDigits(s) then Some(DigitsValue(s)) else None
  }

  /** Text that reads as a decimal integer: digits, optionally after a '-'. */
  predicate IsIntegerText(s: string) {
    (|s| > 0 && AllDigits(s)) || (|s| > 1 && s[0] == '-' && AllDigits(s[1..]))
  }

  /** An optionally negated decimal integer, read as a number; any other text fails. */
  function ParseInt(s: string): (r: Option<int>)
    ensures r.Some? <==> IsIntegerText(s)
    ensures r.Some? && r.value < 0 ==> |s| > 1 && s[0] == '-'
  {
    if |s| > 0 && s[0] == '-' then
      var m := ParseNat(s[1..]);
      if m.Some? then Some(-(m.value as int)) else None
    else
      var m := ParseNat(s);
      if m.Some? then Some(m.value as int) else None
  }

  lemma NatTextRoundTrip(n: nat)
    ensures ParseNat(NatText(n)) == Some(n)
    ensures DigitsValue(NatText(n)) == n
  {
    PadValue(n, Width(n));
  }

  lemma ParseDigits(n: string)
    requires |n| > 0 && AllDigits(n)
    ensures ParseInt(n) == Some(DigitsValue(n) as int)
  {
    assert IsDigit(n[0]);
  }

  lemma ParseNegatedDigits(n: string)
    requires |n| > 0 && AllDigits(n)
    ensures ParseInt("-" + n) == Some(-(DigitsValue(n) as int))
  {
    var s := "-" + n;
    assert s[0] == '-' && s[1..] == n;
  }

  lemma IntTextRoundTrip(i: int)
    ensures ParseInt(IntText(i)) == Some(i)
  {
    if i < 0 {
      NatTextRoundTrip(-i);
      ParseNegatedDigits(NatText(-i));
      assert IntText(i) == "-" + NatText(-i);
    } else {
      NatTextRoundTrip(i);
      ParseDigits(NatText(i));
      assert IntText(i) == NatText(i);
    }
  }

  // ---------------------------------------------------------------------------
  // Date text: YYYY-MM-DD
  // ---------------------------------------------------------------------------

  /** Reads a `YYYY-MM-DD` date; text that is not of that form, names no real
      calendar day, or lies outside the timestamp range yields `None`. */
  function ParseDate(s: string): (r: Option<Day>)
    ensures r.Some? ==> |s| == 10
  {
    if |s| == 10 && s[4] == '-' && s[7] == '-'
       && AllDigits(s[..4]) && AllDigits(s[5..7]) && AllDigits(s[8..]) then
      var d := CalDate(DigitsValue(s[..4]), DigitsValue(s[5..7]), DigitsValue(s[8..]));
      if Representable(d) then Some(d) else None
    else
      None
  }

  function FormatDate(d: Day): (s: string)
    ensures |s| == 10
  {
    Pad(d.year, 4) + "-" + Pad(d.month, 2) + "-" + Pad(d.day, 2)
  }

  lemma FormatThenParse(d: Day)
    ensures ParseDate(FormatDate(d)) == Some(d)
  {
    var s := FormatDate(d);
    assert s[..4] == Pad(d.year, 4);
    assert s[5..7] == Pad(d.month, 2);
    assert s[8..] == Pad(d.day, 2);
    PadValue(d.year, 4);
    PadValue(d.month, 2);
    PadValue(d.day, 2);
  }

  lemma ParseThenFormat(s: string)
    requires ParseDate(s).Some?
    ensures FormatDate(ParseDate(s).value) == s
  {
    PadOfDigits(s[..4]);
    PadOfDigits(s[5..7]);
    PadOfDigits(s[8..]);
    assert s == s[..4] + "-" + s[5..7] + "-" + s[8..];
  }

  // ---------------------------------------------------------------------------
  // Upper-casing
  // ---------------------------------------------------------------------------

  predicate IsLower(c: char) {
    'a' <= c <= 'z'
  }

  function UpperChar(c: char): (u: char)
    ensures !IsLower(u)
    ensures IsLower(c) ==> u as int == c as int - 32
    ensures !IsLower(c) ==> u == c
  {
    if IsLower(c) then (c as int - 32) as char else c
  }

  function Upper(s: string): (u: string)
    ensures |u| == |s|
  {
    seq(|s|, i requires 0 <= i < |s| => UpperChar(s[i]))
  }

  lemma UpperIsUpper(s: string)
    ensures forall i | 0 <= i < |Upper(s)| :: !IsLower(Upper(s)[i])
    ensures Upper(Upper(s)) == Upper(s)
  {
  }

  // ---------------------------------------------------------------------------
  // Cells
  // ---------------------------------------------------------------------------

  /** One table cell. `Missing` is a null/NaN cell, `InvalidDate` the NaT a
      failed date coercion leaves behind. */
  datatype Cell = Missing | Str(s: string) | Num(x: real) | Bool(b: bool) | Date(date: Day) | InvalidDate

  /** The cells pandas' `isnull` reports. */
  predicate IsNull(c: Cell) {
    c.Missing? || c.InvalidDate?
  }

  /** Date coercion with errors turned into `InvalidDate`. */
  function ToDate(c: Cell): (r: Cell)
    ensures r.Date? || r.InvalidDate?
    ensures c.Date? ==> r == c
    ensures c.Str? ==> r == (match ParseDate(c.s) case Some(d) => Date(d) case None => InvalidDate)
    ensures !c.Date? && !c.Str? ==> r == InvalidDate
  {
    match c
    case Date(_) => c
    case Str(s) => (match ParseDate(s) case Some(d) => Date(d) case None => InvalidDate)
    case _ => InvalidDate
  }

  /** A cell date coercion turns into `InvalidDate`. */
  predicate DateUnparseable(c: Cell) {
    ToDate(c) == InvalidDate
  }

  lemma ToDateIdempotent(c: Cell)
    ensures ToDate(ToDate(c)) == ToDate(c)
    ensures IsNull(c) ==> DateUnparseable(c)
  {
  }

  /** Numeric coercion with errors turned into NaN (`Missing`). */
  function ToNumber(c: Cell): (r: Cell)
    ensures r.Num? || r.Missing?
    ensures c.Num? ==> r == c
    ensures c.Str? ==> (r.Num? <==> IsIntegerText(c.s))
    ensures !c.Num? && !c.Str? ==> r == Missing
  {
    match c
    case Num(_) => c
    case Str(s) => (match ParseInt(s) case Some(n) => Num(n as real) case None => Missing)
    case _ => Missing
  }

  /** The text of an integer converts back to that integer. */
  lemma NumberTextRoundTrip(n: int)
    ensures ToNumber(Str(IntText(n))) == Num(n as real)
  {
    IntTextRoundTrip(n);
  }

  /** Text of a cell under a string cast (`nan` for NaN, `NaT` for an invalid date). */
  function ToText(c: Cell): string {
    match c
    case Missing => "nan"
    case Str(s) => s
    case Num(x) => IntText(x.Floor) + ".0"
    case Bool(b) => if b then "True" else "False"
    case Date(d) => FormatDate(d) + " 00:00:00"
    case InvalidDate => "NaT"
  }
}
