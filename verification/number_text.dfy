/**
  Decimal text to numbers, as the parsers use `atoi`, `atof` and `sscanf`.
  Modelled: an optional sign, decimal digits and (for reals) a decimal
  fraction, read up to the first character that does not fit. Not modelled:
  leading white space, exponents, hexadecimal, "inf"/"nan", binary rounding
  and overflow of the C integer types.
 */
module NumberText {
  import opened Wrappers

  predicate IsDigit(c: char) {
    '0' <= c <= '9'
  }

  function DigitValue(c: char): (v: nat)
    requires IsDigit(c)
    ensures v <= 9
  {
    (c as int) - ('0' as int)
  }

  /** Length of the run of decimal digits at the start of `s`. */
  function DigitRun(s: string): (n: nat)
    ensures n <= |s|
    ensures forall i :: 0 <= i < n ==> IsDigit(s[i])
    ensures n < |s| ==> !IsDigit(s[n])
  {
    if s == [] || !IsDigit(s[0]) then 0 else 1 + DigitRun(s[1..])
  }

  predicate AllDigits(s: string) {
    forall i :: 0 <= i < |s| ==> IsDigit(s[i])
  }

  /** The value of a string of decimal digits, most significant first. */
  function DigitsValue(s: string): nat
    requires AllDigits(s)
  {
    if s == [] then 0 else 10 * DigitsValue(s[..|s| - 1]) + DigitValue(s[|s| - 1])
  }

  function Pow10(n: nat): (r: nat)
    ensures r >= 1
  {
    if n == 0 then 1 else 10 * Pow10(n - 1)
  }

  /** 1 when `s` starts with a sign character, else 0. */
  function SignLength(s: string): (k: nat)
    ensures k <= |s|
  {
    if |s| > 0 && (s[0] == '+' || s[0] == '-') then 1 else 0
  }

  function Sign(s: string): int {
    if |s| > 0 && s[0] == '-' then -1 else 1
  }

  /** The leading decimal digits of `s`, after its sign. */
  function LeadingDigits(s: string): (t: string)
    ensures AllDigits(t)
  {
    var u := s[SignLength(s)..];
    u[..DigitRun(u)]
  }

  /** atoi: the value of the sign and leading digits; 0 when there are none. */
  function Atoi(s: string): int {
    Sign(s) * DigitsValue(LeadingDigits(s))
  }

  /** The digits of the fraction after a '.' that follows the leading digits, if any. */
  function FractionDigits(s: string): (t: string)
    ensures AllDigits(t)
  {
    var u := s[SignLength(s)..];
    var n := DigitRun(u);
    if n < |u| && u[n] == '.' then
      var v := u[n + 1..];
      v[..DigitRun(v)]
    else
      []
  }

  /** atof: sign, leading digits and decimal fraction; 0.0 when there are none. */
  function Atof(s: string): real {
    var whole := DigitsValue(LeadingDigits(s)) as real;
    var fraction := FractionDigits(s);
    Sign(s) as real * (whole + DigitsValue(fraction) as real / Pow10(|fraction|) as real)
  }

  /**
    One "%2d" conversion of sscanf: an optional sign and then digits, two
    characters at most in all. None when no digit is read; otherwise the
    value and the number of characters consumed.
   */
  function ScanInt2(s: string): (r: Option<(int, nat)>)
    ensures r.Some? ==> 0 < r.value.1 <= 2 && r.value.1 <= |s|
  {
    var k := SignLength(s);
    var u := s[k..];
    var n := if DigitRun(u) < 2 - k then DigitRun(u) else 2 - k;
    if n == 0 then None else Some((Sign(s) * DigitsValue(u[..n]), k + n))
  }

  /** One "%lf" conversion: succeeds when a digit is read before or after the point. */
  function ScanReal(s: string): Option<real> {
    if |LeadingDigits(s)| > 0 || |FractionDigits(s)| > 0 then Some(Atof(s)) else None
  }

  datatype TimeOfDay = TimeOfDay(hours: int, minutes: int, seconds: real)

  /**
    sscanf(s, "%2d%2d%lf", ...) with all three conversions made; the case of
    only two conversions (which leaves the seconds unassigned) gives None.
   */
  function ScanTime(s: string): Option<TimeOfDay> {
    match ScanInt2(s)
    case None => None
    case Some((h, i)) =>
      match ScanInt2(s[i..])
      case None => None
      case Some((m, j)) =>
        match ScanReal(s[i + j..])
        case None => None
        case Some(sec) => Some(TimeOfDay(h, m, sec))
  }

  datatype DayMonthYear = DayMonthYear(day: int, month: int, yearShort: int)

  /** sscanf(s, "%2d%2d%2d", ...) with all three conversions made. */
  function ScanDate(s: string): Option<DayMonthYear> {
    match ScanInt2(s)
    case None => None
    case Some((d, i)) =>
      match ScanInt2(s[i..])
      case None => None
      case Some((m, j)) =>
        match ScanInt2(s[i + j..])
        case None => None
        case Some((y, _)) => Some(DayMonthYear(d, m, y))
  }

  /** Text without any digit converts to 0, and so to an in-range value for any range holding 0. */
  lemma {:induction false} NoDigitsReadAsZero(s: string)
    requires forall i :: 0 <= i < |s| ==> !IsDigit(s[i])
    ensures Atoi(s) == 0 && Atof(s) == 0.0
  {
    var u := s[SignLength(s)..];
    assert |u| > 0 ==> u[0] == s[SignLength(s)];
    assert DigitRun(u) == 0;
    assert LeadingDigits(s) == [];
    if DigitRun(u) < |u| && u[DigitRun(u)] == '.' {
      var v := u[1..];
      assert |v| > 0 ==> v[0] == s[SignLength(s) + 1];
      assert DigitRun(v) == 0;
    }
    assert FractionDigits(s) == [];
  }

  /** The value of a digit string is below 10 to the power of its length. */
  lemma {:induction false} DigitsValueBound(s: string)
    requires AllDigits(s)
    ensures DigitsValue(s) < Pow10(|s|)
    decreases |s|
  {
    if s != [] {
      DigitsValueBound(s[..|s| - 1]);
    }
  }

  /** atof of an unsigned number reads its whole part and a fraction below one. */
  lemma AtofUnsignedBounds(s: string)
    requires SignLength(s) == 0
    ensures DigitsValue(LeadingDigits(s)) as real <= Atof(s) < DigitsValue(LeadingDigits(s)) as real + 1.0
  {
    var f := FractionDigits(s);
    DigitsValueBound(f);
    QuotientBelowOne(DigitsValue(f) as real, Pow10(|f|) as real);
    assert Sign(s) == 1;
  }

  lemma QuotientBelowOne(x: real, p: real)
    requires 0.0 <= x < p
    ensures 0.0 <= x / p < 1.0
  {
  }

  /** Two leading digits are one "%2d" conversion of their two-digit value. */
  lemma ScanTwoDigits(s: string)
    requires |s| >= 2 && IsDigit(s[0]) && IsDigit(s[1])
    ensures ScanInt2(s) == Some((10 * DigitValue(s[0]) + DigitValue(s[1]), 2))
  {
    assert SignLength(s) == 0 && s[0..] == s;
    assert DigitRun(s) >= 2 by {
      assert s[1..][0] == s[1];
      assert DigitRun(s[1..]) >= 1;
    }
    var two := s[..2];
    assert two[..1] == [s[0]] && two[1] == s[1];
    assert DigitsValue([s[0]]) == DigitValue(s[0]) by {
      assert [s[0]][..0] == [];
    }
  }

  /** A single digit reads as its value. */
  lemma AtoiOneDigit(c: char)
    requires IsDigit(c)
    ensures Atoi([c]) == DigitValue(c)
  {
    var s := [c];
    assert SignLength(s) == 0 && Sign(s) == 1 && s[0..] == s;
    assert DigitRun(s) == 1 by {
      assert s[1..] == [];
    }
    assert s[..1] == s;
    assert LeadingDigits(s) == s;
    assert DigitsValue(s) == 10 * DigitsValue(s[..0]) + DigitValue(c);
  }

  /** A "%2d" conversion reads a sign and one digit, or up to two digits: a value in [-9, 99]. */
  lemma ScanInt2Range(s: string)
    ensures ScanInt2(s).Some? ==> -9 <= ScanInt2(s).value.0 <= 99
  {
    var k := SignLength(s);
    var u := s[k..];
    var n := if DigitRun(u) < 2 - k then DigitRun(u) else 2 - k;
    if n > 0 {
      DigitsValueBound(u[..n]);
      if n == 2 {
        assert Pow10(2) == 100;
      } else {
        assert Pow10(1) == 10;
      }
    }
  }

  /** Each of the three "%2d" conversions of a date lies in [-9, 99]. */
  lemma ScanDateRange(s: string)
    ensures ScanDate(s).Some? ==>
      -9 <= ScanDate(s).value.day <= 99 && -9 <= ScanDate(s).value.month <= 99 &&
      -9 <= ScanDate(s).value.yearShort <= 99
  {
    if ScanDate(s).Some? {
      var (_, i) := ScanInt2(s).value;
      var (_, j) := ScanInt2(s[i..]).value;
      ScanInt2Range(s);
      ScanInt2Range(s[i..]);
      ScanInt2Range(s[i + j..]);
    }
  }
}
