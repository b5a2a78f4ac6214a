/**
 * Python's fixed-point rendering with two decimals, `format(x, ".2f")`, over
 * exact reals: the value is rounded to the nearest hundredth (ties to the even
 * neighbour), printed as its decimal digits, a point and two digits, with a
 * leading "-" for a negative value (also when it rounds to zero, as in "-0.00").
 */
module FloatFormat {
  import opened Wrappers

  predicate IsDigit(c: char) {
    '0' <= c <= '9'
  }

  predicate AllDigits(s: string) {
    forall i :: 0 <= i < |s| ==> IsDigit(s[i])
  }

  function DigitValue(c: char): (d: nat)
    requires IsDigit(c)
    ensures d < 10
  {
    c as int - '0' as int
  }

  function DigitChar(d: nat): (c: char)
    requires d < 10
    ensures IsDigit(c) && DigitValue(c) == d
  {
    ('0' as int + d) as char
  }

  /** The decimal digits of `n`, most significant first, without leading zeros. */
  function Decimal(n: nat): (s: string)
    ensures 1 <= |s| && AllDigits(s)
    ensures |s| > 1 ==> s[0] != '0'
  {
    if n < 10 then [DigitChar(n)] else Decimal(n / 10) + [DigitChar(n % 10)]
  }

  /** The number a string of decimal digits denotes. */
  function DigitsValue(s: string): nat
    requires AllDigits(s)
  {
    if s == [] then 0 else DigitsValue(s[..|s| - 1]) * 10 + DigitValue(s[|s| - 1])
  }

  lemma {:induction false} DecimalRoundTrip(n: nat)
    ensures DigitsValue(Decimal(n)) == n
  {
    if n >= 10 {
      var s := Decimal(n);
      assert s[..|s| - 1] == Decimal(n / 10);
      DecimalRoundTrip(n / 10);
    }
  }

  /** The integer nearest to `y`; of two equally near, the even one. */
  function RoundHalfEven(y: real): (n: int)
    ensures -0.5 <= n as real - y <= 0.5
    ensures (n as real - y == 0.5 || n as real - y == -0.5) ==> n % 2 == 0
  {
    var f := y.Floor;
    var frac := y - f as real;
    if frac < 0.5 then f
    else if frac > 0.5 then f + 1
    else if f % 2 == 0 then f
    else f + 1
  }

  /** Rounding to nearest, ties to even, has exactly one answer. */
  lemma RoundingIsUnique(y: real, m: int, n: int)
    requires -0.5 <= m as real - y <= 0.5
    requires (m as real - y == 0.5 || m as real - y == -0.5) ==> m % 2 == 0
    requires -0.5 <= n as real - y <= 0.5
    requires (n as real - y == 0.5 || n as real - y == -0.5) ==> n % 2 == 0
    ensures m == n
  {
  }

  /** The number of hundredths `format(x, ".2f")` shows, sign included. */
  function Hundredths(x: real): (h: int)
    ensures -0.5 <= h as real - 100.0 * x <= 0.5
    ensures (h as real - 100.0 * x == 0.5 || h as real - 100.0 * x == -0.5) ==> h % 2 == 0
  {
    RoundHalfEven(100.0 * x)
  }

  /** Digits, point and two decimals for a non-negative number of hundredths. */
  function Unsigned(h: nat): (s: string)
    ensures 4 <= |s| && s[|s| - 3] == '.'
    ensures AllDigits(s[..|s| - 3]) && IsDigit(s[|s| - 2]) && IsDigit(s[|s| - 1])
    ensures s[0] != '0' || s[1] == '.'
  {
    Decimal(h / 100) + "." + [DigitChar(h / 10 % 10), DigitChar(h % 10)]
  }

  /** `format(x, ".2f")` (app.py:66 renders the confidence this way). */
  function Fixed2(x: real): (s: string)
    ensures 4 <= |s|
    ensures s[0] == '-' <==> x < 0.0
    ensures s[|s| - 3] == '.' && IsDigit(s[|s| - 2]) && IsDigit(s[|s| - 1])
    ensures var digits := if x < 0.0 then s[1..] else s;
      4 <= |digits| && AllDigits(digits[..|digits| - 3]) && (digits[0] != '0' || digits[1] == '.')
  {
    var magnitude := RoundHalfEven(if x < 0.0 then -100.0 * x else 100.0 * x);
    (if x < 0.0 then "-" else "") + Unsigned(magnitude)
  }

  /** Reads back a string of the shape `Unsigned` produces, as hundredths. */
  function ParseUnsigned(s: string): Option<nat> {
    if 4 <= |s| && s[|s| - 3] == '.' && AllDigits(s[..|s| - 3]) && IsDigit(s[|s| - 2]) && IsDigit(s[|s| - 1])
    then Some(DigitsValue(s[..|s| - 3]) * 100 + DigitValue(s[|s| - 2]) * 10 + DigitValue(s[|s| - 1]))
    else None
  }

  /** Reads back a string of the shape `Fixed2` produces, as signed hundredths. */
  function ParseFixed2(s: string): Option<int> {
    if 0 < |s| && s[0] == '-' then
      match ParseUnsigned(s[1..])
      case Some(h) => Some(-(h as int))
      case None => None
    else ParseUnsigned(s)
  }

  lemma UnsignedRoundTrip(h: nat)
    ensures ParseUnsigned(Unsigned(h)) == Some(h)
  {
    var s := Unsigned(h);
    assert s[..|s| - 3] == Decimal(h / 100);
    DecimalRoundTrip(h / 100);
  }

  /** The displayed text denotes the value rounded to hundredths, ties to even. */
  lemma Fixed2RoundTrip(x: real)
    ensures ParseFixed2(Fixed2(x)) == Some(Hundredths(x))
  {
    var y := if x < 0.0 then -100.0 * x else 100.0 * x;
    var magnitude := RoundHalfEven(y);
    UnsignedRoundTrip(magnitude);
    var s := Fixed2(x);
    if x < 0.0 {
      assert s[0] == '-' && s[1..] == Unsigned(magnitude);
      assert (-magnitude) % 2 == 0 <==> magnitude % 2 == 0;
      RoundingIsUnique(100.0 * x, -magnitude, Hundredths(x));
    } else {
      assert s == Unsigned(magnitude);
    }
  }

  /** The confidence shown for the end-to-end scenarios with a score of magnitude 0.9. */
  lemma Fixed2OfNineTenths()
    ensures Fixed2(0.9) == "0.90"
  {
    assert RoundHalfEven(90.0) == 90 by {
      assert (90.0).Floor == 90;
    }
  }
}
