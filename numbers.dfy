/**
 * Numbers as the summary text shows them: `f"{n}"` for the error count,
 * `f"{x:.1f}"` for latencies, and `float(token)` for reading an average
 * back. Latencies are exact reals: Python formats the exact value of a
 * float, rounding half to even, which is what `Round1` does on reals.
 */
module Numbers {
  import opened Wrappers
  import opened Text

  predicate IsDigit(c: char) {
    '0' <= c <= '9'
  }

  predicate AllDigits(s: string) {
    forall i :: 0 <= i < |s| ==> IsDigit(s[i])
  }

  function DigitChar(d: nat): (c: char)
    requires d < 10
    ensures IsDigit(c) && c as int - '0' as int == d
  {
    ('0' as int + d) as char
  }

  /** The value of a string of decimal digits (0 for the empty string). */
  function DigitsValue(s: string): nat
    requires AllDigits(s)
  {
    if s == [] then 0
    else 10 * DigitsValue(s[..|s| - 1]) + (s[|s| - 1] as int - '0' as int)
  }

  /**
   * `f"{n}"` for a non-negative integer: its decimal digits, with no
   * leading zero unless the number is 0 itself.
   */
  function Decimal(n: nat): (s: string)
    ensures s != [] && AllDigits(s)
    ensures s[0] == '0' ==> n == 0
  {
    if n < 10 then [DigitChar(n)] else Decimal(n / 10) + [DigitChar(n % 10)]
  }

  /** Reading the digits of `Decimal(n)` gives `n` back. */
  lemma {:induction false} DecimalRoundTrip(n: nat)
    ensures DigitsValue(Decimal(n)) == n
  {
    var s := Decimal(n);
    if n >= 10 {
      DecimalRoundTrip(n / 10);
      assert s[..|s| - 1] == Decimal(n / 10);
    }
  }

  /**
   * Python's `round` to the nearest integer with ties to even, which is
   * how `:.1f` rounds the exact value of a float.
   */
  function RoundHalfEven(y: real): (n: int)
    ensures y - 0.5 <= n as real <= y + 0.5
    ensures n as real - y == 0.5 || y - n as real == 0.5 ==> n % 2 == 0
    ensures y >= 0.0 ==> n >= 0
  {
    var f := y.Floor;
    var d := y - f as real;
    if d < 0.5 then f
    else if d > 0.5 then f + 1
    else if f % 2 == 0 then f
    else f + 1
  }

  /** Rounding to the nearest integer never reverses the order of two values. */
  lemma RoundHalfEvenMonotone(y: real, z: real)
    requires y <= z
    ensures RoundHalfEven(y) <= RoundHalfEven(z)
  {
    var fy, fz := y.Floor, z.Floor;
    if fy == fz {
      assert y - fy as real <= z - fz as real;
    } else {
      assert fy < fz;
    }
  }

  function Abs(x: real): real {
    if x < 0.0 then -x else x
  }

  /** Tenths of |x|, rounded half to even: the digits `:.1f` prints. */
  function Tenths(x: real): nat {
    RoundHalfEven(Abs(x) * 10.0)
  }

  /** The value `:.1f` shows for `x`: `x` rounded to one decimal place. */
  function Round1(x: real): (r: real)
    ensures x - 0.05 <= r <= x + 0.05
  {
    SignedTenths(x < 0.0, Tenths(x))
  }

  /** n tenths, negated when `negative`. */
  function SignedTenths(negative: bool, n: nat): real {
    var t := n as real / 10.0;
    if negative then -t else t
  }

  /** Showing one decimal place never reverses the order of two values. */
  lemma Round1Monotone(x: real, y: real)
    requires x <= y
    ensures Round1(x) <= Round1(y)
  {
    if 0.0 <= x {
      RoundHalfEvenMonotone(x * 10.0, y * 10.0);
    } else if y < 0.0 {
      RoundHalfEvenMonotone(-y * 10.0, -x * 10.0);
    }
  }

  /**
   * `f"{x:.1f}"`: an optional minus sign, the integer part, a point and
   * one decimal digit. Python keeps the sign of a negative value that
   * rounds to zero (`-0.0`). The text is never empty, and holds neither
   * whitespace nor `|`.
   */
  function Fmt1(x: real): (s: string)
    ensures s != [] && NoSpace(s) && '|' !in s
  {
    SignedTenthsText(x < 0.0, Tenths(x))
  }

  /** n tenths as `:.1f` writes them, after a minus sign when `negative`. */
  function SignedTenthsText(negative: bool, n: nat): (s: string)
    ensures s != [] && NoSpace(s) && '|' !in s
  {
    var s := (if negative then "-" else "") + TenthsText(n);
    assert forall i :: 0 <= i < |s| ==> s[i] == '-' || s[i] == '.' || IsDigit(s[i]);
    s
  }

  /** `n` tenths as `:.1f` writes them: the integer part, a point, the tenths digit. */
  function TenthsText(n: nat): (s: string)
    ensures s != [] && s[0] != '-' && s[0] != '+'
    ensures forall i :: 0 <= i < |s| ==> s[i] == '.' || IsDigit(s[i])
  {
    Decimal(n / 10) + "." + [DigitChar(n % 10)]
  }

  /** Position of the first `c` in `s`, or `|s|` when there is none. */
  function IndexOf(s: string, c: char): (k: nat)
    ensures k <= |s| && c !in s[..k]
    ensures k < |s| ==> s[k] == c
  {
    if s == [] then 0
    else if s[0] == c then 0
    else 1 + IndexOf(s[1..], c)
  }

  function Pow10(k: nat): (p: nat)
    ensures p >= 1
  {
    if k == 0 then 1 else 10 * Pow10(k - 1)
  }

  /** A decimal literal without sign: digits, an optional point, digits; at least one digit. */
  function ParseUnsigned(t: string): Option<real> {
    var d := IndexOf(t, '.');
    if d < |t| then ParseParts(t[..d], t[d + 1..]) else ParseParts(t, [])
  }

  /** The digits before and after the point, when both are digits and not both empty. */
  function ParseParts(whole: string, frac: string): Option<real> {
    if AllDigits(whole) && AllDigits(frac) && |whole| + |frac| > 0 then Some(LiteralValue(whole, frac)) else None
  }

  /** The value of `whole.frac`. */
  function LiteralValue(whole: string, frac: string): real
    requires AllDigits(whole) && AllDigits(frac)
  {
    DigitsValue(whole) as real + DigitsValue(frac) as real / Pow10(|frac|) as real
  }

  /**
   * `float(t)` for the decimal literals `:.1f` produces: an optional
   * sign followed by an unsigned decimal literal. Anything else is a
   * `ValueError`, here `None`.
   */
  function ParseFloat(t: string): Option<real> {
    if t != [] && (t[0] == '-' || t[0] == '+') then Signed(t[0] == '-', ParseUnsigned(t[1..]))
    else ParseUnsigned(t)
  }

  /** A parsed magnitude with its sign applied. */
  function Signed(negative: bool, v: Option<real>): Option<real> {
    match v
    case Some(x) => Some(if negative then -x else x)
    case None => None
  }

  lemma {:induction false} IndexOfAfterDigits(digits: string, rest: string)
    requires AllDigits(digits)
    requires rest != [] && rest[0] == '.'
    ensures IndexOf(digits + rest, '.') == |digits|
    decreases |digits|
  {
    if digits == [] {
      assert digits + rest == rest;
    } else {
      assert (digits + rest)[1..] == digits[1..] + rest;
      IndexOfAfterDigits(digits[1..], rest);
    }
  }

  /** An unsigned literal with a point: the whole part plus the fraction. */
  lemma ParseUnsignedPoint(whole: string, frac: string)
    requires AllDigits(whole) && AllDigits(frac) && whole != []
    ensures ParseUnsigned(whole + "." + frac) == Some(LiteralValue(whole, frac))
  {
    var t := whole + ("." + frac);
    IndexOfAfterDigits(whole, "." + frac);
    assert t[..|whole|] == whole;
    assert t[|whole| + 1..] == frac;
    assert ParseUnsigned(t) == ParseParts(whole, frac);
    assert t == whole + "." + frac;
  }

  /** The unsigned text `:.1f` prints for n tenths reads back as n / 10. */
  lemma TenthsRoundTrip(n: nat)
    ensures ParseUnsigned(TenthsText(n)) == Some(n as real / 10.0)
  {
    var whole, frac := Decimal(n / 10), [DigitChar(n % 10)];
    ParseUnsignedPoint(whole, frac);
    DecimalRoundTrip(n / 10);
    OneDigitFraction(whole, n % 10);
    TenthsValue(n);
  }

  /** `whole.d` for a single digit d is the whole part plus d tenths. */
  lemma OneDigitFraction(whole: string, d: nat)
    requires AllDigits(whole) && d < 10
    ensures LiteralValue(whole, [DigitChar(d)]) == DigitsValue(whole) as real + d as real / 10.0
  {
    var frac := [DigitChar(d)];
    assert frac[..0] == [];
    assert DigitsValue(frac) == d;
    assert Pow10(1) == 10;
  }

  lemma TenthsValue(n: nat)
    ensures (n / 10) as real + (n % 10) as real / 10.0 == n as real / 10.0
  {
    var q, r := n / 10, n % 10;
    assert n == 10 * q + r;
  }

  /** Reading back what `:.1f` printed gives the value rounded to one decimal. */
  lemma FormatParseRoundTrip(x: real)
    ensures ParseFloat(Fmt1(x)) == Some(Round1(x))
  {
    SignedTenthsRoundTrip(x < 0.0, Tenths(x));
  }

  /** The text of n tenths, with or without a minus sign, reads back as their value. */
  lemma SignedTenthsRoundTrip(negative: bool, n: nat)
    ensures ParseFloat(SignedTenthsText(negative, n)) == Some(SignedTenths(negative, n))
  {
    var u := TenthsText(n);
    TenthsRoundTrip(n);
    if negative {
      NegativeLiteral(u);
      assert SignedTenthsText(negative, n) == "-" + u;
    } else {
      UnsignedLiteral(u);
      assert SignedTenthsText(negative, n) == u;
    }
  }

  /** `float(u)` for an unsigned literal u. */
  lemma UnsignedLiteral(u: string)
    requires u != [] && u[0] != '-' && u[0] != '+'
    ensures ParseFloat(u) == ParseUnsigned(u)
  {
  }

  /** `float("-" + u)` is minus `float(u)` for an unsigned literal u. */
  lemma NegativeLiteral(u: string)
    requires u != [] && u[0] != '-' && u[0] != '+'
    ensures ParseFloat("-" + u) == Signed(true, ParseUnsigned(u))
  {
    var t := "-" + u;
    assert t[0] == '-' && t[1..] == u;
  }
}
