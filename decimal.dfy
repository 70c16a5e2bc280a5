/** The decimal text `snprintf(buf, size, "%d", v)` writes for an int: an optional `-` and the
    digits of the magnitude, with no leading zero. */
module Decimal {

  predicate IsDigit(c: char)
  {
    '0' <= c <= '9'
  }

  predicate AllDigits(s: string)
  {
    forall k :: 0 <= k < |s| ==> IsDigit(s[k])
  }

  /** What `%d` can print: a `-` or nothing, then at least one digit, with no leading zero
      unless the whole number is `0`, and never `-0`. */
  predicate IsDecimalText(s: string)
  {
    var digits := if |s| > 0 && s[0] == '-' then s[1..] else s;
    |digits| >= 1 && AllDigits(digits) && (digits[0] == '0' ==> digits == "0")
    && (|s| > 0 && s[0] == '-' ==> digits != "0")
  }

  function DigitChar(d: nat): (c: char)
    requires d < 10
    ensures IsDigit(c) && c as int - '0' as int == d
  {
    ('0' as int + d) as char
  }

  /** The digits of `n`, most significant first. */
  function NatToDecimal(n: nat): (s: string)
    ensures |s| >= 1 && AllDigits(s)
    ensures s[0] == '0' <==> n == 0
    ensures n == 0 ==> s == "0"
    decreases n
  {
    if n < 10 then [DigitChar(n)] else NatToDecimal(n / 10) + [DigitChar(n % 10)]
  }

  /** `%d` of `v`. */
  function IntToDecimal(v: int): (s: string)
    ensures IsDecimalText(s)
  {
    if v < 0 then "-" + NatToDecimal(-v) else NatToDecimal(v)
  }

  /** The value of a string of digits, read most significant first. */
  function ParseDigits(s: string): nat
    requires AllDigits(s)
    decreases |s|
  {
    if s == [] then 0
    else ParseDigits(s[..|s| - 1]) * 10 + (s[|s| - 1] as int - '0' as int)
  }

  /** The integer a `%d` text denotes (what `atoi` would read back). */
  function ParseDecimal(s: string): int
    requires IsDecimalText(s)
  {
    if |s| > 0 && s[0] == '-' then -(ParseDigits(s[1..]) as int) else ParseDigits(s)
  }

  lemma {:induction false} NatRoundTrip(n: nat)
    ensures ParseDigits(NatToDecimal(n)) == n
    decreases n
  {
    if n >= 10 {
      NatRoundTrip(n / 10);
      var s := NatToDecimal(n);
      assert s[..|s| - 1] == NatToDecimal(n / 10);
    }
  }

  /** Reading back the `%d` text of `v` gives `v`: the rendering loses nothing, so distinct
      ints render to distinct strings. */
  lemma DecimalRoundTrip(v: int)
    ensures ParseDecimal(IntToDecimal(v)) == v
  {
    if v < 0 {
      NatRoundTrip(-v);
      assert IntToDecimal(v)[1..] == NatToDecimal(-v);
    } else {
      NatRoundTrip(v);
    }
  }

  lemma DecimalInjective(v: int, w: int)
    requires IntToDecimal(v) == IntToDecimal(w)
    ensures v == w
  {
    DecimalRoundTrip(v);
    DecimalRoundTrip(w);
  }
}
