/** Decimal rendering of an `Integer`, as `String.formatted("%s", id)` does it:
    an optional minus sign followed by the digits of the magnitude, most
    significant first, with no leading zeros. */
module Decimal {

  function DigitChar(d: nat): (c: char)
    requires d < 10
    ensures '0' <= c <= '9'
  {
    ('0' as int + d) as char
  }

  function DigitValue(c: char): nat
  {
    if '0' <= c <= '9' then c as int - '0' as int else 0
  }

  predicate IsDigits(s: string)
  {
    forall k :: 0 <= k < |s| ==> '0' <= s[k] <= '9'
  }

  /** The digits of `n`, most significant first. */
  function NatToDecimal(n: nat): string
  {
    if n < 10 then [DigitChar(n)] else NatToDecimal(n / 10) + [DigitChar(n % 10)]
  }

  /** The number a string of digits denotes (its inverse, below). */
  function DecimalToNat(s: string): nat
  {
    if s == [] then 0 else DecimalToNat(s[..|s| - 1]) * 10 + DigitValue(s[|s| - 1])
  }

  /** What `%s` prints for an `Integer`. */
  function IntToDecimal(i: int): string
  {
    if i < 0 then "-" + NatToDecimal(-i) else NatToDecimal(i)
  }

  function DecimalToInt(s: string): int
  {
    if |s| > 0 && s[0] == '-' then -(DecimalToNat(s[1..]) as int) else DecimalToNat(s)
  }

  /** The rendering of a natural number is a non-empty string of digits that
      reads back as the same number. */
  lemma {:induction false} NatDecimalRoundTrip(n: nat)
    ensures |NatToDecimal(n)| > 0 && IsDigits(NatToDecimal(n))
    ensures DecimalToNat(NatToDecimal(n)) == n
  {
    var s := NatToDecimal(n);
    if n >= 10 {
      NatDecimalRoundTrip(n / 10);
      var p := NatToDecimal(n / 10);
      assert s == p + [DigitChar(n % 10)];
      assert s[..|s| - 1] == p;
    }
  }

  /** Reading back the rendering of any integer gives that integer. */
  lemma IntDecimalRoundTrip(i: int)
    ensures DecimalToInt(IntToDecimal(i)) == i
  {
    if i < 0 {
      NatDecimalRoundTrip(-i);
      assert IntToDecimal(i)[1..] == NatToDecimal(-i);
    } else {
      NatDecimalRoundTrip(i);
      assert IntToDecimal(i)[0] != '-';
    }
  }

  /** Distinct integers are rendered as distinct strings. */
  lemma IntToDecimalInjective(a: int, b: int)
    requires IntToDecimal(a) == IntToDecimal(b)
    ensures a == b
  {
    IntDecimalRoundTrip(a);
    IntDecimalRoundTrip(b);
  }
}
