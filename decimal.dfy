/**
 * JavaScript's conversion of an integer-valued Number whose magnitude is
 * below 10^21 (every int32 value, such as the hash in `'pdf_' + hash`) to its
 * decimal string: an optional minus sign followed by the digits of the
 * magnitude, with no leading zero. From 10^21 on JavaScript switches to
 * exponent form, which this module does not model.
 */
module Decimal {
  import opened Wrappers

  predicate IsDigit(c: char) {
    '0' <= c <= '9'
  }

  predicate AllDigits(s: string) {
    forall i :: 0 <= i < |s| ==> IsDigit(s[i])
  }

  function DigitChar(d: nat): (c: char)
    requires d < 10
    ensures IsDigit(c) && c as int - '0' as int == d
  {
    ('0' as int + d) as char
  }

  /** The decimal digits of a natural number, most significant first. */
  function NatDigits(n: nat): (s: string)
    ensures |s| >= 1 && AllDigits(s)
    ensures s[0] == '0' <==> n == 0
  {
    if n < 10 then [DigitChar(n)] else NatDigits(n / 10) + [DigitChar(n % 10)]
  }

  /** The value of a string of decimal digits; the inverse of NatDigits. */
  function DigitsValue(s: string): nat
    requires AllDigits(s)
  {
    if s == [] then 0 else 10 * DigitsValue(s[..|s| - 1]) + (s[|s| - 1] as int - '0' as int)
  }

  lemma {:induction false} DigitsRoundTrip(n: nat)
    ensures DigitsValue(NatDigits(n)) == n
  {
    if n >= 10 {
      var s := NatDigits(n);
      assert s[..|s| - 1] == NatDigits(n / 10);
      DigitsRoundTrip(n / 10);
    }
  }

  /** The string JavaScript produces for an integer-valued Number of magnitude below 10^21. */
  function ToDecimal(n: int): (s: string)
    ensures |s| >= 1
    ensures s[0] == '-' <==> n < 0
    ensures s[0] == '0' <==> n == 0
    ensures n >= 0 ==> AllDigits(s)
    ensures n < 0 ==> |s| >= 2 && AllDigits(s[1..]) && s[1] != '0'
  {
    if n < 0 then "-" + NatDigits(-n) else NatDigits(n)
  }

  /** Reads back a string produced by ToDecimal. */
  function Parse(s: string): Option<int> {
    if |s| >= 2 && s[0] == '-' && AllDigits(s[1..]) then Some(-(DigitsValue(s[1..]) as int))
    else if |s| >= 1 && AllDigits(s) then Some(DigitsValue(s))
    else None
  }

  lemma DecimalRoundTrip(n: int)
    ensures Parse(ToDecimal(n)) == Some(n)
  {
    if n < 0 {
      assert ToDecimal(n)[1..] == NatDigits(-n);
      DigitsRoundTrip(-n);
    } else {
      DigitsRoundTrip(n);
    }
  }

  /** Distinct integers have distinct decimal strings. */
  lemma DecimalInjective(a: int, b: int)
    ensures ToDecimal(a) == ToDecimal(b) <==> a == b
  {
    if ToDecimal(a) == ToDecimal(b) {
      DecimalRoundTrip(a);
      DecimalRoundTrip(b);
    }
  }
}
