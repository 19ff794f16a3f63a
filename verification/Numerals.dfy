/** Decimal and hexadecimal numerals as the library's number formatter is taken to write them. */
module Numerals {
  import opened Basics
  import opened Grammar

  /** The decimal digits of n, without leading zeros. */
  function DigitsOf(n: nat): (s: bytes)
    ensures s != []
  {
    if n < 10 then [ZERO + n] else DigitsOf(n / 10) + [ZERO + n % 10]
  }

  function IntText(i: int): bytes {
    if i < 0 then [MINUS] + DigitsOf(-i) else DigitsOf(i)
  }

  function HexDigit(v: nat): byte
    requires v < 16
  {
    if v < 10 then ZERO + v else 97 + (v - 10)
  }

  /** The lower-case hexadecimal digits of v, without leading zeros. */
  function HexOf(v: nat): (s: bytes)
    ensures s != []
  {
    if v < 16 then [HexDigit(v)] else HexOf(v / 16) + [HexDigit(v % 16)]
  }

  function Power(b: nat, k: nat): nat {
    if k == 0 then 1 else b * Power(b, k - 1)
  }

  lemma {:induction false} DigitsOfLength(n: nat, k: nat)
    requires k > 0 && n < Power(10, k)
    ensures |DigitsOf(n)| <= k
  {
    if n >= 10 {
      assert k > 1 by { assert Power(10, 1) == 10 * Power(10, 0); }
      DigitsOfLength(n / 10, k - 1);
    }
  }

  lemma {:induction false} HexOfLength(v: nat, k: nat)
    requires k > 0 && v < Power(16, k)
    ensures |HexOf(v)| <= k
  {
    if v >= 16 {
      assert k > 1 by { assert Power(16, 1) == 16 * Power(16, 0); }
      HexOfLength(v / 16, k - 1);
    }
  }

  lemma {:induction false} DigitsValueSnoc(s: bytes, d: byte, v: nat)
    requires AllDigits(s) && IsDigit(d)
    ensures AllDigits(s + [d]) && DigitsValue(s + [d], v) == DigitsValue(s, v) * 10 + (d - ZERO)
  {
    if s == [] {
      assert [] + [d] == [d];
      assert DigitsValue([d], v) == DigitsValue([], v * 10 + (d - ZERO));
    } else {
      assert (s + [d])[1..] == s[1..] + [d];
      DigitsValueSnoc(s[1..], d, v * 10 + (s[0] - ZERO));
    }
  }

  /** A decimal numeral is a JSON integer that stands for its number. */
  lemma {:induction false} DigitsOfValue(n: nat)
    ensures AllDigits(DigitsOf(n)) && DigitsValue(DigitsOf(n), 0) == n
    ensures DigitsOf(n)[0] == ZERO <==> n == 0
    ensures n == 0 ==> DigitsOf(n) == [ZERO]
  {
    if n < 10 {
      assert DigitsValue([ZERO + n], 0) == DigitsValue([], n);
    } else {
      DigitsOfValue(n / 10);
      DigitsValueSnoc(DigitsOf(n / 10), ZERO + n % 10, 0);
    }
  }
}
