/** Which numbers the parser reads, with the bounds of C's integer types written out. */
module NumberRange {
  import opened Basics
  import opened Json
  import opened Grammar
  import opened Numerals
  import opened ParserSpec
  import opened NumberProofs
  import opened Refusals

  /** The digits of all parts fit their 64-bit and 32-bit accumulators, and a scale is one the table of powers has. */
  lemma {:induction false} NumberFitsIff(n: Number)
    requires NumberOk(n) && |n.fraction| <= 2147483647
    ensures NumberFits(n) <==>
      && Mantissa(n) <= 9223372036854775807 && ExponentSize(n) <= 2147483647
      && ((n.fraction == [] && n.exponent.NoExponent?)
          || (ExponentSize(n) - |n.fraction| < 308 && ExponentSize(n) - |n.fraction| != -308))
  {}

  lemma {:induction false} ProductsCompare(a: nat, b: nat, c: nat)
    requires a <= b
    ensures a * c <= b * c
  {}

  lemma {:induction false} ProductsRegroup(a: nat, b: nat, c: nat)
    ensures a * b * c == a * (b * c)
  {}

  lemma {:induction false} DigitsBelow(s: bytes, v: nat)
    requires AllDigits(s)
    ensures DigitsValue(s, v) < (v + 1) * Power(10, |s|)
  {
    if s != [] {
      var d := s[0] - ZERO;
      var p := Power(10, |s| - 1);
      DigitsBelow(s[1..], v * 10 + d);
      ProductsCompare(v * 10 + d + 1, (v + 1) * 10, p);
      ProductsRegroup(v + 1, 10, p);
    }
  }

  lemma {:induction false} PowerAdds(a: nat, b: nat)
    ensures Power(10, a) * Power(10, b) == Power(10, a + b) > 0
  {
    if a > 0 {
      PowerAdds(a - 1, b);
      assert 10 * Power(10, a - 1) * Power(10, b) == 10 * (Power(10, a - 1) * Power(10, b));
    } else if b > 0 {
      PowerAdds(0, b - 1);
    }
  }

  lemma {:induction false} PowerGrows(a: nat, b: nat)
    requires a <= b
    ensures Power(10, a) <= Power(10, b)
  {
    if a < b { PowerGrows(a, b - 1); }
  }

  lemma {:induction false} PowerOf18()
    ensures Power(10, 18) == 1_000_000_000_000_000_000
  {
    assert Power(10, 6) == 1_000_000;
    PowerAdds(6, 6);
    PowerAdds(6, 12);
  }

  lemma {:induction false} MantissaBelow(n: Number)
    requires NumberOk(n)
    ensures Mantissa(n) < Power(10, |n.whole| + |n.fraction|)
  {
    var v, p, q := DigitsValue(n.whole, 0), Power(10, |n.whole|), Power(10, |n.fraction|);
    DigitsBelow(n.whole, 0);
    DigitsBelow(n.fraction, v);
    PowerAdds(|n.whole|, |n.fraction|);
    ProductsCompare(v + 1, p, q);
  }

  /** At most eighteen digits before the exponent never overflow, and an exponent up to 307 is in the table. */
  lemma {:induction false} EighteenDigitsFit(n: Number)
    requires NumberOk(n) && |n.whole| + |n.fraction| <= 18
    requires n.exponent.Exponent? ==> ExponentSize(n) <= 307
    ensures NumberFits(n)
  {
    MantissaBelow(n);
    PowerGrows(|n.whole| + |n.fraction|, 18);
    PowerOf18();
  }

  /** The number of an integer's decimal text. */
  function IntegerOf(i: int): Number {
    Number(i < 0, DigitsOf(if i < 0 then -i else i), [], NoExponent)
  }

  lemma {:induction false} IntegerText(i: int, k: bytes)
    ensures NumberOk(IntegerOf(i)) && IsInteger(IntegerOf(i)) && IntText(i) + k == NumberText(IntegerOf(i), k)
    ensures Mantissa(IntegerOf(i)) == (if i < 0 then -i else i)
  {
    var a := if i < 0 then -i else i;
    DigitsOfValue(a);
    if i < 0 {
      Assoc([MINUS], DigitsOf(a), k);
    } else {
      assert [] + (DigitsOf(a) + k) == DigitsOf(a) + k;
    }
  }

  /**
   The decimal text of every int64_t but the least one is read as that integer, in the form for 32 bits when these
   hold it, and the text of any other integer overflows.
   */
  lemma {:induction false} IntegersAreRead(i: int, k: bytes)
    requires k != [] && EndsNumber(k[0])
    ensures var t := IntText(i) + k;
      && t != []
      && PNumber(t[0], t[1..]) ==
        if -2147483648 <= i <= 2147483647 then Ok(Int32(i), k)
        else if -9223372036854775807 <= i <= 9223372036854775807 then Ok(Int64(i), k)
        else Fail(Undefined)
  {
    IntegerText(i, k);
    if -9223372036854775807 <= i <= 9223372036854775807 {
      NumberParses(IntegerOf(i), k);
    } else {
      NumberFails(IntegerOf(i), k);
    }
  }

  /** Any other number keeps its digits and its scale, but for a scale below the table, which gives an infinity. */
  lemma {:induction false} DoubleIsRead(n: Number, k: bytes)
    requires NumberOk(n) && NumberFits(n) && (n.fraction != [] || n.exponent.Exponent?)
    requires k != [] && EndsNumber(k[0])
    ensures var t, scale := NumberText(n, k), ExponentSize(n) - |n.fraction|;
      PNumber(t[0], t[1..]) == Ok(
        if scale < -308 then Infinity(!n.negative) else Double(n.negative, Mantissa(n), scale), k)
  {
    NumberParses(n, k);
  }

  /** One more in the exponent is one more factor of ten; the sign is the number's. */
  lemma {:induction false} DecimalShifts(m: nat, e: int)
    ensures Decimal(m, 0) == m as real && Decimal(m, e + 1) == 10.0 * Decimal(m, e)
    ensures Signed(false, Decimal(m, e)) == Decimal(m, e) && Signed(true, Decimal(m, e)) == -Decimal(m, e)
  {
    Pow10Next(e);
    TimesSwap(10.0, m as real, Pow10(e));
  }
}
