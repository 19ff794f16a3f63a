/** What the number parser makes of a number, and exactly when that is the number's value. */
module NumberProofs {
  import opened Basics
  import opened Json
  import opened Grammar
  import opened ParserSpec

  /** The byte cannot go on a number. */
  predicate EndsNumber(c: byte) {
    !IsDigit(c) && c != DOT && c != 101 && c != 69
  }

  lemma {:induction false} DigitsGrow(s: bytes, v: nat)
    requires AllDigits(s)
    ensures DigitsValue(s, v) >= v
  {
    if s != [] { DigitsGrow(s[1..], v * 10 + (s[0] - ZERO)); }
  }

  lemma {:induction false} DigitsText(s: bytes, k: bytes, v: nat, limit: nat)
    requires AllDigits(s) && k != [] && !IsDigit(k[0]) && DigitsValue(s, v) <= limit
    ensures PDigits((s + k)[0], (s + k)[1..], v, limit) == Ok(Digits(DigitsValue(s, v), |s|, k[0]), k[1..])
  {
    if s == [] {
      assert s + k == k;
    } else {
      var w := v * 10 + (s[0] - ZERO);
      DigitsGrow(s[1..], w);
      DigitsText(s[1..], k, w, limit);
      assert (s + k)[1..] == s[1..] + k;
    }
  }

  /** The exponent the library uses: the exponent's digits without their sign. */
  function UsedScale(n: Number): int
    requires NumberOk(n)
  {
    ExponentSize(n) - |n.fraction|
  }

  /** No accumulator overflows and the power of ten is one the conversion has. */
  predicate NumberFits(n: Number)
    requires NumberOk(n)
  {
    && Mantissa(n) <= INT64_MAX && ExponentSize(n) <= INT32_MAX && |n.fraction| <= INT32_MAX
    && (IsInteger(n) || (UsedScale(n) < 308 && UsedScale(n) != -308))
  }

  function NumberValue(n: Number): Json
    requires NumberOk(n) && NumberFits(n)
  {
    if IsInteger(n) then NewInt(if n.negative then -(Mantissa(n) as int) else Mantissa(n))
    else NewDouble(n.negative, Mantissa(n), UsedScale(n)).value
  }

  lemma {:induction false} WholeParses(n: Number, k: bytes)
    requires NumberOk(n) && DigitsValue(n.whole, 0) <= INT64_MAX && k != [] && !IsDigit(k[0])
    ensures var t := n.whole + k;
      PWhole(t[0], t[1..]) == Ok(Digits(DigitsValue(n.whole, 0), |n.whole|, k[0]), k[1..])
  {
    if n.whole[0] == ZERO {
      assert n.whole == [ZERO];
      assert (n.whole + k)[1..] == k;
    } else {
      DigitsText(n.whole, k, 0, INT64_MAX);
    }
  }

  lemma {:induction false} FractionParses(fraction: bytes, k: bytes, v: nat)
    requires AllDigits(fraction) && k != [] && !IsDigit(k[0]) && k[0] != DOT
    requires DigitsValue(fraction, v) <= INT64_MAX
    ensures var t := FractionText(fraction, k);
      PFraction(t[0], t[1..], v) == Ok(Digits(DigitsValue(fraction, v), |fraction|, k[0]), k[1..])
  {
    if fraction != [] {
      assert FractionText(fraction, k)[1..] == fraction + k;
      DigitsText(fraction, k, v, INT64_MAX);
    }
  }

  lemma {:induction false} ExponentParses(e: Exponent, k: bytes)
    requires e.Exponent? ==> e.digits != [] && AllDigits(e.digits) && DigitsValue(e.digits, 0) <= INT32_MAX
    requires k != [] && EndsNumber(k[0])
    ensures var t := ExponentText(e, k);
      PExponent(t[0], t[1..]) == Ok((if e.Exponent? then DigitsValue(e.digits, 0) else 0, k[0]), k[1..])
  {
    if e.Exponent? {
      var t, s := ExponentText(e, k), e.digits + k;
      assert t[1..] == SignText(e.sign, s);
      assert s[0] == e.digits[0];
      DigitsText(e.digits, k, 0, INT32_MAX);
      if !e.sign.Unsigned? {
        assert SignText(e.sign, s)[1..] == s;
      }
    }
  }

  /** The bytes at which the digit loops stop. */
  lemma {:induction false} Boundaries(n: Number, k: bytes)
    requires NumberOk(n) && k != [] && EndsNumber(k[0])
    ensures var x := ExponentText(n.exponent, k);
      var f := FractionText(n.fraction, x);
      && x != [] && x[0] != DOT && !IsDigit(x[0]) && (x[0] == 101 || x[0] == 69 <==> n.exponent.Exponent?)
      && f != [] && !IsDigit(f[0]) && (f[0] == DOT <==> n.fraction != [])
      && (n.fraction == [] ==> f[0] == x[0])
  {}

  /** What is left after the sign. */
  lemma {:induction false} UnsignedParses(n: Number, k: bytes)
    requires NumberOk(n) && Mantissa(n) <= INT64_MAX && ExponentSize(n) <= INT32_MAX && k != [] && EndsNumber(k[0])
    ensures var x := ExponentText(n.exponent, k);
      var f := FractionText(n.fraction, x);
      var t, v := n.whole + f, DigitsValue(n.whole, 0);
      && PWhole(t[0], t[1..]) == Ok(Digits(v, |n.whole|, f[0]), f[1..])
      && PFraction(f[0], f[1..], v) == Ok(Digits(Mantissa(n), |n.fraction|, x[0]), x[1..])
      && PExponent(x[0], x[1..]) == Ok((ExponentSize(n), k[0]), k[1..])
  {
    Boundaries(n, k);
    var x := ExponentText(n.exponent, k);
    DigitsGrow(n.fraction, DigitsValue(n.whole, 0));
    WholeParses(n, FractionText(n.fraction, x));
    FractionParses(n.fraction, x, DigitsValue(n.whole, 0));
    ExponentParses(n.exponent, k);
  }

  lemma {:induction false} SignParses(n: Number, k: bytes)
    requires NumberOk(n)
    ensures var w := n.whole + FractionText(n.fraction, ExponentText(n.exponent, k));
      var t := NumberText(n, k);
      && (t[0] == MINUS <==> n.negative)
      && (if t[0] == MINUS then Next(t[1..]) else Ok(t[0], t[1..])) == Ok(w[0], w[1..])
  {
    var w := n.whole + FractionText(n.fraction, ExponentText(n.exponent, k));
    assert w[0] == n.whole[0] && IsDigit(w[0]);
    if n.negative {
      assert ([MINUS] + w)[1..] == w;
    } else {
      assert [] + w == w;
    }
  }

  /** The number parser reads the whole number and leaves the byte that ends it unread. */
  lemma {:induction false} NumberParses(n: Number, k: bytes)
    requires NumberOk(n) && NumberFits(n) && k != [] && EndsNumber(k[0])
    ensures var t := NumberText(n, k); PNumber(t[0], t[1..]) == Ok(NumberValue(n), k)
  {
    Boundaries(n, k);
    SignParses(n, k);
    UnsignedParses(n, k);
    assert [k[0]] + k[1..] == k;
  }

  // ---------------------------------------------------------------- the value

  lemma {:induction false} Pow10Above(e: nat)
    ensures Pow10(e) >= 1.0 && (e > 0 ==> Pow10(e) > 1.0)
  {
    if e > 0 { Pow10Above(e - 1); }
  }

  lemma {:induction false} Pow10Next(e: int)
    ensures Pow10(e + 1) == Times(10.0, Pow10(e))
  {
    if e < 0 {
      assert Pow10(e) == Pow10(e + 1) / 10.0;
    }
  }

  lemma {:induction false} TimesSwap(a: real, p: real, q: real)
    ensures Times(a, Times(p, q)) == Times(p, Times(a, q))
  {}

  lemma {:induction false} Pow10Up(e: int, d: nat)
    ensures Pow10(e + d) == Times(Pow10(e), Pow10(d))
  {
    if d > 0 {
      Pow10Up(e, d - 1);
      Pow10Next(e + d - 1);
      Pow10Next(d - 1);
      TimesSwap(10.0, Pow10(e), Pow10(d - 1));
    }
  }

  lemma {:induction false} ScaledUp(r: real, p: real, q: real)
    requires r >= 0.0 && p > 0.0 && q >= 1.0
    ensures Times(r, p) == Times(r, Times(p, q)) <==> r == 0.0 || q == 1.0
  {
    var x := r * p;
    assert r * (p * q) == x * q;
    assert x == 0.0 <==> r == 0.0;
    if x > 0.0 && q > 1.0 { assert x * (q - 1.0) > 0.0; }
  }

  /** Different exponents scale a number other than zero differently. */
  lemma {:induction false} ScaleMatters(m: nat, e: int, d: nat)
    ensures Decimal(m, e) == Decimal(m, e + d) <==> m == 0 || d == 0
  {
    var p, q := Pow10(e), Pow10(d);
    Pow10Up(e, d);
    assert Decimal(m, e + d) == Times(m as real, Times(p, q));
    Pow10Above(d);
    ScaledUp(m as real, p, q);
  }

  /** An integer is read as itself, whichever of the two sizes it is stored in. */
  lemma {:induction false} IntegerMeaning(n: Number)
    requires NumberOk(n) && NumberFits(n) && IsInteger(n)
    ensures Meaning(NumberValue(n)) == NumberDenotes(n)
    ensures NumberValue(n).Int32? || NumberValue(n).Int64?
    ensures NumberValue(n).Int32? <==> INT32_MIN <= NumberValue(n).n <= INT32_MAX
  {}

  lemma {:induction false} DoubleMeaning(n: Number)
    requires NumberOk(n) && NumberFits(n) && !IsInteger(n)
    ensures Meaning(NumberValue(n)) ==
      if UsedScale(n) >= -307 then AReal(Signed(n.negative, Decimal(Mantissa(n), UsedScale(n))))
      else AInfinity(!n.negative)
  {
    assert UsedScale(n) >= -307 ==> NumberValue(n) == Double(n.negative, Mantissa(n), UsedScale(n));
  }

  lemma {:induction false} SignedIff(negative: bool, a: real, b: real)
    ensures Signed(negative, a) == Signed(negative, b) <==> a == b
  {}

  /**
   Any other number is read as its value exactly when its scale does not run below the table of
   powers and no minus sign in its exponent matters: the library does not see that sign.
   */
  lemma {:induction false} DoubleMeaningIff(n: Number)
    requires NumberOk(n) && NumberFits(n) && !IsInteger(n)
    ensures Meaning(NumberValue(n)) == NumberDenotes(n) <==>
      UsedScale(n) >= -307
      && (n.exponent.Exponent? && n.exponent.sign.Negative? ==> ExponentSize(n) == 0 || Mantissa(n) == 0)
  {
    DoubleMeaning(n);
    var minus := n.exponent.Exponent? && n.exponent.sign.Negative?;
    var m: nat := Mantissa(n);
    var d: nat := if minus then 2 * ExponentSize(n) else 0;
    assert UsedScale(n) == Scale(n) + d;
    ScaleMatters(m, Scale(n), d);
    SignedIff(n.negative, Decimal(m, Scale(n)), Decimal(m, UsedScale(n)));
  }

  /** The first example: 1e-5 is read as 1e5. */
  lemma {:induction false} MinusExponentExample()
    ensures var n := Number(false, [49], [], Exponent(false, Negative, [53]));
      && NumberOk(n) && NumberFits(n)
      && NumberValue(n) == Double(false, 1, 5) && Meaning(NumberValue(n)) != NumberDenotes(n)
  {
    var n := Number(false, [49], [], Exponent(false, Negative, [53]));
    assert DigitsValue([49], 0) == DigitsValue([], 1) == 1;
    assert DigitsValue([53], 0) == DigitsValue([], 5) == 5;
    DoubleMeaningIff(n);
  }
}
