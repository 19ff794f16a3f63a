/** The bit operations of C's unsigned integers, written on natural numbers. */
module Bits {

  function Pow2(k: nat): (p: nat)
    ensures p > 0
  {
    if k == 0 then 1 else 2 * Pow2(k - 1)
  }

  /** `a & b`. */
  function And(a: nat, b: nat): nat {
    if a == 0 || b == 0 then 0
    else 2 * And(a / 2, b / 2) + (if a % 2 == 1 && b % 2 == 1 then 1 else 0)
  }

  /** `a | b`. */
  function Or(a: nat, b: nat): nat {
    if a == 0 then b else if b == 0 then a
    else 2 * Or(a / 2, b / 2) + (if a % 2 == 1 || b % 2 == 1 then 1 else 0)
  }

  /** `a ^ b`. */
  function Xor(a: nat, b: nat): nat {
    if a == 0 then b else if b == 0 then a
    else 2 * Xor(a / 2, b / 2) + (if a % 2 != b % 2 then 1 else 0)
  }

  /** The number of binary digits of n: the word size minus the count of leading zeros. */
  function BitLength(n: nat): nat {
    if n == 0 then 0 else 1 + BitLength(n / 2)
  }

  /** The macro LOG2, which is undefined at 0 and 1 (there it counts the leading zeros of no set bit). */
  function Log2(n: nat): nat
    requires n >= 2
  {
    BitLength(n - 1)
  }

  lemma {:induction false} DivModUnique(x: int, m: int, q: int, r: int)
    requires 0 <= r < m && x == q * m + r
    ensures x / m == q && x % m == r
  {
    var d := x / m - q;
    assert d * m == r - x % m;
    assert d >= 1 ==> d * m >= m;
    assert d <= -1 ==> d * m <= -m;
  }

  lemma {:induction false} HalfModulo(x: nat, m: nat)
    requires m > 0
    ensures x % (2 * m) == 2 * ((x / 2) % m) + x % 2
  {
    var q, r := (x / 2) / m, (x / 2) % m;
    DivModUnique(x, 2 * m, q, 2 * r + x % 2);
  }

  /** Masking with one less than a power of two is the remainder by that power. */
  lemma {:induction false} AndMask(x: nat, k: nat)
    ensures And(x, Pow2(k) - 1) == x % Pow2(k)
  {
    if k > 0 {
      var m := Pow2(k - 1);
      AndMask(x / 2, k - 1);
      HalfModulo(x, m);
      AndOddMask(x, m - 1);
      assert Pow2(k) - 1 == 2 * (m - 1) + 1;
    }
  }

  lemma {:induction false} AndOddMask(x: nat, m: nat)
    ensures And(x, 2 * m + 1) == 2 * And(x / 2, m) + x % 2
  {
    assert (2 * m + 1) / 2 == m && (2 * m + 1) % 2 == 1;
  }

  lemma {:induction false} OrStep(a: nat, b: nat)
    ensures Or(2 * a, b) == 2 * Or(a, b / 2) + b % 2
  {}

  lemma {:induction false} MulDouble(a: nat, p: nat)
    ensures a * (2 * p) == 2 * (a * p)
  {}

  /** Joining a shifted high part with a low part that fits below it is addition. */
  lemma {:induction false} OrDisjoint(a: nat, b: nat, k: nat)
    requires b < Pow2(k)
    ensures Or(a * Pow2(k), b) == a * Pow2(k) + b
  {
    if k > 0 {
      var p := Pow2(k - 1);
      MulDouble(a, p);
      OrDisjoint(a, b / 2, k - 1);
      OrStep(a * p, b);
    } else {
      assert Or(a, 0) == a && a * 1 == a;
    }
  }

  /** LOG2 rounds up: it is the least exponent whose power of two reaches n. */
  lemma {:induction false} Log2RoundsUp(n: nat)
    requires n >= 2
    ensures Pow2(Log2(n) - 1) < n <= Pow2(Log2(n))
  {
    BitLengthBounds(n - 1);
  }

  lemma {:induction false} BitLengthBounds(n: nat)
    requires n >= 1
    ensures BitLength(n) >= 1
    ensures Pow2(BitLength(n) - 1) <= n < Pow2(BitLength(n))
  {
    if n == 1 {
      assert BitLength(1) == 1 + BitLength(0);
      assert Pow2(1) == 2 * Pow2(0);
    } else {
      BitLengthBounds(n / 2);
    }
  }

  /** Binary digit i of n. */
  predicate Bit(n: nat, i: nat) {
    if i == 0 then n % 2 == 1 else Bit(n / 2, i - 1)
  }

  lemma {:induction false} NoBits(i: nat)
    ensures !Bit(0, i)
  {
    if i > 0 { NoBits(i - 1); }
  }

  /** The three operations work on each binary digit by itself. */
  lemma {:induction false} DigitByDigit(a: nat, b: nat, i: nat)
    ensures Bit(And(a, b), i) <==> Bit(a, i) && Bit(b, i)
    ensures Bit(Or(a, b), i) <==> Bit(a, i) || Bit(b, i)
    ensures Bit(Xor(a, b), i) <==> Bit(a, i) != Bit(b, i)
  {
    NoBits(i);
    if i > 0 { DigitByDigit(a / 2, b / 2, i - 1); }
  }
}
