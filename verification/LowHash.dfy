/** The low seven bits of the FNV-1a hash of ASCII names, which decide the home in tables of up to 128 slots. */
module LowHash {
  import opened Basics
  import opened Bits
  import opened Hash

  function Differ(a: nat, b: nat): nat {
    if a % 2 != b % 2 then 1 else 0
  }

  /** The exclusive or of two numbers of seven bits, bit by bit. */
  function XorLow(a: nat, b: nat): nat {
    Differ(a, b) + 2 * Differ(a / 2, b / 2) + 4 * Differ(a / 4, b / 4) + 8 * Differ(a / 8, b / 8)
    + 16 * Differ(a / 16, b / 16) + 32 * Differ(a / 32, b / 32) + 64 * Differ(a / 64, b / 64)
  }

  lemma {:induction false} XorBit(a: nat, b: nat)
    ensures Xor(a, b) == Differ(a, b) + 2 * Xor(a / 2, b / 2)
  {}

  lemma {:induction false} XorTwoBits(a: nat, b: nat)
    ensures Xor(a, b) == Differ(a, b) + 2 * Differ(a / 2, b / 2) + 4 * Xor(a / 4, b / 4)
  {
    XorBit(a, b);
    XorBit(a / 2, b / 2);
    assert a / 2 / 2 == a / 4 && b / 2 / 2 == b / 4;
  }

  lemma {:induction false} XorLowIs(a: nat, b: nat)
    requires a < 128
    ensures Xor(a, b) == XorLow(a, b) + 128 * (b / 128)
  {
    XorTwoBits(a, b);
    XorTwoBits(a / 4, b / 4);
    XorTwoBits(a / 16, b / 16);
    XorBit(a / 64, b / 64);
    assert a / 64 / 2 == 0;
    assert a / 4 / 4 == a / 16 && a / 16 / 4 == a / 64 && b / 4 / 4 == b / 16 && b / 16 / 4 == b / 64;
    assert a / 4 / 2 == a / 8 && b / 4 / 2 == b / 8 && a / 16 / 2 == a / 32 && b / 16 / 2 == b / 32;
    assert b / 64 / 2 == b / 128;
  }

  lemma {:induction false} DifferLow(a: nat, b: nat, g: nat)
    ensures Differ(a, b + 2 * g) == Differ(a, b)
  {}

  lemma {:induction false} XorLowOfLow(a: nat, g: nat, l: nat)
    ensures XorLow(a, 128 * g + l) == XorLow(a, l)
  {
    DifferLow(a, l, 64 * g);
    DifferLow(a / 2, l / 2, 32 * g);
    DifferLow(a / 4, l / 4, 16 * g);
    DifferLow(a / 8, l / 8, 8 * g);
    DifferLow(a / 16, l / 16, 4 * g);
    DifferLow(a / 32, l / 32, 2 * g);
    DifferLow(a / 64, l / 64, g);
    Halves(g, l);
  }

  lemma {:induction false} Halves(g: nat, l: nat)
    ensures var b := 128 * g + l;
      && b / 2 == l / 2 + 2 * (32 * g) && b / 4 == l / 4 + 2 * (16 * g) && b / 8 == l / 8 + 2 * (8 * g)
      && b / 16 == l / 16 + 2 * (4 * g) && b / 32 == l / 32 + 2 * (2 * g) && b / 64 == l / 64 + 2 * g
  {}

  predicate IsAscii(s: bytes) {
    forall i :: 0 <= i < |s| ==> s[i] < 128
  }

  /** What the low seven bits of the hash become; they depend on nothing else of it. */
  function LowStep(low: nat, c: nat): (r: nat)
    ensures r < 128
  {
    XorLow(c, low) * 19 % 128
  }

  function LowFold(s: bytes, low: nat): (r: nat)
    requires low < 128
    ensures r < 128
  {
    if s == [] then low else LowFold(s[1..], LowStep(low, s[0]))
  }

  lemma {:induction false} StepSplit(h: nat, c: byte)
    requires c < 128
    ensures Xor(c, h) == XorLow(c, h % 128) + 128 * (h / 128)
  {
    XorLowIs(c, h);
    XorLowOfLow(c, h / 128, h % 128);
  }

  lemma {:induction false} ProductLow(x: nat, g: nat)
    ensures ((x + 128 * g) * FNV_PRIME) % WORD % 128 == x * 19 % 128
  {
    var y := (x + 128 * g) * FNV_PRIME;
    var q := y / WORD;
    var k := g * FNV_PRIME + x * 131075;
    assert y % WORD == y - q * WORD;
    assert y == x * 19 + 128 * k;
    var r, d := x * 19 % 128, x * 19 / 128;
    DivModUnique(y % WORD, 128, d + k - q * 33554432, r);
  }

  lemma {:induction false} StepLow(h: nat, c: byte)
    requires c < 128
    ensures FnvStep(h, c) % 128 == LowStep(h % 128, c)
  {
    StepSplit(h, c);
    ProductLow(XorLow(c, h % 128), h / 128);
  }

  lemma {:induction false} FoldLow(s: bytes, h: nat, low: nat)
    requires IsAscii(s) && h % 128 == low
    ensures FnvFold(s, h) % 128 == LowFold(s, low)
  {
    if s != [] {
      StepLow(h, s[0]);
      FoldLow(s[1..], FnvStep(h, s[0]), LowStep(low, s[0]));
    }
  }

  /** The low bits of a name's hash, from those of the basis. */
  lemma {:induction false} HashLow(s: bytes)
    requires IsAscii(s)
    ensures Fnv1a(s) % 128 == LowFold(s, 69)
  {
    FoldLow(s, FNV_BASIS, 69);
  }

  lemma {:induction false} LowFoldOne(b: byte, low: nat)
    requires low < 128
    ensures LowFold([b], low) == LowStep(low, b)
  {
    assert [b][1..] == [];
  }

  lemma {:induction false} TwoLettersFrom(low: nat, a: byte, b: byte)
    requires low < 128
    ensures LowFold([a, b], low) == LowStep(LowStep(low, a), b)
  {
    assert [a, b][1..] == [b];
    LowFoldOne(b, LowStep(low, a));
  }

  lemma {:induction false} TwoLetters(a: byte, b: byte)
    requires a < 128 && b < 128
    ensures Fnv1a([a, b]) % 128 == LowStep(LowStep(69, a), b)
  {
    HashLow([a, b]);
    TwoLettersFrom(69, a, b);
  }

  /** A name of two letters, from the low bits after each. */
  lemma {:induction false} TwoLetterName(a: byte, b: byte, after: nat, low: nat) returns (name: bytes)
    requires 0 < a < 128 && 0 < b < 128 && XorLow(a, 69) * 19 % 128 == after && XorLow(b, after) * 19 % 128 == low
    ensures |name| == 2 && name[0] == a && name[1] == b && 0 !in name && Fnv1a(name) % 128 == low
  {
    name := [a, b];
    TwoLetters(a, b);
  }

  /** Two letters more, which lead from known low bits to others. */
  lemma {:induction false} TwoLetterEnd(from: nat, a: byte, b: byte, after: nat, low: nat) returns (end: bytes)
    requires from < 128 && 0 < a < 128 && 0 < b < 128 && LowStep(from, a) == after && LowStep(after, b) == low
    ensures |end| == 2 && end[0] == a && end[1] == b && 0 !in end && IsAscii(end) && LowFold(end, from) == low
  {
    end := [a, b];
    TwoLettersFrom(from, a, b);
  }

  lemma {:induction false} OneLetterName(a: byte, low: nat) returns (name: bytes)
    requires 0 < a < 128 && XorLow(a, 69) * 19 % 128 == low
    ensures |name| == 1 && name[0] == a && Fnv1a(name) % 128 == low
  {
    name := [a];
    HashLow(name);
    LowFoldOne(a, 69);
  }
}
