/** Sixty-four bits as a signed integer. */
module Signs {
  type Bits64 = bv64

  /** The integer that the bits stand for in two's complement. */
  function Signed64(v: Bits64): int {
    if v < 0x8000_0000_0000_0000 then v as int else -1 - (!v) as int
  }

  predicate FitsInt32(v: Bits64) {
    -0x8000_0000 <= Signed64(v) <= 0x7fff_ffff
  }

  lemma {:induction false} LargeIsLarge(v: Bits64)
    requires v > 0x7fff_ffff
    ensures v as int > 0x7fff_ffff
  {}

  lemma {:induction false} NegativeFits(v: Bits64)
    requires !v <= 0x7fff_ffff
    ensures v >= 0xffff_ffff_8000_0000
  {}

  lemma {:induction false} WithoutSign(v: Bits64)
    requires v < 0x8000_0000_0000_0000
    ensures Signed64(v) == v as int
  {}

  lemma {:induction false} WithSign(v: Bits64)
    requires v >= 0x8000_0000_0000_0000
    ensures Signed64(v) == -1 - (!v) as int
  {}

  lemma {:induction false} NonNegativeAsBits(v: Bits64)
    requires v as int <= 0x7fff_ffff
    ensures v <= 0x7fff_ffff
  {
    if v > 0x7fff_ffff { LargeIsLarge(v); }
  }

  lemma {:induction false} FitsWithoutSign(v: Bits64)
    requires v < 0x8000_0000_0000_0000 && FitsInt32(v)
    ensures v as int <= 0x7fff_ffff
  {
    WithoutSign(v);
  }

  lemma {:induction false} FitsWithSign(v: Bits64, u: Bits64)
    requires v >= 0x8000_0000_0000_0000 && FitsInt32(v) && u == !v
    ensures u as int <= 0x7fff_ffff
  {
    WithSign(v);
  }

  lemma {:induction false} NonNegativeFits(v: Bits64)
    requires v < 0x8000_0000_0000_0000 && FitsInt32(v)
    ensures v <= 0x7fff_ffff
  {
    FitsWithoutSign(v);
    NonNegativeAsBits(v);
  }

  lemma {:induction false} FitsBelow(v: Bits64, u: Bits64)
    requires v >= 0x8000_0000_0000_0000 && FitsInt32(v) && u == !v
    ensures u <= 0x7fff_ffff
  {
    FitsWithSign(v, u);
    NonNegativeAsBits(u);
  }

  /** An integer of 32 bits has its upper 33 bits all clear or all set. */
  lemma {:induction false} FitsAsBits(v: Bits64)
    requires FitsInt32(v)
    ensures v <= 0x7fff_ffff || v >= 0xffff_ffff_8000_0000
  {
    if v < 0x8000_0000_0000_0000 {
      NonNegativeFits(v);
    } else {
      FitsBelow(v, !v);
      NegativeFits(v);
    }
  }

  lemma {:induction false} SmallHalf(v: Bits64)
    requires v <= 0x7fff_ffff
    ensures v & 0xffff_ffff == v && v < 0x8000_0000
  {}

  lemma {:induction false} LargeHalf(v: Bits64)
    requires v >= 0xffff_ffff_8000_0000
    ensures (v & 0xffff_ffff) | 0xffff_ffff_0000_0000 == v && v & 0xffff_ffff >= 0x8000_0000
  {}

  lemma {:induction false} LowHalf(v: Bits64)
    ensures v & 0xffff_ffff < 0x1_0000_0000
  {}
}
