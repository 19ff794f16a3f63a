/** The two halves of the library's UTF-8 support: writeUnicode and the scan that feeds the printer. */
module Utf8 {
  import opened Basics
  import opened Bits

  const MAX_CODE := 0x10FFFF

  /** The bytes writeUnicode appends for one code; nothing above the last code point. */
  function WriteUnicode(data: nat): bytes {
    if data <= 0x7f then [data]
    else if data <= 0x7ff then [0xc0 + data / 64, 0x80 + data % 64]
    else if data <= 0xffff then [0xe0 + data / 4096, 0x80 + data / 64 % 64, 0x80 + data % 64]
    else if data <= MAX_CODE then
      [0xf0 + data / 262144, 0x80 + data / 4096 % 64, 0x80 + data / 64 % 64, 0x80 + data % 64]
    else []
  }

  /** The same bytes from C's bit operations: tag | (data >> shift), with six bits kept after the lead. */
  lemma {:induction false} LeadBits(tag: nat, high: nat, k: nat, a: nat)
    requires tag == a * Pow2(k) && high < Pow2(k)
    ensures Or(tag, high) == tag + high
  {
    OrDisjoint(a, high, k);
  }

  lemma {:induction false} TailBits(x: nat)
    ensures Or(0x80, And(x, 0x3f)) == 0x80 + x % 64
  {
    assert Pow2(6) == 64 by { assert Pow2(3) == 8; }
    AndMask(x, 6);
    LeadBits(0x80, x % 64, 6, 2);
  }

  /** utf8_check_size: the length a lead byte announces, 0 for none. */
  function LeadSize(u: byte): nat {
    if 0xc2 <= u <= 0xdf then 2 else if 0xe0 <= u <= 0xef then 3 else if 0xf0 <= u <= 0xf4 then 4 else 0
  }

  /** The loop of toUTF8: up to left continuation bytes, fewer at the end of the string. */
  function Continue(s: bytes, left: nat, v: nat): (r: Option<(nat, bytes)>)
    ensures r.Some? ==> |r.value.1| <= |s|
  {
    if left == 0 || s == [] then Some((v, s))
    else if s[0] < 0x80 || s[0] > 0xbf then None
    else Continue(s[1..], left - 1, v * 64 + s[0] % 64)
  }

  /** toUTF8: a code and what follows it; None where the code stalls or leaves the string. */
  function ToCode(s: bytes): (r: Option<(nat, bytes)>)
    requires s != []
    ensures r.Some? ==> |r.value.1| < |s|
  {
    var size := LeadSize(s[0]);
    if size == 0 then None
    else Continue(s[1..], size - 1, s[0] % (if size == 2 then 32 else if size == 3 then 16 else 8))
  }

  /** The codes the printer's scan meets, one per ASCII byte or multi-byte group. */
  function Scan(s: bytes): Option<seq<nat>>
    decreases |s|
  {
    if s == [] then Some([])
    else if s[0] < 0x80 then
      match Scan(s[1..])
      case None => None
      case Some(codes) => Some([s[0]] + codes)
    else
      match ToCode(s)
      case None => None
      case Some((v, rest)) =>
        match Scan(rest)
        case None => None
        case Some(codes) => Some([v] + codes)
  }

  /** The strings the printer's scan gets through. */
  predicate Scannable(s: bytes) {
    Scan(s).Some?
  }

  function EncodeAll(codes: seq<nat>): bytes {
    if codes == [] then [] else WriteUnicode(codes[0]) + EncodeAll(codes[1..])
  }

  lemma {:induction false} ContinueStep(x: nat, s: bytes, left: nat, v: nat)
    requires left > 0 && x < 64
    ensures Continue([0x80 + x] + s, left, v) == Continue(s, left - 1, v * 64 + x)
  {
    assert ([0x80 + x] + s)[1..] == s;
  }

  lemma {:induction false} Back2(a: nat, b: nat, rest: bytes)
    requires 2 <= a < 32 && b < 64
    ensures ToCode([0xc0 + a] + ([0x80 + b] + rest)) == Some((a * 64 + b, rest))
  {
    assert (0xc0 + a) % 32 == a;
    ContinueStep(b, rest, 1, a);
  }

  lemma {:induction false} Back3(a: nat, b: nat, c: nat, rest: bytes)
    requires a < 16 && b < 64 && c < 64
    ensures ToCode([0xe0 + a] + ([0x80 + b] + ([0x80 + c] + rest))) == Some(((a * 64 + b) * 64 + c, rest))
  {
    assert (0xe0 + a) % 16 == a;
    ContinueStep(b, [0x80 + c] + rest, 2, a);
    ContinueStep(c, rest, 1, a * 64 + b);
  }

  lemma {:induction false} Back4(a: nat, b: nat, c: nat, d: nat, rest: bytes)
    requires a < 5 && b < 64 && c < 64 && d < 64
    ensures ToCode([0xf0 + a] + ([0x80 + b] + ([0x80 + c] + ([0x80 + d] + rest))))
      == Some((((a * 64 + b) * 64 + c) * 64 + d, rest))
  {
    assert (0xf0 + a) % 8 == a;
    ContinueStep(b, [0x80 + c] + ([0x80 + d] + rest), 3, a);
    ContinueStep(c, [0x80 + d] + rest, 2, a * 64 + b);
    ContinueStep(d, rest, 1, (a * 64 + b) * 64 + c);
  }

  lemma {:induction false} CodeBack2(code: nat, rest: bytes)
    requires 0x80 <= code <= 0x7ff
    ensures ToCode(WriteUnicode(code) + rest) == Some((code, rest))
  {
    Back2(code / 64, code % 64, rest);
    assert WriteUnicode(code) + rest == [0xc0 + code / 64] + ([0x80 + code % 64] + rest);
  }

  lemma {:induction false} CodeBack3(code: nat, rest: bytes)
    requires 0x7ff < code <= 0xffff
    ensures ToCode(WriteUnicode(code) + rest) == Some((code, rest))
  {
    var high, c, d := code / 4096, code / 64 % 64, code % 64;
    assert (high * 64 + c) * 64 + d == code;
    Back3(high, c, d, rest);
    assert WriteUnicode(code) + rest == [0xe0 + high] + ([0x80 + c] + ([0x80 + d] + rest));
  }

  lemma {:induction false} CodeBack4(code: nat, rest: bytes)
    requires 0xffff < code <= MAX_CODE
    ensures ToCode(WriteUnicode(code) + rest) == Some((code, rest))
  {
    var high, b, c, d := code / 262144, code / 4096 % 64, code / 64 % 64, code % 64;
    assert code / 4096 == high * 64 + b;
    assert ((high * 64 + b) * 64 + c) * 64 + d == code;
    Back4(high, b, c, d, rest);
    assert WriteUnicode(code) + rest == [0xf0 + high] + ([0x80 + b] + ([0x80 + c] + ([0x80 + d] + rest)));
  }

  /** Whatever codes are written, the scan reads the same ones back and ends. */
  lemma {:induction false} ScanBack(codes: seq<nat>)
    requires forall i :: 0 <= i < |codes| ==> codes[i] <= MAX_CODE
    ensures Scan(EncodeAll(codes)) == Some(codes)
  {
    if codes != [] {
      var c, rest := codes[0], EncodeAll(codes[1..]);
      ScanBack(codes[1..]);
      var s := WriteUnicode(c) + rest;
      assert s[0] == WriteUnicode(c)[0];
      assert codes == [c] + codes[1..];
      if c < 0x80 {
        assert s[1..] == rest;
      } else {
        if c <= 0x7ff { CodeBack2(c, rest); } else if c <= 0xffff { CodeBack3(c, rest); } else { CodeBack4(c, rest); }
        assert s[0] >= 0x80;
      }
    }
  }

  lemma {:induction false} AsciiScannable(s: bytes)
    requires forall i :: 0 <= i < |s| ==> s[i] < 0x80
    ensures Scan(s) == Some(s)
  {
    if s != [] {
      AsciiScannable(s[1..]);
      assert [s[0]] + s[1..] == s;
    }
  }
}
