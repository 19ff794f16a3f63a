/** Hexadecimal digits and the codes of four of them, against the digits written out. */
module HexDigits {
  import opened Basics
  import opened Utf8
  import opened Grammar
  import opened ParserSpec

  /** The digit for v, in lower or upper case. */
  function Digit(v: nat, upper: bool): byte
    requires v < 16
  {
    if upper then "0123456789ABCDEF"[v] as byte else "0123456789abcdef"[v] as byte
  }

  /** Every digit of either case is read as its value. */
  lemma {:induction false} DigitIsRead(v: nat, upper: bool, k: bytes)
    requires v < 16 && k != []
    ensures PHex([Digit(v, upper)] + k) == Ok(v, k)
  {
    assert ([Digit(v, upper)] + k)[1..] == k;
  }

  /** At the end of the stream the next read goes past it. */
  lemma {:induction false} DigitAtEnd(v: nat, upper: bool)
    requires v < 16
    ensures PHex([]) == PHex([Digit(v, upper)]) == Fail(Undefined)
  {}

  lemma {:induction false} DigitOfValue(c: byte)
    ensures IsHex(c) ==> Digit(HexValue(c), false) == c || Digit(HexValue(c), true) == c
  {}

  /** And no other byte is a digit. */
  lemma {:induction false} OthersAreNot(c: byte, k: bytes)
    requires forall v: nat, upper: bool :: v < 16 ==> Digit(v, upper) != c
    ensures !IsHex(c) && PHex([c] + k) == Fail(Thrown(InvalidHexDigit))
  {
    DigitOfValue(c);
    assert ([c] + k)[0] == c;
  }

  /** The numeral of four digits; the cases of the digits may be mixed. */
  function Numeral(code: nat, u0: bool, u1: bool, u2: bool, u3: bool): bytes
    requires code < 0x10000
  {
    [Digit(code / 4096, u0), Digit(code / 256 % 16, u1), Digit(code / 16 % 16, u2), Digit(code % 16, u3)]
  }

  lemma {:induction false} FourDigits(code: nat)
    requires code < 0x10000
    ensures code / 4096 * 4096 + code / 256 % 16 * 256 + code / 16 % 16 * 16 + code % 16 == code
  {
    assert code / 4096 == code / 256 / 16;
    assert code / 256 == code / 16 / 16;
  }

  lemma {:induction false} ThreeAreRead(b: nat, u1: bool, c: nat, u2: bool, d: nat, u3: bool, k: bytes)
    requires b < 16 && c < 16 && d < 16 && k != []
    ensures var r1 := [Digit(c, u2)] + ([Digit(d, u3)] + k);
      && PHex([Digit(b, u1)] + r1) == Ok(b, r1) && PHex(r1) == Ok(c, [Digit(d, u3)] + k)
      && PHex([Digit(d, u3)] + k) == Ok(d, k)
  {
    DigitIsRead(d, u3, k);
    DigitIsRead(c, u2, [Digit(d, u3)] + k);
    DigitIsRead(b, u1, [Digit(c, u2)] + ([Digit(d, u3)] + k));
  }

  /** The text of four digits in turn, and what is behind it. */
  function FourText(a: byte, b: byte, c: byte, d: byte, k: bytes): bytes {
    [a] + ([b] + ([c] + ([d] + k)))
  }

  lemma {:induction false} FourAreRead(a: nat, u0: bool, b: nat, u1: bool, c: nat, u2: bool, d: nat, u3: bool,
                                       code: nat, k: bytes)
    requires a < 16 && b < 16 && c < 16 && d < 16 && k != [] && a * 4096 + b * 256 + c * 16 + d == code
    ensures PUnicode(FourText(Digit(a, u0), Digit(b, u1), Digit(c, u2), Digit(d, u3), k)) == Ok(WriteUnicode(code), k)
  {
    ThreeAreRead(b, u1, c, u2, d, u3, k);
    DigitIsRead(a, u0, [Digit(b, u1)] + ([Digit(c, u2)] + ([Digit(d, u3)] + k)));
  }

  lemma {:induction false} FourInTurn(a: byte, b: byte, c: byte, d: byte, k: bytes)
    ensures [a, b, c, d] + k == FourText(a, b, c, d, k)
  {}

  lemma {:induction false} NumeralText(code: nat, u0: bool, u1: bool, u2: bool, u3: bool, k: bytes)
    requires code < 0x10000
    ensures Numeral(code, u0, u1, u2, u3) + k == FourText(Digit(code / 4096, u0), Digit(code / 256 % 16, u1),
      Digit(code / 16 % 16, u2), Digit(code % 16, u3), k)
  {
    FourInTurn(Digit(code / 4096, u0), Digit(code / 256 % 16, u1), Digit(code / 16 % 16, u2), Digit(code % 16, u3), k);
  }

  /** Every code of four digits is read as the bytes that are written for it. */
  lemma {:induction false} CodeIsRead(code: nat, u0: bool, u1: bool, u2: bool, u3: bool, k: bytes)
    requires code < 0x10000 && k != []
    ensures PUnicode(Numeral(code, u0, u1, u2, u3) + k) == Ok(WriteUnicode(code), k)
  {
    NumeralText(code, u0, u1, u2, u3, k);
    FourDigits(code);
    FourAreRead(code / 4096, u0, code / 256 % 16, u1, code / 16 % 16, u2, code % 16, u3, code, k);
  }

  /** What a group of bytes stands for in UTF-8: the bits below the tag of its first byte and six bits of each other. */
  function GroupValue(s: bytes): int {
    if |s| == 1 then s[0] as int
    else if |s| == 2 then (s[0] as int - 192) * 64 + (s[1] as int - 128)
    else if |s| == 3 then (s[0] as int - 224) * 4096 + (s[1] as int - 128) * 64 + (s[2] as int - 128)
    else if |s| == 4 then
      (s[0] as int - 240) * 262144 + (s[1] as int - 128) * 4096 + (s[2] as int - 128) * 64 + (s[3] as int - 128)
    else -1
  }

  /** Section 3 of RFC 3629: the shortest group, its first byte tagged with the length, the others with 10. */
  lemma {:induction false} CodeIsWritten(code: nat)
    ensures var s := WriteUnicode(code);
      if code > 1114111 then s == []
      else
        && |s| == (if code < 128 then 1 else if code < 2048 then 2 else if code < 65536 then 3 else 4)
        && GroupValue(s) == code && (forall i :: 1 <= i < |s| ==> 128 <= s[i] < 192)
        && (|s| == 2 ==> 192 <= s[0] < 224) && (|s| == 3 ==> 224 <= s[0] < 240) && (|s| == 4 ==> 240 <= s[0] < 248)
  {
    assert code / 262144 == code / 4096 / 64;
    assert code / 4096 == code / 64 / 64;
  }
}
