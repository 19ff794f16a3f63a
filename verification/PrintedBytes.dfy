/** What the printer writes for each byte of a string, with the bytes written out. */
module PrintedBytes {
  import opened Basics
  import opened Utf8
  import opened Numerals
  import opened HexDigits
  import opened Printer

  /** Eight bytes are printed as a backslash and a letter: the quote, the backslash, the slash, and b, f, n, r, t. */
  lemma {:induction false} EscapedBytes(rest: bytes)
    requires Scannable(rest)
    ensures forall c: byte :: c in [34, 92, 47, 8, 12, 10, 13, 9] ==> Scannable([c] + rest)
    ensures Escape([34] + rest) == [92, 34] + Escape(rest)
    ensures Escape([92] + rest) == [92, 92] + Escape(rest)
    ensures Escape([47] + rest) == [92, 47] + Escape(rest)
    ensures Escape([8] + rest) == [92, 98] + Escape(rest)
    ensures Escape([12] + rest) == [92, 102] + Escape(rest)
    ensures Escape([10] + rest) == [92, 110] + Escape(rest)
    ensures Escape([13] + rest) == [92, 114] + Escape(rest)
    ensures Escape([9] + rest) == [92, 116] + Escape(rest)
  {
    forall c: byte | c < 128
      ensures Scannable([c] + rest) && Escape([c] + rest) == EscapeByte(c) + Escape(rest)
    {
      assert ([c] + rest)[1..] == rest;
    }
  }

  /** Every other ASCII byte is printed as it is. */
  lemma {:induction false} OtherBytes(c: byte, rest: bytes)
    requires Scannable(rest) && c < 128 && c !in [34, 92, 47, 8, 12, 10, 13, 9]
    ensures Scannable([c] + rest) && Escape([c] + rest) == [c] + Escape(rest)
  {
    assert ([c] + rest)[1..] == rest;
  }

  /** A code beyond ASCII is printed as a backslash, u and its hexadecimal digits. */
  lemma {:induction false} OtherCodes(code: nat, rest: bytes)
    requires Scannable(rest) && 128 <= code <= 1114111
    ensures Scannable(WriteUnicode(code) + rest)
    ensures Escape(WriteUnicode(code) + rest) == [92, 117] + HexOf(code) + Escape(rest)
  {
    if code <= 0x7ff { CodeBack2(code, rest); }
    else if code <= 0xffff { CodeBack3(code, rest); }
    else { CodeBack4(code, rest); }
    CodeIsWritten(code);
    assert (WriteUnicode(code) + rest)[0] == WriteUnicode(code)[0] >= 128;
  }

  /** What is printed is ASCII, and none of the control characters that have a letter of their own. */
  lemma {:induction false} NoControls(s: bytes, b: byte)
    requires Scannable(s) && b in Escape(s)
    ensures b < 128 && b !in [8, 9, 10, 12, 13]
    decreases |s|
  {
    if s[0] < 128 {
      if b !in EscapeByte(s[0]) { NoControls(s[1..], b); }
    } else {
      var Some((v, rest)) := ToCode(s);
      if b in HexOf(v) {
        HexOfDigits(v, b);
      } else if b != 92 && b != 117 {
        NoControls(rest, b);
      }
    }
  }

  lemma {:induction false} HexOfDigits(v: nat, b: byte)
    requires b in HexOf(v)
    ensures exists d: nat :: d < 16 && b == Digit(d, false)
  {
    if v < 16 {
      assert b == Digit(v, false);
    } else if b !in HexOf(v / 16) {
      assert b == Digit(v % 16, false);
    } else {
      HexOfDigits(v / 16, b);
    }
  }

  /** The number that lower-case hexadecimal digits stand for. */
  function HexNumber(s: bytes): nat {
    if s == [] then 0
    else
      var c := s[|s| - 1];
      16 * HexNumber(s[..|s| - 1]) + if 48 <= c <= 57 then c - 48 else if 97 <= c <= 102 then c - 87 else 0
  }

  /** The digits printed for a code stand for it, and do not start with 0 unless it is 0. */
  lemma {:induction false} HexOfValue(v: nat)
    ensures HexNumber(HexOf(v)) == v && (HexOf(v)[0] == 48 <==> v == 0)
    ensures forall b :: b in HexOf(v) ==> 48 <= b <= 57 || 97 <= b <= 102
  {
    if v >= 16 {
      HexOfValue(v / 16);
      var s := HexOf(v);
      assert s[..|s| - 1] == HexOf(v / 16);
    } else {
      var s := HexOf(v);
      assert s[..0] == [];
    }
  }
}
