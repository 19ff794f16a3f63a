/** The parser's two ways through a string, fast and escaped, both read the string the text denotes. */
module StringProofs {
  import opened Basics
  import opened Utf8
  import opened Json
  import opened Grammar
  import opened ParserSpec

  lemma {:induction false} SkipSpaces(ws: bytes, c: byte, k: bytes)
    requires AllSpace(ws) && !IsSpace(c) && k != []
    ensures var t := ws + ([c] + k); SkipSpace(t[0], t[1..]) == (c, k) && SkipNext(t) == Ok(c, k)
  {
    var t := ws + ([c] + k);
    if ws == [] {
      assert t == [c] + k;
    } else {
      var u := ws[1..] + ([c] + k);
      assert t[1..] == u;
      SkipSpaces(ws[1..], c, k);
    }
  }

  /** For any input: only white space is passed over, up to the first other character or the end of the stream. */
  lemma {:induction false} SkipSpaceExact(c: byte, rest: bytes)
    ensures var (d, q) := SkipSpace(c, rest);
      var k := |rest| - |q|;
      && k >= 0 && q == rest[k..] && (forall i :: 0 <= i < k ==> IsSpace(([c] + rest)[i]))
      && (q == [] ==> d == 0) && (q != [] ==> d == ([c] + rest)[k] && !IsSpace(d))
    decreases |rest|
  {
    if rest != [] && IsSpace(c) {
      var all, more := [c] + rest, [rest[0]] + rest[1..];
      SkipSpaceExact(rest[0], rest[1..]);
      assert forall i :: 1 <= i < |all| ==> all[i] == more[i - 1];
    }
  }

  lemma {:induction false} OnlySpaces(ws: bytes, last: byte)
    requires AllSpace(ws)
    ensures var t := ws + [last]; SkipSpace(t[0], t[1..]) == (0, [])
  {
    if ws != [] {
      var t := ws + [last];
      assert t[1..] == ws[1..] + [last];
      OnlySpaces(ws[1..], last);
    } else {
      assert ([] + [last])[1..] == [];
    }
  }

  // ---------------------------------------------------------------- escapes

  lemma {:induction false} HexStep(h: byte, k: bytes)
    requires IsHex(h) && k != []
    ensures PHex([h] + k) == Ok(HexValue(h), k)
  {}

  lemma {:induction false} UnicodeText(c: Char, k: bytes)
    requires c.Unicode? && CharOk(c) && k != []
    ensures PUnicode([c.h0] + ([c.h1] + ([c.h2] + ([c.h3] + k)))) == Ok(WriteUnicode(CodeUnit(c)), k)
  {
    var r3 := [c.h3] + k;
    var r2 := [c.h2] + r3;
    var r1 := [c.h1] + r2;
    HexStep(c.h0, r1);
    HexStep(c.h1, r2);
    HexStep(c.h2, r3);
    HexStep(c.h3, k);
  }

  /** parseEscape on the text of an escape, after its backslash. */
  lemma {:induction false} EscapeText(c: Char, k: bytes)
    requires CharOk(c) && !c.Plain? && k != []
    ensures var t := CharText(c, k); t[0] == BACKSLASH && |t| > 2 && PEscape(t[1], t[2..]) == Ok(CharValue(c), k)
  {
    var t := CharText(c, k);
    if c.Escaped? {
      assert t[2..] == k;
    } else {
      var digits := [c.h0] + ([c.h1] + ([c.h2] + ([c.h3] + k)));
      assert t == [BACKSLASH] + ([117] + digits);
      assert t[2..] == digits;
      UnicodeText(c, k);
    }
  }

  lemma {:induction false} CharsTextNonEmpty(cs: seq<Char>, k: bytes)
    ensures CharsText(cs, k) != []
  {}

  /** The loop after the first escape reads any characters up to the closing quote. */
  lemma {:induction false} TailText(cs: seq<Char>, k: bytes)
    requires CharsOk(cs)
    ensures var t := CharsText(cs, k); PTail(t[0], t[1..]) == Ok(CharsValue(cs), k)
  {
    var t := CharsText(cs, k);
    if cs == [] {
      assert t[1..] == k;
    } else {
      var u := CharsText(cs[1..], k);
      TailText(cs[1..], k);
      CharsTextNonEmpty(cs[1..], k);
      match cs[0] {
        case Plain(b) =>
          assert t[1..] == u;
        case _ =>
          EscapeText(cs[0], u);
          assert t[1..][1..] == t[2..];
      }
    }
  }

  // ---------------------------------------------------------------- the fast scan

  /** How many characters at the front are plain. */
  function PlainPrefix(cs: seq<Char>): (i: nat)
    ensures i <= |cs|
  {
    if cs == [] || !cs[0].Plain? then 0 else 1 + PlainPrefix(cs[1..])
  }

  lemma {:induction false} ScanText(cs: seq<Char>, k: bytes)
    requires CharsOk(cs)
    ensures var t, i := CharsText(cs, k), PlainPrefix(cs);
      var u := CharsText(cs[i..], k);
      && u[0] == (if i == |cs| then QUOTE else BACKSLASH)
      && ScanRaw(t[0], t[1..]) == (CharsValue(cs[..i]), u[0], u[1..])
  {
    var t, i := CharsText(cs, k), PlainPrefix(cs);
    if i == 0 {
      assert cs[0..] == cs && cs[..0] == [];
      if cs != [] {
        EscapeText(cs[0], CharsText(cs[1..], k));
      } else {
        assert t[1..] == k;
      }
    } else {
      var u := CharsText(cs[1..], k);
      assert t[1..] == u;
      ScanText(cs[1..], k);
      assert cs[1..][i - 1..] == cs[i..];
      assert cs[..i][1..] == cs[1..][..i - 1];
      CharsTextNonEmpty(cs[1..], k);
    }
  }

  lemma {:induction false} ValueAppend(a: seq<Char>, b: seq<Char>)
    requires CharsOk(a) && CharsOk(b)
    ensures CharsOk(a + b) && CharsValue(a + b) == CharsValue(a) + CharsValue(b)
  {
    if a == [] {
      assert a + b == b;
    } else {
      assert (a + b)[1..] == a[1..] + b;
      ValueAppend(a[1..], b);
    }
  }

  /** A string without escapes is a plain string, one with escapes carries the other tag. */
  function StringValue(cs: seq<Char>): Json
    requires CharsOk(cs)
  {
    if PlainPrefix(cs) == |cs| then Str(CharsValue(cs)) else UStr(CharsValue(cs))
  }

  lemma {:induction false} TailStep(q: bytes)
    requires q != []
    ensures PTail(BACKSLASH, q) ==
      match PEscape(q[0], q[1..])
      case Fail(f) => Fail(f)
      case Ok(escaped, q1) =>
        if q1 == [] then Fail(Undefined)
        else
          match PTail(q1[0], q1[1..])
          case Fail(f) => Fail(f)
          case Ok(more, q2) => Ok(escaped + more, q2)
  {}

  /** From the first backslash on, parseString does what one more turn of its loop would do. */
  lemma {:induction false} SlowPath(rest: bytes, raw: bytes, q: bytes)
    requires rest != [] && q != [] && ScanRaw(rest[0], rest[1..]) == (raw, BACKSLASH, q)
    ensures PString(QUOTE, rest) ==
      match PTail(BACKSLASH, q)
      case Ok(more, q1) => Ok(UStr(raw + more), q1)
      case Fail(f) => Fail(f)
  {
    TailStep(q);
    match PEscape(q[0], q[1..]) {
      case Fail(_) =>
      case Ok(escaped, q1) =>
        if q1 != [] {
          match PTail(q1[0], q1[1..]) {
            case Fail(_) =>
            case Ok(more, _) => assert raw + (escaped + more) == raw + escaped + more;
          }
        }
    }
  }

  lemma {:induction false} SlowString(cs: seq<Char>, k: bytes)
    requires CharsOk(cs) && PlainPrefix(cs) < |cs|
    ensures PString(QUOTE, CharsText(cs, k)) == Ok(UStr(CharsValue(cs)), k)
  {
    var t, i := CharsText(cs, k), PlainPrefix(cs);
    var escaped := cs[i..];
    var u := CharsText(escaped, k);
    var raw := CharsValue(cs[..i]);
    assert CharsValue(cs) == raw + CharsValue(escaped) by {
      assert cs[..i] + escaped == cs;
      ValueAppend(cs[..i], escaped);
    }
    assert PTail(BACKSLASH, u[1..]) == Ok(CharsValue(escaped), k) && u[1..] != [] by {
      ScanText(cs, k);
      TailText(escaped, k);
      EscapeText(escaped[0], CharsText(escaped[1..], k));
    }
    assert ScanRaw(t[0], t[1..]) == (raw, BACKSLASH, u[1..]) by { ScanText(cs, k); }
    SlowPath(t, raw, u[1..]);
  }

  /** parseString reads the string and stops just after the closing quote, whichever path it takes. */
  lemma {:induction false} StringParses(cs: seq<Char>, k: bytes)
    requires CharsOk(cs)
    ensures PString(QUOTE, CharsText(cs, k)) == Ok(StringValue(cs), k)
  {
    if PlainPrefix(cs) < |cs| {
      SlowString(cs, k);
    } else {
      ScanText(cs, k);
      assert cs[..|cs|] == cs && cs[|cs|..] == [];
      assert CharsText([], k)[1..] == k;
    }
  }
}
