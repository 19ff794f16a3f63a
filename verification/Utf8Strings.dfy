/** Strings whose text is well-formed UTF-8: the printer's scan gets through what the parser makes of them. */
module Utf8Strings {
  import opened Basics
  import opened Utf8
  import opened Grammar
  import opened RoundTrip

  /** A code point written out, or an escape. */
  datatype Piece = Written(code: nat) | Escape(c: Char)

  predicate PieceOk(p: Piece) {
    match p
    case Written(code) => code <= MAX_CODE && code != QUOTE && code != BACKSLASH && code != TAB && code != LF
    case Escape(c) => CharOk(c) && !c.Plain?
  }

  predicate PiecesOk(ps: seq<Piece>) {
    forall i :: 0 <= i < |ps| ==> PieceOk(ps[i])
  }

  /** The characters of a string made of these pieces. */
  function CharsOf(ps: seq<Piece>): seq<Char> {
    if ps == [] then [] else PieceChars(ps[0]) + CharsOf(ps[1..])
  }

  function PieceChars(p: Piece): seq<Char> {
    match p
    case Written(code) => PlainChars(WriteUnicode(code))
    case Escape(c) => [c]
  }

  /** Their codes: an escape of four digits stands for one, be it half of a surrogate pair. */
  function CodesOf(ps: seq<Piece>): (codes: seq<nat>)
    requires PiecesOk(ps)
    ensures |codes| == |ps|
  {
    seq(|ps|, i requires 0 <= i < |ps| => PieceCode(ps[i]))
  }

  function PieceCode(p: Piece): nat
    requires PieceOk(p)
  {
    match p
    case Written(code) => code
    case Escape(Escaped(letter)) => Unescape(letter).value
    case Escape(Unicode(h0, h1, h2, h3)) => CodeUnit(Unicode(h0, h1, h2, h3))
  }

  lemma {:induction false} PieceIs(p: Piece)
    requires PieceOk(p)
    ensures CharsOk(PieceChars(p)) && CharsValue(PieceChars(p)) == WriteUnicode(PieceCode(p))
    ensures PieceCode(p) <= MAX_CODE
  {
    match p {
      case Written(code) => PlainCharsText(WriteUnicode(code), []);
      case Escape(c) =>
        assert [c][1..] == [];
        assert CharsValue([c]) == CharValue(c) + [] == CharValue(c);
    }
  }

  lemma {:induction false} CharsTogether(a: seq<Char>, b: seq<Char>)
    requires CharsOk(a) && CharsOk(b)
    ensures CharsOk(a + b) && CharsValue(a + b) == CharsValue(a) + CharsValue(b)
  {
    if a == [] {
      assert a + b == b;
    } else {
      CharsTogether(a[1..], b);
      assert (a + b)[1..] == a[1..] + b;
      Assoc(CharValue(a[0]), CharsValue(a[1..]), CharsValue(b));
    }
  }

  lemma {:induction false} StringIsEncoded(ps: seq<Piece>)
    requires PiecesOk(ps)
    ensures CharsOk(CharsOf(ps)) && CharsValue(CharsOf(ps)) == EncodeAll(CodesOf(ps))
  {
    if ps != [] {
      StringIsEncoded(ps[1..]);
      PieceIs(ps[0]);
      CharsTogether(PieceChars(ps[0]), CharsOf(ps[1..]));
      assert CodesOf(ps)[1..] == CodesOf(ps[1..]);
    }
  }

  /** The printer's scan of the string made from well-formed UTF-8 and escapes ends, and meets one code for each. */
  lemma {:induction false} WellFormedScans(ps: seq<Piece>)
    requires PiecesOk(ps)
    ensures CharsOk(CharsOf(ps)) && Scannable(CharsValue(CharsOf(ps)))
    ensures Scan(CharsValue(CharsOf(ps))) == Some(CodesOf(ps))
  {
    StringIsEncoded(ps);
    forall i | 0 <= i < |ps|
      ensures CodesOf(ps)[i] <= MAX_CODE
    {
      PieceIs(ps[i]);
    }
    ScanBack(CodesOf(ps));
  }

  /** How many bytes a group has by its first byte; 0 where none may start. */
  function GroupLength(b: byte): nat {
    if b < 128 then 1 else if b < 194 then 0 else if b < 224 then 2 else if b < 240 then 3 else if b < 245 then 4 else 0
  }

  lemma {:induction false} ContinueIff(s: bytes, left: nat, v: nat)
    ensures var n := if left < |s| then left else |s|;
      Continue(s, left, v).Some? <==> forall i :: 0 <= i < n ==> 128 <= s[i] < 192
  {
    if left > 0 && s != [] { ContinueIff(s[1..], left - 1, v * 64 + s[0] % 64); }
  }

  /** A code beyond ASCII is found exactly where a group starts and those of its bytes that are there go on with it. */
  lemma {:induction false} CodeIff(s: bytes)
    requires s != [] && s[0] >= 128
    ensures var n := GroupLength(s[0]);
      ToCode(s).Some? <==> n > 0 && forall i :: 1 <= i < n && i < |s| ==> 128 <= s[i] < 192
  {
    if LeadSize(s[0]) > 0 {
      var size := LeadSize(s[0]);
      ContinueIff(s[1..], size - 1, s[0] % (if size == 2 then 32 else if size == 3 then 16 else 8));
    }
  }
}
