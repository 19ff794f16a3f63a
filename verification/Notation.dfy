/** The grammar's texts and its classes of bytes, with the characters written out. */
module Notation {
  import opened Basics
  import opened Json
  import opened Grammar
  import opened ParserSpec

  /** The bytes of an ASCII text. */
  function Ascii(s: string): (r: bytes)
    requires forall i :: 0 <= i < |s| ==> s[i] < 128 as char
    ensures |r| == |s|
  {
    seq(|s|, i requires 0 <= i < |s| => s[i] as byte)
  }

  // ---------------------------------------------------------------- classes of bytes

  /** Sections 2, 2.4 and 2.5 of RFC 4627; the parser stops at no control character but tab and line feed. */
  lemma {:induction false} Classes(c: byte)
    ensures IsSpace(c) <==> c in Ascii(" \t\n\r")
    ensures IsDigit(c) <==> c in Ascii("0123456789")
    ensures CharOk(Plain(c)) <==> c !in Ascii("\"\\\t\n")
    ensures Stops(c) <==> c in Ascii("\"\\\t\n")
    ensures CharOk(Escaped(c)) <==> c in Ascii("\"\\/bfnrt")
  {
    assert Ascii(" \t\n\r") == [32, 9, 10, 13];
    assert Ascii("0123456789") == [48, 49, 50, 51, 52, 53, 54, 55, 56, 57];
    assert Ascii("\"\\\t\n") == [34, 92, 9, 10];
    assert Ascii("\"\\/bfnrt") == [34, 92, 47, 98, 102, 110, 114, 116];
  }

  /** Eight letters behind a backslash stand for these bytes. */
  lemma {:induction false} EscapesAreRead(k: bytes)
    ensures PEscape(34, k) == Ok([34], k) && PEscape(92, k) == Ok([92], k) && PEscape(47, k) == Ok([47], k)
    ensures PEscape(98, k) == Ok([8], k) && PEscape(102, k) == Ok([12], k) && PEscape(110, k) == Ok([10], k)
    ensures PEscape(114, k) == Ok([13], k) && PEscape(116, k) == Ok([9], k)
  {}

  /** The literals, behind their first letters. */
  lemma {:induction false} LiteralsAreRead(k: bytes)
    ensures k != [] ==> PNull(Ascii("ull") + k) == Ok(Null, k) && PBool(Ascii("rue") + k) == Ok(Bool(true), k)
    ensures PBool(Ascii("alse") + k) == Ok(Bool(false), k)
    ensures |k| == 3 ==> PNull(k) == PBool(k) == Fail(Undefined)
  {
    assert Ascii("ull") == NULL[1..] && Ascii("rue") == TRUE[1..] && Ascii("alse") == FALSE[1..];
    var n, t, f := Ascii("ull") + k, Ascii("rue") + k, Ascii("alse") + k;
    assert n[..3] == Ascii("ull") && n[3..] == k && t[..3] == Ascii("rue") && t[3..] == k;
    assert f[..4] == Ascii("alse") && f[4..] == k;
    assert f[..3][0] == 97;
  }

  // ---------------------------------------------------------------- texts

  function WrittenChar(c: Char): bytes {
    match c
    case Plain(b) => [b]
    case Escaped(letter) => Ascii("\\") + [letter]
    case Unicode(h0, h1, h2, h3) => Ascii("\\u") + [h0, h1, h2, h3]
  }

  function WrittenChars(cs: seq<Char>): bytes {
    if cs == [] then [] else WrittenChar(cs[0]) + WrittenChars(cs[1..])
  }

  function WrittenString(cs: seq<Char>): bytes {
    Ascii("\"") + WrittenChars(cs) + Ascii("\"")
  }

  function WrittenExponent(e: Exponent): bytes {
    match e
    case NoExponent => []
    case Exponent(upper, sign, digits) =>
      Ascii(if upper then "E" else "e")
      + Ascii(if sign.Positive? then "+" else if sign.Negative? then "-" else "") + digits
  }

  function WrittenNumber(n: Number): bytes {
    Ascii(if n.negative then "-" else "") + n.whole
    + (if n.fraction == [] then [] else Ascii(".") + n.fraction) + WrittenExponent(n.exponent)
  }

  /** The text of a value by itself. */
  function Written(n: Node): bytes {
    match n
    case NNull => Ascii("null")
    case NTrue => Ascii("true")
    case NFalse => Ascii("false")
    case NNumber(number) => WrittenNumber(number)
    case NString(chars) => WrittenString(chars)
    case NEmptyArray(gap) => Ascii("[") + gap + Ascii("]")
    case NArray(elems) => Ascii("[") + WrittenElems(elems) + Ascii("]")
    case NEmptyObject(gap) => Ascii("{") + gap + Ascii("}")
    case NObject(members) => Ascii("{") + WrittenMembers(members) + Ascii("}")
  }

  function WrittenElems(es: Elems): bytes {
    es.pre + Written(es.node) + es.post
    + match es { case LastElem(_, _, _) => [] case MoreElems(_, _, _, rest) => Ascii(",") + WrittenElems(rest) }
  }

  function WrittenMembers(ms: Members): bytes {
    ms.pre + WrittenString(ms.key) + ms.mid + Ascii(":") + ms.mid2 + Written(ms.node) + ms.post
    + match ms {
      case LastMember(_, _, _, _, _, _) => []
      case MoreMembers(_, _, _, _, _, _, rest) => Ascii(",") + WrittenMembers(rest)
    }
  }

  lemma {:induction false} Marks()
    ensures Ascii("\"") == [34] && Ascii("\\") == [92] && Ascii("\\u") == [92, 117]
    ensures Ascii("[") == [91] && Ascii("]") == [93] && Ascii("{") == [123] && Ascii("}") == [125]
    ensures Ascii(",") == [44] && Ascii(":") == [58] && Ascii(".") == [46]
    ensures Ascii("E") == [69] && Ascii("e") == [101] && Ascii("+") == [43] && Ascii("-") == [45] && Ascii("") == []
    ensures Ascii("null") == [110, 117, 108, 108] && Ascii("true") == [116, 114, 117, 101]
    ensures Ascii("false") == [102, 97, 108, 115, 101]
  {}

  lemma {:induction false} CharIsWritten(c: Char, k: bytes)
    ensures CharText(c, k) == WrittenChar(c) + k
  {
    Marks();
  }

  lemma {:induction false} CharsAreWritten(cs: seq<Char>, k: bytes)
    ensures CharsText(cs, k) == WrittenChars(cs) + (Ascii("\"") + k)
  {
    Marks();
    if cs != [] {
      CharsAreWritten(cs[1..], k);
      CharIsWritten(cs[0], CharsText(cs[1..], k));
      Assoc(WrittenChar(cs[0]), WrittenChars(cs[1..]), Ascii("\"") + k);
    }
  }

  lemma {:induction false} StringIsWritten(cs: seq<Char>, k: bytes)
    ensures StringText(cs, k) == WrittenString(cs) + k
  {
    Marks();
    CharsAreWritten(cs, k);
    assert WrittenString(cs) + k == Ascii("\"") + (WrittenChars(cs) + (Ascii("\"") + k));
  }

  lemma {:induction false} ExponentIsWritten(e: Exponent, k: bytes)
    ensures ExponentText(e, k) == WrittenExponent(e) + k
  {
    Marks();
    if e.Exponent? {
      var letter := Ascii(if e.upper then "E" else "e");
      var sign := Ascii(if e.sign.Positive? then "+" else if e.sign.Negative? then "-" else "");
      assert SignText(e.sign, e.digits + k) == sign + (e.digits + k);
      assert letter + (sign + (e.digits + k)) == letter + sign + e.digits + k;
    }
  }

  lemma {:induction false} FractionIsWritten(fraction: bytes, k: bytes)
    ensures FractionText(fraction, k) == (if fraction == [] then [] else Ascii(".") + fraction) + k
  {
    Marks();
    if fraction != [] { Assoc([46], fraction, k); }
  }

  lemma {:induction false} Join4(a: bytes, b: bytes, c: bytes, d: bytes, k: bytes)
    ensures a + (b + (c + (d + k))) == a + b + c + d + k
  {
    Assoc(a, b, c + (d + k));
    Assoc(a + b, c, d + k);
    Assoc(a + b + c, d, k);
  }

  lemma {:induction false} NumberIsWritten(n: Number, k: bytes)
    ensures NumberText(n, k) == WrittenNumber(n) + k
  {
    var x := WrittenExponent(n.exponent);
    var sign := Ascii(if n.negative then "-" else "");
    ExponentIsWritten(n.exponent, k);
    FractionIsWritten(n.fraction, x + k);
    Join4(sign, n.whole, if n.fraction == [] then [] else Ascii(".") + n.fraction, x, k);
    assert sign == if n.negative then [MINUS] else [] by { Marks(); }
  }

  /** The text of a value with what follows it is the text by itself and then what follows. */
  lemma {:induction false} TextIsWritten(n: Node, k: bytes)
    ensures Text(n, k) == Written(n) + k
    decreases n, 1
  {
    Marks();
    match n {
      case NNumber(number) => NumberIsWritten(number, k);
      case NString(chars) => StringIsWritten(chars, k);
      case NArray(elems) => ElemsAreWritten(elems, k); Within(91, WrittenElems(elems), 93, k);
      case NObject(members) => MembersAreWritten(members, k); Within(123, WrittenMembers(members), 125, k);
      case NEmptyArray(gap) => Within(91, gap, 93, k);
      case NEmptyObject(gap) => Within(123, gap, 125, k);
      case _ =>
    }
  }

  lemma {:induction false} Within(open: byte, s: bytes, close: byte, k: bytes)
    ensures [open] + (s + ([close] + k)) == [open] + s + [close] + k
  {}

  lemma {:induction false} ElemIsWritten(es: Elems, sep: byte, after: bytes)
    ensures ElemText(es, sep, after) == (es.pre + Written(es.node) + es.post) + ([sep] + after)
    decreases es.node, 2
  {
    TextIsWritten(es.node, es.post + ([sep] + after));
    Assoc(Written(es.node), es.post, [sep] + after);
    Assoc(es.pre, Written(es.node) + es.post, [sep] + after);
    Assoc(es.pre, Written(es.node), es.post);
  }

  lemma {:induction false} ElemsAreWritten(es: Elems, k: bytes)
    ensures ElemsText(es, k) == WrittenElems(es) + ([93] + k)
    decreases es, 0
  {
    Marks();
    var one := es.pre + Written(es.node) + es.post;
    if es.LastElem? {
      ElemIsWritten(es, 93, k);
      assert WrittenElems(es) == one + [] == one;
    } else {
      ElemsAreWritten(es.rest, k);
      ElemIsWritten(es, 44, ElemsText(es.rest, k));
      assert WrittenElems(es) == one + ([44] + WrittenElems(es.rest));
      assert one + ([44] + (WrittenElems(es.rest) + ([93] + k))) == one + ([44] + WrittenElems(es.rest)) + ([93] + k);
    }
  }

  lemma {:induction false} MemberIsWritten(ms: Members, sep: byte, after: bytes)
    ensures MemberText(ms, sep, after) ==
      (ms.pre + WrittenString(ms.key) + ms.mid + [58] + ms.mid2 + Written(ms.node) + ms.post) + ([sep] + after)
    decreases ms.node, 2
  {
    var end := ms.post + ([sep] + after);
    TextIsWritten(ms.node, end);
    var value := ms.mid2 + (Written(ms.node) + end);
    StringIsWritten(ms.key, ms.mid + ([58] + value));
    Join4(ms.pre, WrittenString(ms.key), ms.mid, [58], value);
    var name := ms.pre + WrittenString(ms.key) + ms.mid + [58];
    Join4(name, ms.mid2, Written(ms.node), ms.post, [sep] + after);
  }

  lemma {:induction false} MembersAreWritten(ms: Members, k: bytes)
    ensures MembersText(ms, k) == WrittenMembers(ms) + ([125] + k)
    decreases ms, 0
  {
    Marks();
    var one := ms.pre + WrittenString(ms.key) + ms.mid + [58] + ms.mid2 + Written(ms.node) + ms.post;
    if ms.LastMember? {
      MemberIsWritten(ms, 125, k);
      assert WrittenMembers(ms) == one + [] == one;
    } else {
      MembersAreWritten(ms.rest, k);
      MemberIsWritten(ms, 44, MembersText(ms.rest, k));
      assert WrittenMembers(ms) == one + ([44] + WrittenMembers(ms.rest));
      assert one + ([44] + (WrittenMembers(ms.rest) + ([125] + k)))
        == one + ([44] + WrittenMembers(ms.rest)) + ([125] + k);
    }
  }
}
