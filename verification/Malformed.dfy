/** Malformed texts: what the parser throws, however deep in arrays and objects the first fault lies. */
module Malformed {
  import opened Basics
  import opened Json
  import opened Grammar
  import opened ParserSpec
  import opened StringProofs
  import opened NumberProofs
  import opened ParserProofs
  import opened Notation

  // ---------------------------------------------------------------- what stands in front

  /** The way from the start of a text to a value: the open arrays and objects, and the items before it in each. */
  datatype Front =
    | Top(pre: bytes)
    | InArray(outer: Front, elems: Option<Elems>, pre: bytes)
    | InObject(outer: Front, members: Option<Members>, pre: bytes, key: seq<Char>, mid: bytes, mid2: bytes)

  /** Elements, each with a comma behind it, then t. */
  function ElemsThen(es: Elems, t: bytes): bytes {
    match es
    case LastElem(_, _, _) => ElemText(es, COMMA, t)
    case MoreElems(_, _, _, rest) => ElemText(es, COMMA, ElemsThen(rest, t))
  }

  function ElemsBefore(es: Option<Elems>, t: bytes): bytes {
    match es case None => t case Some(es) => ElemsThen(es, t)
  }

  /** Members, each with a comma behind it, then t. */
  function MembersThen(ms: Members, t: bytes): bytes {
    match ms
    case LastMember(_, _, _, _, _, _) => MemberText(ms, COMMA, t)
    case MoreMembers(_, _, _, _, _, _, rest) => MemberText(ms, COMMA, MembersThen(rest, t))
  }

  function MembersBefore(ms: Option<Members>, t: bytes): bytes {
    match ms case None => t case Some(ms) => MembersThen(ms, t)
  }

  predicate ElemsGood(es: Option<Elems>) {
    es.Some? ==> ElemsOk(es.value) && ElemsFit(es.value)
  }

  predicate MembersGood(ms: Option<Members>) {
    ms.Some? ==> MembersOk(ms.value) && MembersFit(ms.value)
  }

  /** A name, the colon and t. */
  function KeyThen(pre: bytes, key: seq<Char>, mid: bytes, mid2: bytes, t: bytes): bytes {
    pre + StringText(key, mid + ([COLON] + (mid2 + t)))
  }

  function FrontText(f: Front, t: bytes): bytes {
    match f
    case Top(pre) => pre + t
    case InArray(outer, elems, pre) => FrontText(outer, [LBRACKET] + ElemsBefore(elems, pre + t))
    case InObject(outer, members, pre, key, mid, mid2) =>
      FrontText(outer, [LBRACE] + MembersBefore(members, KeyThen(pre, key, mid, mid2, t)))
  }

  predicate FrontOk(f: Front) {
    match f
    case Top(pre) => AllSpace(pre)
    case InArray(outer, elems, pre) => FrontOk(outer) && ElemsGood(elems) && AllSpace(pre)
    case InObject(outer, members, pre, key, mid, mid2) =>
      FrontOk(outer) && MembersGood(members) && AllSpace(pre) && CharsOk(key) && AllSpace(mid) && AllSpace(mid2)
  }

  // ---------------------------------------------------------------- arrays

  /** parseArray gets as far as t. */
  lemma {:induction false} ElemsReach(es: Elems, t: bytes, acc: seq<Json>)
    requires ElemsOk(es) && ElemsFit(es) && t != []
    ensures var o := SkipNext(ElemsThen(es, t));
      && o.Ok? && o.value != RBRACKET && ElemsThen(es, t) != []
      && PElems(o.value, o.rest, acc) == PElems(SkipNext(t).value, SkipNext(t).rest, acc + Items(es))
    decreases es
  {
    ItemsFrom(es, acc);
    if es.LastElem? {
      var c, q := ElemParses(es, COMMA, t, acc);
    } else {
      ElemsReach(es.rest, t, acc + [Value(es.node)]);
      var c, q := ElemParses(es, COMMA, ElemsThen(es.rest, t), acc);
    }
  }

  /** What the loop of parseArray fails with at t is what the array fails with. */
  lemma {:induction false} ArrayFails(es: Option<Elems>, t: bytes, f: Fault)
    requires ElemsGood(es) && t != [] && (es.None? ==> SkipNext(t).value != RBRACKET)
    requires forall acc :: PElems(SkipNext(t).value, SkipNext(t).rest, acc) == Fail(f)
    ensures PChild(LBRACKET, ElemsBefore(es, t)) == Fail(f)
  {
    if es.Some? { ElemsReach(es.value, t, []); }
    var s := ElemsBefore(es, t);
    Dispatch([LBRACKET] + s);
    assert ([LBRACKET] + s)[1..] == s;
  }

  // ---------------------------------------------------------------- objects

  /** parseObject behind a comma. */
  function AfterComma(t: bytes, pairs: seq<(bytes, Json)>): Outcome<seq<(bytes, Json)>> {
    if t == [] then Fail(Undefined)
    else if t[0] == RBRACE then Fail(Thrown(ExtraComma))
    else if |t| == 1 then Fail(Thrown(UnendedObject))
    else PMembers(SkipSpace(t[0], t[1..]).0, SkipSpace(t[0], t[1..]).1, pairs)
  }

  /** parseObject behind a value. */
  function AfterValue(o: Outcome<Json>, key: seq<Char>, acc: seq<(bytes, Json)>): Outcome<seq<(bytes, Json)>>
    requires CharsOk(key)
  {
    match o
    case Fail(f) => Fail(f)
    case Ok(val, q) =>
      match SkipNext(q)
      case Fail(f) => Fail(f)
      case Ok(sep, q1) =>
        var pairs := acc + [(CharsValue(key), val)];
        if sep == RBRACE then Ok(pairs, q1)
        else if sep != COMMA then Fail(Thrown(MissingCommaInObject))
        else AfterComma(q1, pairs)
  }

  lemma {:induction false} MemberRuns(q: bytes, acc: seq<(bytes, Json)>, key: seq<Char>, q0: bytes, q1: bytes)
    requires CharsOk(key) && q != [] && PString(QUOTE, q) == Ok(StringValue(key), q0)
    requires SkipNext(q0) == Ok(COLON, q1) && q1 != []
    ensures PMembers(QUOTE, q, acc) == AfterValue(PChild(q1[0], q1[1..]), key, acc)
  {
    match PChild(q1[0], q1[1..]) {
      case Fail(_) =>
      case Ok(val, q3) =>
        match SkipNext(q3) {
          case Fail(_) =>
          case Ok(sep, q4) =>
            if sep == COMMA && q4 != [] { assert Next(q4) == Ok(q4[0], q4[1..]); }
        }
    }
  }

  /** parseObject at a name whose value starts with t. */
  lemma {:induction false} KeyReads(pre: bytes, key: seq<Char>, mid: bytes, mid2: bytes, t: bytes,
                                    acc: seq<(bytes, Json)>)
    requires AllSpace(pre) && CharsOk(key) && AllSpace(mid) && AllSpace(mid2) && |t| > 1 && !IsSpace(t[0])
    ensures var o := SkipNext(KeyThen(pre, key, mid, mid2, t));
      && o.Ok? && o.value == QUOTE && o.rest != []
      && PMembers(QUOTE, o.rest, acc) == AfterValue(PChild(t[0], t[1..]), key, acc)
  {
    var value := mid2 + t;
    var colon := mid + ([COLON] + value);
    var q := CharsText(key, colon);
    ChildAfterSpace(mid2, t);
    CharsTextNonEmpty(key, colon);
    SkipSpaces(pre, QUOTE, q);
    StringParses(key, colon);
    SkipSpaces(mid, COLON, value);
    MemberRuns(q, acc, key, colon, value);
  }

  lemma {:induction false} KeyFollows(pre: bytes, key: seq<Char>, mid: bytes, mid2: bytes, t: bytes,
                                      pairs: seq<(bytes, Json)>)
    requires AllSpace(pre) && CharsOk(key) && AllSpace(mid) && AllSpace(mid2) && |t| > 1 && !IsSpace(t[0])
    ensures var s := KeyThen(pre, key, mid, mid2, t);
      s != [] && AfterComma(s, pairs) == PMembers(QUOTE, SkipNext(s).rest, pairs)
  {
    KeyReads(pre, key, mid, mid2, t, pairs);
    var s := KeyThen(pre, key, mid, mid2, t);
    assert s[0] == if pre == [] then QUOTE else pre[0];
  }

  lemma {:induction false} MemberReads(ms: Members, after: bytes, acc: seq<(bytes, Json)>)
    requires MembersOk(ms) && NodeFits(ms.node) && after != []
    ensures var s := MemberText(ms, COMMA, after);
      var pairs := acc + [(CharsValue(ms.key), Value(ms.node))];
      && SkipNext(s).Ok? && SkipNext(s).value == QUOTE && SkipNext(s).rest != []
      && PMembers(QUOTE, SkipNext(s).rest, acc) == AfterComma(after, pairs)
      && AfterComma(s, acc) == AfterComma(after, pairs)
  {
    var end := ms.post + ([COMMA] + after);
    var t := Text(ms.node, end);
    ValueParses(ms.node, ms.post, COMMA, after);
    KeyReads(ms.pre, ms.key, ms.mid, ms.mid2, t, acc);
    KeyFollows(ms.pre, ms.key, ms.mid, ms.mid2, t, acc);
    SkipSpaces(ms.post, COMMA, after);
    assert KeyThen(ms.pre, ms.key, ms.mid, ms.mid2, t) == MemberText(ms, COMMA, after);
  }

  /** parseObject gets as far as t. */
  lemma {:induction false} MembersReach(ms: Members, t: bytes, acc: seq<(bytes, Json)>)
    requires MembersOk(ms) && MembersFit(ms) && t != []
    ensures var s := MembersThen(ms, t);
      && s != [] && SkipNext(s).Ok? && SkipNext(s).value == QUOTE && SkipNext(s).rest != []
      && PMembers(QUOTE, SkipNext(s).rest, acc) == AfterComma(t, acc + Pairs(ms))
      && AfterComma(s, acc) == AfterComma(t, acc + Pairs(ms))
    decreases ms
  {
    PairsFrom(ms, acc);
    if ms.LastMember? {
      MemberReads(ms, t, acc);
    } else {
      MembersReach(ms.rest, t, acc + [(CharsValue(ms.key), Value(ms.node))]);
      MemberReads(ms, MembersThen(ms.rest, t), acc);
    }
  }

  lemma {:induction false} ObjectRuns(s: bytes)
    requires s != []
    ensures PChild(LBRACE, s) == PObject(s)
    ensures forall f :: PMembers(SkipNext(s).value, SkipNext(s).rest, []) == Fail(f) ==> PObject(s) == Fail(f)
  {
    Dispatch([LBRACE] + s);
    assert ([LBRACE] + s)[1..] == s;
  }

  /** What parseObject fails with behind the members is what the object fails with. */
  lemma {:induction false} ObjectFailsAfter(ms: Members, t: bytes, f: Fault)
    requires MembersOk(ms) && MembersFit(ms) && t != [] && forall pairs :: AfterComma(t, pairs) == Fail(f)
    ensures PChild(LBRACE, MembersThen(ms, t)) == Fail(f)
  {
    MembersReach(ms, t, []);
    ObjectRuns(MembersThen(ms, t));
  }

  /** The same where the first member may stand. */
  lemma {:induction false} ObjectFails(ms: Option<Members>, ws: bytes, c: byte, k: bytes, f: Fault)
    requires MembersGood(ms) && AllSpace(ws) && !IsSpace(c) && c != RBRACE && k != []
    requires forall acc :: PMembers(c, k, acc) == Fail(f)
    ensures PChild(LBRACE, MembersBefore(ms, ws + ([c] + k))) == Fail(f)
  {
    var t := ws + ([c] + k);
    SkipSpaces(ws, c, k);
    assert t[0] == if ws == [] then c else ws[0];
    match ms {
      case None => ObjectRuns(t);
      case Some(ms) => ObjectFailsAfter(ms, t, f);
    }
  }

  // ---------------------------------------------------------------- a fault spreads

  lemma {:induction false} ArraySpreads(es: Option<Elems>, pre: bytes, t: bytes, f: Fault)
    requires ElemsGood(es) && AllSpace(pre) && |t| > 1 && !IsSpace(t[0]) && (es.None? ==> t[0] != RBRACKET)
    requires PChild(t[0], t[1..]) == Fail(f)
    ensures PChild(LBRACKET, ElemsBefore(es, pre + t)) == Fail(f)
  {
    assert t == [t[0]] + t[1..];
    SkipSpaces(pre, t[0], t[1..]);
    forall acc
      ensures PElems(t[0], t[1..], acc) == Fail(f)
    {
    }
    ArrayFails(es, pre + t, f);
  }

  lemma {:induction false} ObjectSpreads(ms: Option<Members>, pre: bytes, key: seq<Char>, mid: bytes, mid2: bytes,
                                         t: bytes, f: Fault)
    requires MembersGood(ms) && AllSpace(pre) && CharsOk(key) && AllSpace(mid) && AllSpace(mid2)
    requires |t| > 1 && !IsSpace(t[0]) && forall acc :: AfterValue(PChild(t[0], t[1..]), key, acc) == Fail(f)
    ensures PChild(LBRACE, MembersBefore(ms, KeyThen(pre, key, mid, mid2, t))) == Fail(f)
  {
    var s := KeyThen(pre, key, mid, mid2, t);
    var q := CharsText(key, mid + ([COLON] + (mid2 + t)));
    assert s == pre + ([QUOTE] + q);
    CharsTextNonEmpty(key, mid + ([COLON] + (mid2 + t)));
    SkipSpaces(pre, QUOTE, q);
    forall acc
      ensures PMembers(QUOTE, q, acc) == Fail(f)
    {
      KeyReads(pre, key, mid, mid2, t, acc);
    }
    ObjectFails(ms, pre, QUOTE, q, f);
  }

  /** A value that fails makes the whole text fail in the same way, whatever stands in front of it. */
  lemma {:induction false} FaultSpreads(front: Front, t: bytes, f: Fault)
    requires FrontOk(front) && |t| > 1 && !IsSpace(t[0]) && (front.Top? ==> t[0] != 0)
    requires front.InArray? && front.elems.None? ==> t[0] != RBRACKET
    requires PChild(t[0], t[1..]) == Fail(f)
    ensures ParseText(FrontText(front, t)) == Fail(f)
    decreases front
  {
    match front {
      case Top(pre) =>
        var buffer := pre + t;
        assert t == [t[0]] + t[1..];
        SkipSpaces(pre, t[0], t[1..]);
        assert SkipSpace(buffer[0], buffer[1..]) == (t[0], t[1..]);
      case InArray(outer, elems, pre) =>
        ArraySpreads(elems, pre, t, f);
        var s := ElemsBefore(elems, pre + t);
        assert s != [] by { if elems.Some? { ElemsReach(elems.value, pre + t, []); } }
        assert ([LBRACKET] + s)[1..] == s;
        FaultSpreads(outer, [LBRACKET] + s, f);
      case InObject(outer, members, pre, key, mid, mid2) =>
        ObjectSpreads(members, pre, key, mid, mid2, t, f);
        var s := MembersBefore(members, KeyThen(pre, key, mid, mid2, t));
        assert s != [] by { if members.Some? { MembersReach(members.value, KeyThen(pre, key, mid, mid2, t), []); } }
        assert ([LBRACE] + s)[1..] == s;
        FaultSpreads(outer, [LBRACE] + s, f);
    }
  }

  // ---------------------------------------------------------------- strings

  /** Characters of a string, then t. */
  function CharsThen(cs: seq<Char>, t: bytes): bytes {
    if cs == [] then t else CharText(cs[0], CharsThen(cs[1..], t))
  }

  predicate IsPlain(s: bytes) {
    forall i :: 0 <= i < |s| ==> s[i] !in Ascii("\"\\\t\n")
  }

  lemma {:induction false} ScanPlain(s: bytes, c: byte, k: bytes)
    requires IsPlain(s) && (Stops(c) || k == [])
    ensures var t := s + ([c] + k); ScanRaw(t[0], t[1..]) == (s, c, k)
  {
    var t := s + ([c] + k);
    if s == [] {
      assert t[1..] == k;
    } else {
      Classes(s[0]);
      assert t[1..] == s[1..] + ([c] + k);
      ScanPlain(s[1..], c, k);
      assert s[0] !in Ascii("\"\\\t\n") && [s[0]] + s[1..] == s;
    }
  }

  /** A string that is cut off, or goes on with a tab or a line feed, before any escape. */
  lemma {:induction false} RawString(s: bytes, c: byte, k: bytes)
    requires IsPlain(s) && c != 34 && c != 92 && (c == 9 || c == 10 || k == [])
    ensures PString(QUOTE, s + ([c] + k)) ==
      Fail(Thrown(if c == 9 then TabInString else if c == 10 then LineFeedInString else UnexpectedInString))
  {
    ScanPlain(s, c, k);
  }

  /** An escape that fails in the middle of a string. */
  lemma {:induction false} TailFails(cs: seq<Char>, t: bytes, f: Fault)
    requires CharsOk(cs) && |t| > 1 && t[0] == BACKSLASH && PEscape(t[1], t[2..]) == Fail(f)
    ensures var u := CharsThen(cs, t); u != [] && PTail(u[0], u[1..]) == Fail(f)
  {
    var u := CharsThen(cs, t);
    if cs == [] {
      assert u[1..][1..] == t[2..];
      TailStep(u[1..]);
    } else {
      var v := CharsThen(cs[1..], t);
      TailFails(cs[1..], t, f);
      match cs[0] {
        case Plain(b) =>
          assert u[1..] == v;
        case _ =>
          EscapeText(cs[0], v);
          assert u[1..][1..] == u[2..];
          TailStep(u[1..]);
      }
    }
  }

  lemma {:induction false} EscapeFails(cs: seq<Char>, t: bytes, f: Fault)
    requires CharsOk(cs) && |t| > 1 && t[0] == BACKSLASH && PEscape(t[1], t[2..]) == Fail(f)
    ensures PString(QUOTE, CharsThen(cs, t)) == Fail(f)
  {
    var raw, q := ScanToEscape(cs, t, f);
    TailFails(cs, t, f);
    SlowPath(CharsThen(cs, t), raw, q);
  }

  /** The fast scan stops at the first escape. */
  lemma {:induction false} ScanToEscape(cs: seq<Char>, t: bytes, f: Fault) returns (raw: bytes, q: bytes)
    requires CharsOk(cs) && |t| > 1 && t[0] == BACKSLASH && PEscape(t[1], t[2..]) == Fail(f)
    ensures var u := CharsThen(cs, t);
      u != [] && q != [] && ScanRaw(u[0], u[1..]) == (raw, BACKSLASH, q) && PTail(BACKSLASH, q) == Fail(f)
  {
    var u := CharsThen(cs, t);
    TailFails(cs, t, f);
    if cs != [] && cs[0].Plain? {
      raw, q := ScanToEscape(cs[1..], t, f);
      assert u[1..] == CharsThen(cs[1..], t);
      raw := [u[0]] + raw;
    } else {
      if cs != [] { EscapeText(cs[0], CharsThen(cs[1..], t)); }
      raw, q := [], u[1..];
    }
  }

  predicate AllHex(s: bytes) {
    forall i :: 0 <= i < |s| ==> IsHex(s[i])
  }

  lemma {:induction false} HexRefused(c: byte, k: bytes)
    requires !IsHex(c)
    ensures PHex([c] + k) == Fail(Thrown(InvalidHexDigit))
  {
    assert ([c] + k)[0] == c;
  }

  /** The n-th of four digits is not one; r0 to r3 are what is unread before each. */
  lemma {:induction false} CodeStops(r0: bytes, r1: bytes, r2: bytes, r3: bytes, n: nat, f: Fault)
    requires n < 4 && PHex(if n == 0 then r0 else if n == 1 then r1 else if n == 2 then r2 else r3) == Fail(f)
    requires n > 0 ==> PHex(r0).Ok? && PHex(r0).rest == r1
    requires n > 1 ==> PHex(r1).Ok? && PHex(r1).rest == r2
    requires n > 2 ==> PHex(r2).Ok? && PHex(r2).rest == r3
    ensures PUnicode(r0) == Fail(f)
  {}

  lemma {:induction false} CodeDigit(s: bytes, t: bytes)
    requires s != [] && AllHex(s) && t != []
    ensures PHex(s + t) == Ok(HexValue(s[0]), s[1..] + t)
  {
    HexStep(s[0], s[1..] + t);
    assert s + t == [s[0]] + (s[1..] + t);
  }

  /** Fewer than four digits. */
  lemma {:induction false} CodeFails(s: bytes, c: byte, k: bytes)
    requires AllHex(s) && |s| < 4 && !IsHex(c)
    ensures PUnicode(s + ([c] + k)) == Fail(Thrown(InvalidHexDigit))
  {
    var t := [c] + k;
    var s1 := if |s| > 0 then s[1..] else [];
    var s2 := if |s| > 1 then s[2..] else [];
    var s3 := if |s| > 2 then s[3..] else [];
    HexRefused(c, k);
    assert [] + t == t;
    assert |s| > 1 ==> s1[1..] == s2;
    assert |s| > 2 ==> s2[1..] == s3;
    if |s| > 0 { CodeDigit(s, t); }
    if |s| > 1 { CodeDigit(s1, t); }
    if |s| > 2 { CodeDigit(s2, t); }
    CodeStops(s + t, s1 + t, s2 + t, s3 + t, |s|, Thrown(InvalidHexDigit));
  }

  // ---------------------------------------------------------------- numbers

  /** A number up to its exponent, whose digits are missing. */
  function CutNumber(n: Number, upper: bool, sign: Sign, c: byte, k: bytes): bytes {
    NumberText(n, [if upper then 69 else 101] + SignText(sign, [c] + k))
  }

  lemma {:induction false} NumberCut(n: Number, upper: bool, sign: Sign, c: byte, k: bytes)
    requires NumberOk(n) && n.exponent.NoExponent? && Mantissa(n) <= 9223372036854775807
    requires !IsDigit(c) && (sign.Unsigned? ==> c != 43 && c != 45)
    ensures var t := CutNumber(n, upper, sign, c, k); |t| > 1 && PNumber(t[0], t[1..]) == Fail(Thrown(MissingExponent))
  {
    var s := SignText(sign, [c] + k);
    var x := [if upper then 69 else 101] + s;
    var f := FractionText(n.fraction, x);
    var v := DigitsValue(n.whole, 0);
    assert x[1..] == s;
    assert !sign.Unsigned? ==> s[1..] == [c] + k;
    DigitsGrow(n.fraction, v);
    WholeParses(n, f);
    FractionParses(n.fraction, x, v);
    SignParses(n, x);
  }

  /** A leading zero ends the number. */
  lemma {:induction false} ZeroEnds(negative: bool, c: byte, k: bytes)
    requires IsDigit(c)
    ensures var t := (if negative then [MINUS] else []) + ([ZERO] + ([c] + k));
      |t| > 1 && PNumber(t[0], t[1..]) == Ok(Int32(0), [c] + k)
  {
    var t := (if negative then [MINUS] else []) + ([ZERO] + ([c] + k));
    assert !negative ==> t == [ZERO] + ([c] + k);
    assert negative ==> t[1..] == [ZERO] + ([c] + k);
    assert ([ZERO] + ([c] + k))[1..] == [c] + k;
    assert [c] + ([c] + k)[1..] == [c] + k;
  }

  // ---------------------------------------------------------------- behind a value

  /** A value and the byte behind it, or digits behind a leading zero. */
  datatype Ended = Closed(node: Node, post: bytes, c: byte, more: bytes) | Zero(negative: bool, c: byte, more: bytes)

  function EndedText(e: Ended): bytes {
    match e
    case Closed(node, post, c, more) => Text(node, post + ([c] + more))
    case Zero(negative, c, more) => Ascii(if negative then "-" else "") + (Ascii("0") + ([c] + more))
  }

  predicate EndedOk(e: Ended) {
    match e
    case Closed(node, post, c, more) => NodeOk(node) && NodeFits(node) && AllSpace(post) && !IsSpace(c) && EndsNumber(c)
    case Zero(_, c, _) => IsDigit(c)
  }

  lemma {:induction false} SkipTo(ws: bytes, c: byte, k: bytes)
    requires AllSpace(ws) && !IsSpace(c)
    ensures SkipNext(ws + ([c] + k)) == Ok(if k == [] then 0 else c, k)
  {
    if k == [] {
      OnlySpaces(ws, c);
      assert [c] + k == [c];
    } else {
      SkipSpaces(ws, c, k);
    }
  }

  lemma {:induction false} ZeroReads(negative: bool, c: byte, more: bytes)
    requires IsDigit(c)
    ensures var t := EndedText(Zero(negative, c, more));
      |t| > 1 && !IsSpace(t[0]) && t[0] != RBRACKET && PChild(t[0], t[1..]) == Ok(Int32(0), [c] + more)
  {
    var t := EndedText(Zero(negative, c, more));
    assert Ascii("-") == [MINUS] && Ascii("0") == [ZERO] && Ascii("") == [];
    assert t[0] == if negative then MINUS else ZERO;
    ZeroEnds(negative, c, more);
    Dispatch(t);
  }

  lemma {:induction false} EndedReads(e: Ended)
    requires EndedOk(e)
    ensures var t := EndedText(e);
      && |t| > 1 && !IsSpace(t[0]) && t[0] != RBRACKET
      && PChild(t[0], t[1..]).Ok? && SkipNext(PChild(t[0], t[1..]).rest) == Ok(if e.more == [] then 0 else e.c, e.more)
  {
    match e {
      case Closed(node, post, c, more) =>
        SkipTo(post, c, more);
        ValueParses(node, post, c, more);
      case Zero(negative, c, more) =>
        ZeroReads(negative, c, more);
        SkipTo([], c, more);
        assert [] + ([c] + more) == [c] + more;
    }
  }

  lemma {:induction false} ElemStops(c: byte, q: bytes, acc: seq<Json>)
    requires q != [] && PChild(c, q).Ok? && SkipNext(PChild(c, q).rest).Ok?
    requires SkipNext(PChild(c, q).rest).value != RBRACKET && SkipNext(PChild(c, q).rest).value != COMMA
    ensures PElems(c, q, acc) == Fail(Thrown(MissingCommaInArray))
  {}

  /** No comma or bracket behind an element. */
  lemma {:induction false} ElemUnended(es: Option<Elems>, pre: bytes, e: Ended)
    requires ElemsGood(es) && AllSpace(pre) && EndedOk(e) && (e.more == [] || e.c !in Ascii(",]"))
    ensures PChild(LBRACKET, ElemsBefore(es, pre + EndedText(e))) == Fail(Thrown(MissingCommaInArray))
  {
    var t := EndedText(e);
    assert Ascii(",]") == [COMMA, RBRACKET];
    EndedReads(e);
    assert t == [t[0]] + t[1..];
    SkipSpaces(pre, t[0], t[1..]);
    forall acc
      ensures PElems(t[0], t[1..], acc) == Fail(Thrown(MissingCommaInArray))
    {
      ElemStops(t[0], t[1..], acc);
    }
    ArrayFails(es, pre + t, Thrown(MissingCommaInArray));
  }

  /** No comma or brace behind a member. */
  lemma {:induction false} MemberUnended(ms: Option<Members>, pre: bytes, key: seq<Char>, mid: bytes, mid2: bytes,
                                         e: Ended)
    requires MembersGood(ms) && AllSpace(pre) && CharsOk(key) && AllSpace(mid) && AllSpace(mid2)
    requires EndedOk(e) && (e.more == [] || e.c !in Ascii(",}"))
    ensures PChild(LBRACE, MembersBefore(ms, KeyThen(pre, key, mid, mid2, EndedText(e))))
      == Fail(Thrown(MissingCommaInObject))
  {
    assert Ascii(",}") == [COMMA, RBRACE];
    EndedReads(e);
    ObjectSpreads(ms, pre, key, mid, mid2, EndedText(e), Thrown(MissingCommaInObject));
  }

  /** No colon behind a name. */
  lemma {:induction false} NameUnended(ms: Option<Members>, pre: bytes, key: seq<Char>, mid: bytes, c: byte, k: bytes)
    requires MembersGood(ms) && AllSpace(pre) && CharsOk(key) && AllSpace(mid) && !IsSpace(c) && (k == [] || c != 58)
    ensures PChild(LBRACE, MembersBefore(ms, pre + StringText(key, mid + ([c] + k)))) == Fail(Thrown(MissingColon))
  {
    var q := CharsText(key, mid + ([c] + k));
    CharsTextNonEmpty(key, mid + ([c] + k));
    StringParses(key, mid + ([c] + k));
    SkipTo(mid, c, k);
    forall acc
      ensures PMembers(QUOTE, q, acc) == Fail(Thrown(MissingColon))
    {
    }
    ObjectFails(ms, pre, QUOTE, q, Thrown(MissingColon));
  }

  // ---------------------------------------------------------------- every kind

  /** Values with something wrong in them, up to the first byte that shows it, and what is behind that. */
  datatype Malformed =
    | NoValue(c: byte, more: bytes)
    | NoBoolean(c: byte, more: bytes)
    | NoNull(more: bytes)
    | NoExponentDigits(number: Number, upper: bool, sign: Sign, c: byte, more: bytes)
    | RawText(s: bytes, c: byte, more: bytes)
    | NoEscape(chars: seq<Char>, c: byte, more: bytes)
    | NoHexDigit(chars: seq<Char>, digits: bytes, c: byte, more: bytes)
    | NoCommaInArray(elems: Option<Elems>, pre: bytes, last: Ended)
    | NoName(members: Option<Members>, pre: bytes, c: byte, more: bytes)
    | NoColon(members: Option<Members>, pre: bytes, key: seq<Char>, mid: bytes, c: byte, more: bytes)
    | NoCommaInObject(members: Option<Members>, pre: bytes, key: seq<Char>, mid: bytes, mid2: bytes, last: Ended)
    | CommaAndBrace(before: Members, more: bytes)
    | CommaAndEnd(before: Members, c: byte)

  function MalformedText(m: Malformed): bytes {
    match m
    case NoValue(c, more) => [c] + more
    case NoBoolean(c, more) => [c] + more
    case NoNull(more) => Ascii("n") + more
    case NoExponentDigits(number, upper, sign, c, more) => CutNumber(number, upper, sign, c, more)
    case RawText(s, c, more) => Ascii("\"") + (s + ([c] + more))
    case NoEscape(chars, c, more) => Ascii("\"") + CharsThen(chars, Ascii("\\") + ([c] + more))
    case NoHexDigit(chars, digits, c, more) =>
      Ascii("\"") + CharsThen(chars, Ascii("\\u") + (digits + ([c] + more)))
    case NoCommaInArray(elems, pre, last) => Ascii("[") + ElemsBefore(elems, pre + EndedText(last))
    case NoName(members, pre, c, more) => Ascii("{") + MembersBefore(members, pre + ([c] + more))
    case NoColon(members, pre, key, mid, c, more) =>
      Ascii("{") + MembersBefore(members, pre + StringText(key, mid + ([c] + more)))
    case NoCommaInObject(members, pre, key, mid, mid2, last) =>
      Ascii("{") + MembersBefore(members, KeyThen(pre, key, mid, mid2, EndedText(last)))
    case CommaAndBrace(before, more) => Ascii("{") + MembersThen(before, Ascii("}") + more)
    case CommaAndEnd(before, c) => Ascii("{") + MembersThen(before, [c])
  }

  predicate StartsWith(s: bytes, word: bytes) {
    |s| >= |word| && s[..|word|] == word
  }

  predicate IsMalformed(m: Malformed) {
    match m
    case NoValue(c, more) => c !in Ascii(" \t\n\r{\"[-0123456789ftn") && more != []
    case NoBoolean(c, more) =>
      && c in Ascii("tf") && more != [] && |more| != 3
      && !StartsWith(more, Ascii("rue")) && !StartsWith(more, Ascii("alse"))
    case NoNull(more) => more != [] && |more| != 3 && !StartsWith(more, Ascii("ull"))
    case NoExponentDigits(number, _, sign, c, _) =>
      && NumberOk(number) && number.exponent.NoExponent? && Mantissa(number) <= 9223372036854775807
      && !IsDigit(c) && (sign.Unsigned? ==> c !in Ascii("+-"))
    case RawText(s, c, more) => IsPlain(s) && c !in Ascii("\"\\") && (c in Ascii("\t\n") || more == [])
    case NoEscape(chars, c, _) => CharsOk(chars) && c !in Ascii("\"\\/bfnrtu")
    case NoHexDigit(chars, digits, c, _) => CharsOk(chars) && AllHex(digits) && |digits| < 4 && !IsHex(c)
    case NoCommaInArray(elems, pre, last) =>
      ElemsGood(elems) && AllSpace(pre) && EndedOk(last) && (last.more == [] || last.c !in Ascii(",]"))
    case NoName(members, pre, c, more) =>
      MembersGood(members) && AllSpace(pre) && c !in Ascii(" \t\n\r\"}") && more != []
    case NoColon(members, pre, key, mid, c, more) =>
      && MembersGood(members) && AllSpace(pre) && CharsOk(key) && AllSpace(mid)
      && !IsSpace(c) && (more == [] || c !in Ascii(":"))
    case NoCommaInObject(members, pre, key, mid, mid2, last) =>
      && MembersGood(members) && AllSpace(pre) && CharsOk(key) && AllSpace(mid) && AllSpace(mid2)
      && EndedOk(last) && (last.more == [] || last.c !in Ascii(",}"))
    case CommaAndBrace(before, _) => MembersOk(before) && MembersFit(before)
    case CommaAndEnd(before, c) => MembersOk(before) && MembersFit(before) && c !in Ascii("}")
  }

  function ErrorOf(m: Malformed): ParseError {
    match m
    case NoValue(_, _) => InvalidToken
    case NoBoolean(_, _) => NotABoolean
    case NoNull(_) => NotNull
    case NoExponentDigits(_, _, _, _, _) => MissingExponent
    case RawText(_, c, _) =>
      if c in Ascii("\t") then TabInString else if c in Ascii("\n") then LineFeedInString else UnexpectedInString
    case NoEscape(_, _, _) => IllegalEscape
    case NoHexDigit(_, _, _, _) => InvalidHexDigit
    case NoCommaInArray(_, _, _) => MissingCommaInArray
    case NoName(_, _, _, _) => MissingQuote
    case NoColon(_, _, _, _, _, _) => MissingColon
    case NoCommaInObject(_, _, _, _, _, _) => MissingCommaInObject
    case CommaAndBrace(_, _) => ExtraComma
    case CommaAndEnd(_, _) => UnendedObject
  }

  lemma {:induction false} NoValueFails(c: byte, more: bytes)
    requires c !in Ascii(" \t\n\r{\"[-0123456789ftn") && more != []
    ensures !IsSpace(c) && PChild(c, more) == Fail(Thrown(InvalidToken))
  {
    assert Ascii(" \t\n\r{\"[-0123456789ftn")
      == [32, 9, 10, 13, 123, 34, 91, 45, 48, 49, 50, 51, 52, 53, 54, 55, 56, 57, 102, 116, 110];
    assert c !in [32, 9, 10, 13, 123, 34, 91, 45, 48, 49, 50, 51, 52, 53, 54, 55, 56, 57, 102, 116, 110];
    Dispatch([c] + more);
    assert ([c] + more)[1..] == more;
  }

  lemma {:induction false} LiteralFails(c: byte, more: bytes)
    requires more != [] && |more| != 3
    ensures c in Ascii("tf") && !StartsWith(more, Ascii("rue")) && !StartsWith(more, Ascii("alse")) ==>
      !IsSpace(c) && c != 0 && c != 93 && PChild(c, more) == Fail(Thrown(NotABoolean))
    ensures !StartsWith(more, Ascii("ull")) ==> PChild(110, more) == Fail(Thrown(NotNull))
  {
    assert Ascii("tf") == [116, 102] && Ascii("rue") == TRUE[1..] && Ascii("alse") == FALSE[1..];
    assert Ascii("ull") == NULL[1..];
    if c in [116, 102] { Dispatch([c] + more); }
    Dispatch([110] + more);
    assert ([c] + more)[1..] == more == ([110] + more)[1..];
  }

  lemma {:induction false} StringFails(q: bytes, f: Fault)
    requires q != [] && PString(QUOTE, q) == Fail(f)
    ensures PChild(34, q) == Fail(f)
  {
    Dispatch([34] + q);
    assert ([34] + q)[1..] == q;
  }

  lemma {:induction false} NumberFault(number: Number, upper: bool, sign: Sign, c: byte, k: bytes)
    requires NumberOk(number) && number.exponent.NoExponent? && Mantissa(number) <= 9223372036854775807
    requires !IsDigit(c) && (sign.Unsigned? ==> c != 43 && c != 45)
    ensures var t := CutNumber(number, upper, sign, c, k);
      |t| > 1 && (t[0] == 45 || IsDigit(t[0])) && PChild(t[0], t[1..]) == Fail(Thrown(MissingExponent))
  {
    NumberCut(number, upper, sign, c, k);
    SignParses(number, [if upper then 69 else 101] + SignText(sign, [c] + k));
    Dispatch(CutNumber(number, upper, sign, c, k));
  }

  /** parseObject where a name should stand. */
  lemma {:induction false} NameMissing(ms: Option<Members>, pre: bytes, c: byte, k: bytes)
    requires MembersGood(ms) && AllSpace(pre) && c !in Ascii(" \t\n\r\"}") && k != []
    ensures PChild(LBRACE, MembersBefore(ms, pre + ([c] + k))) == Fail(Thrown(MissingQuote))
  {
    assert Ascii(" \t\n\r\"}") == [32, 9, 10, 13, QUOTE, RBRACE];
    assert c !in [32, 9, 10, 13, QUOTE, RBRACE];
    forall acc
      ensures PMembers(c, k, acc) == Fail(Thrown(MissingQuote))
    {
    }
    ObjectFails(ms, pre, c, k, Thrown(MissingQuote));
  }

  /** And directly behind a comma. */
  lemma {:induction false} CommaFails(before: Members, more: bytes, c: byte)
    requires MembersOk(before) && MembersFit(before)
    ensures PChild(LBRACE, MembersThen(before, [RBRACE] + more)) == Fail(Thrown(ExtraComma))
    ensures c != RBRACE ==> PChild(LBRACE, MembersThen(before, [c])) == Fail(Thrown(UnendedObject))
  {
    ObjectFailsAfter(before, [RBRACE] + more, Thrown(ExtraComma));
    if c != RBRACE { ObjectFailsAfter(before, [c], Thrown(UnendedObject)); }
  }

  lemma {:induction false} NonEmptyThen(es: Option<Elems>, ms: Option<Members>, t: bytes)
    requires ElemsGood(es) && MembersGood(ms) && t != []
    ensures ElemsBefore(es, t) != [] && MembersBefore(ms, t) != []
  {
    if es.Some? { ElemsReach(es.value, t, []); }
    if ms.Some? { MembersReach(ms.value, t, []); }
  }

  lemma {:induction false} MalformedStringFails(m: Malformed)
    requires IsMalformed(m) && (m.RawText? || m.NoEscape? || m.NoHexDigit?)
    ensures var q := MalformedText(m)[1..];
      MalformedText(m) == [34] + q && q != [] && PChild(34, q) == Fail(Thrown(ErrorOf(m)))
  {
    Marks();
    assert Ascii("\"\\") == [34, 92] && Ascii("\t\n") == [9, 10] && Ascii("\t") == [9] && Ascii("\n") == [10];
    match m {
      case RawText(s, c, more) =>
        RawString(s, c, more);
        StringFails(s + ([c] + more), Thrown(ErrorOf(m)));
      case NoEscape(chars, c, more) =>
        assert Ascii("\"\\/bfnrtu") == [34, 92, 47, 98, 102, 110, 114, 116, 117];
        var t := [92] + ([c] + more);
        assert t[2..] == more;
        assert c !in [34, 92, 47, 98, 102, 110, 114, 116, 117];
        EscapeFails(chars, t, Thrown(IllegalEscape));
        TailFails(chars, t, Thrown(IllegalEscape));
        StringFails(CharsThen(chars, t), Thrown(IllegalEscape));
      case NoHexDigit(chars, digits, c, more) =>
        var t := [92, 117] + (digits + ([c] + more));
        assert t[2..] == digits + ([c] + more);
        CodeFails(digits, c, more);
        EscapeFails(chars, t, Thrown(InvalidHexDigit));
        TailFails(chars, t, Thrown(InvalidHexDigit));
        StringFails(CharsThen(chars, t), Thrown(InvalidHexDigit));
    }
  }

  lemma {:induction false} MalformedContainerFails(m: Malformed)
    requires IsMalformed(m)
    requires m.NoCommaInArray? || m.NoName? || m.NoColon? || m.NoCommaInObject? || m.CommaAndBrace? || m.CommaAndEnd?
    ensures var t := MalformedText(m);
      var q := t[1..];
      t == [t[0]] + q && q != [] && (t[0] == 91 || t[0] == 123) && PChild(t[0], q) == Fail(Thrown(ErrorOf(m)))
  {
    Marks();
    match m {
      case NoCommaInArray(elems, pre, last) =>
        EndedReads(last);
        NonEmptyThen(elems, None, pre + EndedText(last));
        ElemUnended(elems, pre, last);
        assert MalformedText(m)[1..] == ElemsBefore(elems, pre + EndedText(last));
      case NoName(members, pre, c, more) =>
        NonEmptyThen(None, members, pre + ([c] + more));
        NameMissing(members, pre, c, more);
        assert MalformedText(m)[1..] == MembersBefore(members, pre + ([c] + more));
      case NoColon(members, pre, key, mid, c, more) =>
        NonEmptyThen(None, members, pre + StringText(key, mid + ([c] + more)));
        NameUnended(members, pre, key, mid, c, more);
        assert MalformedText(m)[1..] == MembersBefore(members, pre + StringText(key, mid + ([c] + more)));
      case NoCommaInObject(members, pre, key, mid, mid2, last) =>
        NonEmptyThen(None, members, KeyThen(pre, key, mid, mid2, EndedText(last)));
        MemberUnended(members, pre, key, mid, mid2, last);
        assert MalformedText(m)[1..] == MembersBefore(members, KeyThen(pre, key, mid, mid2, EndedText(last)));
      case CommaAndBrace(before, more) =>
        NonEmptyThen(None, Some(before), [RBRACE] + more);
        CommaFails(before, more, 0);
        assert MalformedText(m)[1..] == MembersThen(before, [RBRACE] + more);
      case CommaAndEnd(before, c) =>
        NonEmptyThen(None, Some(before), [c]);
        CommaFails(before, [], c);
        assert MalformedText(m)[1..] == MembersThen(before, [c]);
    }
  }

  lemma {:induction false} MalformedScalarFails(m: Malformed)
    requires IsMalformed(m) && (m.NoValue? || m.NoBoolean? || m.NoNull?)
    ensures var t := MalformedText(m);
      && |t| > 1 && !IsSpace(t[0]) && (m.NoValue? || (t[0] != 0 && t[0] != 93))
      && PChild(t[0], t[1..]) == Fail(Thrown(ErrorOf(m)))
  {
    match m {
      case NoValue(c, more) =>
        NoValueFails(c, more);
        assert MalformedText(m)[1..] == more;
      case NoBoolean(c, more) =>
        LiteralFails(c, more);
        assert MalformedText(m)[1..] == more;
      case NoNull(more) =>
        LiteralFails(110, more);
        assert Ascii("n") == [110];
        assert MalformedText(m)[1..] == more;
    }
  }

  lemma {:induction false} MalformedFails(m: Malformed)
    requires IsMalformed(m)
    ensures var t := MalformedText(m);
      && |t| > 1 && !IsSpace(t[0]) && (m.NoValue? || (t[0] != 0 && t[0] != 93))
      && PChild(t[0], t[1..]) == Fail(Thrown(ErrorOf(m)))
  {
    if m.NoValue? || m.NoBoolean? || m.NoNull? {
      MalformedScalarFails(m);
    } else if m.NoExponentDigits? {
      assert Ascii("+-") == [43, 45];
      NumberFault(m.number, m.upper, m.sign, m.c, m.more);
    } else if m.RawText? || m.NoEscape? || m.NoHexDigit? {
      MalformedStringFails(m);
    } else {
      MalformedContainerFails(m);
    }
  }

  /** A NUL for the top value is a blank text, and a bracket for the first element makes the array empty. */
  predicate NotMissing(front: Front, c: byte) {
    (front.Top? && c == 0) || (front.InArray? && front.elems.None? && c == 93)
  }

  /** The bytes up to the end of the stream have such a fault. */
  ghost predicate FaultyText(front: Front, m: Malformed, buffer: bytes) {
    && FrontOk(front) && IsMalformed(m) && (m.NoValue? ==> !NotMissing(front, m.c))
    && buffer == FrontText(front, MalformedText(m))
  }

  /**
   A text whose first fault is one of these is refused with the error for it, whatever values stand before it and
   whatever bytes come after it.
   */
  lemma {:induction false} MalformedIsRefused(front: Front, m: Malformed)
    requires FrontOk(front) && IsMalformed(m) && (m.NoValue? ==> !NotMissing(front, m.c))
    ensures ParseText(FrontText(front, MalformedText(m))) == Fail(Thrown(ErrorOf(m)))
  {
    MalformedFails(m);
    FaultSpreads(front, MalformedText(m), Thrown(ErrorOf(m)));
  }

  /** Nor may anything but white space and a NUL come behind the top value. */
  lemma {:induction false} RestIsRefused(n: Node, pre: bytes, post: bytes, c: byte, more: bytes)
    requires NodeOk(n) && NodeFits(n) && AllSpace(pre) && AllSpace(post)
    requires c !in Ascii(" \t\n\r") && c != 0 && more != [] && (n.NNumber? ==> EndsNumber(c))
    ensures ParseText(pre + Text(n, post + ([c] + more))) == Fail(Thrown(UnparsedRest))
  {
    var t := Text(n, post + ([c] + more));
    Classes(c);
    NodeParses(n, post + ([c] + more));
    TextStarts(n, post + ([c] + more));
    assert KindOf(0) == KNothing;
    assert t == [t[0]] + t[1..];
    SkipSpaces(pre, t[0], t[1..]);
    SkipSpaces(post, c, more);
    RestThrows(pre + t, t[0], t[1..]);
  }

  lemma {:induction false} RestThrows(buffer: bytes, d: byte, q: bytes)
    requires SkipNext(buffer) == Ok(d, q) && d != 0 && PChild(d, q).Ok? && PChild(d, q).rest != []
    requires SkipNext(PChild(d, q).rest).Ok? && SkipNext(PChild(d, q).rest).value != 0
    ensures ParseText(buffer) == Fail(Thrown(UnparsedRest))
  {}

  /** Where parseString is called a quote stands already. */
  lemma {:induction false} QuoteRequired(c: byte, rest: bytes)
    requires c != 34
    ensures PString(c, rest) == Fail(Thrown(MissingQuote))
  {}

  /** On the other hand an array that the end of the stream cuts off behind a comma is accepted. */
  lemma {:induction false} CutArrayIsAccepted(pre: bytes, es: Elems, last: byte)
    requires AllSpace(pre) && ElemsOk(es) && ElemsFit(es)
    ensures ParseText(pre + (Ascii("[") + ElemsThen(es, [last]))) == Ok(Arr(Items(es)), [])
  {
    Marks();
    var s := ElemsThen(es, [last]);
    var t := [LBRACKET] + s;
    var buffer := pre + t;
    ElemsReach(es, [last], []);
    assert [] + Items(es) == Items(es);
    Dispatch(t);
    assert t[1..] == s;
    assert t == [t[0]] + t[1..];
    SkipSpaces(pre, t[0], t[1..]);
    assert SkipSpace(buffer[0], buffer[1..]) == (t[0], t[1..]);
  }
}
