/** The parser accepts every text of the grammar, reads all of it and returns the value it denotes. */
module ParserProofs {
  import opened Basics
  import opened ObjectMap
  import opened Json
  import opened Grammar
  import opened ParserSpec
  import opened StringProofs
  import opened NumberProofs

  // ---------------------------------------------------------------- what is built

  /** The value the parser makes of a tree whose numbers and objects it can hold. */
  function Value(n: Node): Json
    requires NodeOk(n)
  {
    match n
    case NNull => Null
    case NTrue => Bool(true)
    case NFalse => Bool(false)
    case NNumber(number) => if NumberFits(number) then NumberValue(number) else Null
    case NString(chars) => StringValue(chars)
    case NEmptyArray(_) => Arr([])
    case NArray(elems) => Arr(Items(elems))
    case NEmptyObject(_) => Obj(NewMap(0))
    case NObject(members) =>
      match Make(NewMap(|Pairs(members)|), Pairs(members)) { case Some(m) => Obj(m) case None => Null }
  }

  function Items(es: Elems): seq<Json>
    requires ElemsOk(es)
  {
    [Value(es.node)] + match es { case LastElem(_, _, _) => [] case MoreElems(_, _, _, rest) => Items(rest) }
  }

  function Pairs(ms: Members): seq<(bytes, Json)>
    requires MembersOk(ms)
  {
    [(CharsValue(ms.key), Value(ms.node))] +
    match ms { case LastMember(_, _, _, _, _, _) => [] case MoreMembers(_, _, _, _, _, _, rest) => Pairs(rest) }
  }

  /** Numbers in range, and objects whose map can be built. */
  predicate NodeFits(n: Node)
    requires NodeOk(n)
  {
    match n
    case NNumber(number) => NumberFits(number)
    case NArray(elems) => ElemsFit(elems)
    case NObject(members) => MembersFit(members) && Make(NewMap(|Pairs(members)|), Pairs(members)).Some?
    case _ => true
  }

  predicate ElemsFit(es: Elems)
    requires ElemsOk(es)
  {
    NodeFits(es.node) && match es { case LastElem(_, _, _) => true case MoreElems(_, _, _, rest) => ElemsFit(rest) }
  }

  predicate MembersFit(ms: Members)
    requires MembersOk(ms)
  {
    NodeFits(ms.node) &&
    match ms { case LastMember(_, _, _, _, _, _) => true case MoreMembers(_, _, _, _, _, _, rest) => MembersFit(rest) }
  }

  // ---------------------------------------------------------------- one value

  /** What may follow a value: something, and after a number nothing that would go on it. */
  predicate Follows(n: Node, k: bytes) {
    k != [] && (n.NNumber? ==> EndsNumber(k[0]))
  }

  /** The first byte of a value's text says what the parser dispatches on. */
  lemma {:induction false} TextStarts(n: Node, k: bytes)
    requires NodeOk(n) && Follows(n, k)
    ensures var t := Text(n, k);
      && |t| > 1 && !IsSpace(t[0]) && t[0] != RBRACKET && t[0] != RBRACE
      && KindOf(t[0]) == match n {
        case NNull => KNull
        case NTrue => KBoolean
        case NFalse => KBoolean
        case NNumber(_) => KNumber
        case NString(_) => KString
        case NEmptyArray(_) => KArray
        case NArray(_) => KArray
        case NEmptyObject(_) => KObject
        case NObject(_) => KObject
      }
  {
    match n {
      case NNumber(number) => SignParses(number, k);
      case NString(chars) => CharsTextNonEmpty(chars, k);
      case NArray(elems) => assert ElemsText(elems, k) != [] by { ElemsNonEmpty(elems, k); }
      case NObject(members) => assert MembersText(members, k) != [];
      case _ =>
    }
  }

  lemma {:induction false} ElemsNonEmpty(es: Elems, k: bytes)
    requires ElemsOk(es)
    ensures ElemsText(es, k) != []
    decreases es
  {
    match es {
      case LastElem(_, _, _) => NodeTextNonEmpty(es.node, es.post + ([RBRACKET] + k));
      case MoreElems(_, _, _, rest) => NodeTextNonEmpty(es.node, es.post + ([COMMA] + ElemsText(rest, k)));
    }
  }

  lemma {:induction false} NodeTextNonEmpty(n: Node, k: bytes)
    requires NodeOk(n)
    ensures Text(n, k) != []
  {}

  lemma {:induction false} LiteralParses(k: bytes)
    requires k != []
    ensures PNull((NULL + k)[1..]) == Ok(Null, k)
    ensures PBool((TRUE + k)[1..]) == Ok(Bool(true), k)
    ensures PBool((FALSE + k)[1..]) == Ok(Bool(false), k)
  {
    assert (NULL + k)[1..][..3] == NULL[1..] && (NULL + k)[1..][3..] == k;
    assert (TRUE + k)[1..][..3] == TRUE[1..] && (TRUE + k)[1..][3..] == k;
    var f := (FALSE + k)[1..];
    assert f[..4] == FALSE[1..] && f[4..] == k;
    assert f[..3][0] == 97;
  }

  lemma {:induction false} SpaceFollows(n: Node, post: bytes, c: byte, k: bytes)
    requires AllSpace(post) && EndsNumber(c)
    ensures Follows(n, post + ([c] + k))
  {}

  lemma {:induction false} Dispatch(t: bytes)
    requires |t| > 1 && !IsSpace(t[0])
    ensures PChild(t[0], t[1..]) ==
      match KindOf(t[0])
      case KNothing => Fail(Thrown(InvalidToken))
      case KObject => PObject(t[1..])
      case KString => PString(t[0], t[1..])
      case KArray => PArray(t[1..])
      case KNumber => PNumber(t[0], t[1..])
      case KBoolean => PBool(t[1..])
      case KNull => PNull(t[1..])
  {}

  /** parseChild skips white space before the value. */
  lemma {:induction false} ChildAfterSpace(ws: bytes, t: bytes)
    requires AllSpace(ws) && |t| > 1 && !IsSpace(t[0])
    ensures PChild((ws + t)[0], (ws + t)[1..]) == PChild(t[0], t[1..])
  {
    assert t == [t[0]] + t[1..];
    SkipSpaces(ws, t[0], t[1..]);
    SkipSpaces([], t[0], t[1..]);
    assert [] + t == t;
    var u := ws + t;
    assert SkipSpace(u[0], u[1..]) == SkipSpace(t[0], t[1..]);
  }

  lemma {:induction false} ScalarParses(n: Node, k: bytes)
    requires NodeOk(n) && NodeFits(n) && Follows(n, k)
    requires !n.NArray? && !n.NEmptyArray? && !n.NObject? && !n.NEmptyObject?
    ensures var t := Text(n, k); PChild(t[0], t[1..]) == Ok(Value(n), k)
  {
    TextStarts(n, k);
    Dispatch(Text(n, k));
    LiteralParses(k);
    match n {
      case NNumber(number) => NumberParses(number, k);
      case NString(chars) =>
        assert Text(n, k)[1..] == CharsText(chars, k);
        StringParses(chars, k);
      case _ =>
    }
  }

  lemma {:induction false} EmptyParses(n: Node, k: bytes)
    requires NodeOk(n) && Follows(n, k) && (n.NEmptyArray? || n.NEmptyObject?)
    ensures var t := Text(n, k); PChild(t[0], t[1..]) == Ok(Value(n), k)
  {
    TextStarts(n, k);
    Dispatch(Text(n, k));
    var close := if n.NEmptyArray? then RBRACKET else RBRACE;
    assert Text(n, k)[1..] == n.gap + ([close] + k);
    SkipSpaces(n.gap, close, k);
  }

  /** parseChild reads a value's text up to its end. */
  lemma {:induction false} NodeParses(n: Node, k: bytes)
    requires NodeOk(n) && NodeFits(n) && Follows(n, k)
    ensures var t := Text(n, k); PChild(t[0], t[1..]) == Ok(Value(n), k)
    decreases n, 1
  {
    if n.NArray? {
      TextStarts(n, k);
      Dispatch(Text(n, k));
      assert Text(n, k)[1..] == ElemsText(n.elems, k);
      ElemsParse(n.elems, k, []);
      assert [] + Items(n.elems) == Items(n.elems);
    } else if n.NObject? {
      TextStarts(n, k);
      Dispatch(Text(n, k));
      assert Text(n, k)[1..] == MembersText(n.members, k);
      MembersParse(n.members, k, []);
      assert [] + Pairs(n.members) == Pairs(n.members);
    } else if n.NEmptyArray? || n.NEmptyObject? {
      EmptyParses(n, k);
    } else {
      ScalarParses(n, k);
    }
  }

  lemma {:induction false} ValueParses(n: Node, post: bytes, sep: byte, after: bytes)
    requires NodeOk(n) && NodeFits(n) && AllSpace(post) && EndsNumber(sep)
    ensures var t := Text(n, post + ([sep] + after));
      |t| > 1 && !IsSpace(t[0]) && t[0] != RBRACKET && PChild(t[0], t[1..]) == Ok(Value(n), post + ([sep] + after))
    decreases n, 2
  {
    SpaceFollows(n, post, sep, after);
    NodeParses(n, post + ([sep] + after));
    TextStarts(n, post + ([sep] + after));
  }

  lemma {:induction false} ElemStep(c: byte, q: bytes, acc: seq<Json>, val: Json, q0: bytes, sep: byte, q1: bytes)
    requires q != [] && PChild(c, q) == Ok(val, q0) && SkipNext(q0) == Ok(sep, q1)
    ensures sep == RBRACKET ==> PElems(c, q, acc) == Ok(acc + [val], q1)
    ensures sep == COMMA && SkipNext(q1).Ok? ==>
      PElems(c, q, acc) == PElems(SkipNext(q1).value, SkipNext(q1).rest, acc + [val])
  {}

  /** One element, whatever separator and text come after it. */
  lemma {:induction false} ElemParses(es: Elems, sep: byte, after: bytes, acc: seq<Json>) returns (c: byte, q: bytes)
    requires ElemsOk(es) && NodeFits(es.node) && after != [] && EndsNumber(sep) && !IsSpace(sep)
    ensures SkipNext(ElemText(es, sep, after)) == Ok(c, q) && c != RBRACKET
    ensures sep == RBRACKET ==> PElems(c, q, acc) == Ok(acc + [Value(es.node)], after)
    ensures sep == COMMA && SkipNext(after).Ok? ==>
      PElems(c, q, acc) == PElems(SkipNext(after).value, SkipNext(after).rest, acc + [Value(es.node)])
    decreases es.node, 3
  {
    var end := es.post + ([sep] + after);
    var t := Text(es.node, end);
    ValueParses(es.node, es.post, sep, after);
    c, q := t[0], t[1..];
    assert t == [c] + q;
    assert SkipNext(ElemText(es, sep, after)) == Ok(c, q) by { SkipSpaces(es.pre, c, q); }
    assert SkipNext(end) == Ok(sep, after) by { SkipSpaces(es.post, sep, after); }
    ElemStep(c, q, acc, Value(es.node), end, sep, after);
  }

  /** The loop of parseArray, entered at the first element. */
  lemma {:induction false} ElemsParse(es: Elems, k: bytes, acc: seq<Json>)
    requires ElemsOk(es) && ElemsFit(es) && k != []
    ensures SkipNext(ElemsText(es, k)).Ok?
    ensures var o := SkipNext(ElemsText(es, k));
      o.value != RBRACKET && PElems(o.value, o.rest, acc) == Ok(acc + Items(es), k)
    decreases es, 0
  {
    ItemsFrom(es, acc);
    if es.LastElem? {
      var c, q := ElemParses(es, RBRACKET, k, acc);
    } else {
      ElemsParse(es.rest, k, acc + [Value(es.node)]);
      var c, q := ElemParses(es, COMMA, ElemsText(es.rest, k), acc);
    }
  }

  lemma {:induction false} ItemsFrom(es: Elems, acc: seq<Json>)
    requires ElemsOk(es)
    ensures es.LastElem? ==> acc + Items(es) == acc + [Value(es.node)]
    ensures es.MoreElems? ==> acc + Items(es) == acc + [Value(es.node)] + Items(es.rest)
  {
    var rest := if es.LastElem? then [] else Items(es.rest);
    assert Items(es) == [Value(es.node)] + rest;
    assert acc + ([Value(es.node)] + rest) == acc + [Value(es.node)] + rest;
  }

  lemma {:induction false} PairsFrom(ms: Members, acc: seq<(bytes, Json)>)
    requires MembersOk(ms)
    ensures ms.LastMember? ==> acc + Pairs(ms) == acc + [(CharsValue(ms.key), Value(ms.node))]
    ensures ms.MoreMembers? ==> acc + Pairs(ms) == acc + [(CharsValue(ms.key), Value(ms.node))] + Pairs(ms.rest)
  {
    var pair := (CharsValue(ms.key), Value(ms.node));
    var rest := if ms.LastMember? then [] else Pairs(ms.rest);
    assert Pairs(ms) == [pair] + rest;
    assert acc + ([pair] + rest) == acc + [pair] + rest;
  }

  lemma {:induction false} MemberStep(q: bytes, acc: seq<(bytes, Json)>, key: Json, q0: bytes, q1: bytes,
                                      val: Json, q3: bytes, sep: byte, q4: bytes)
    requires q != [] && PString(QUOTE, q) == Ok(key, q0) && SkipNext(q0) == Ok(COLON, q1) && q1 != []
    requires PChild(q1[0], q1[1..]) == Ok(val, q3) && SkipNext(q3) == Ok(sep, q4)
    ensures sep == RBRACE ==> PMembers(QUOTE, q, acc) == Ok(acc + [(key.text, val)], q4)
    ensures sep == COMMA && SkipNext(q4).Ok? && SkipNext(q4).value == QUOTE && SkipNext(q4).rest != [] ==>
      PMembers(QUOTE, q, acc) == PMembers(QUOTE, SkipNext(q4).rest, acc + [(key.text, val)])
  {}

  /** One member, whatever separator and text come after it. */
  lemma {:induction false} MemberParses(ms: Members, sep: byte, after: bytes, acc: seq<(bytes, Json)>)
    returns (q: bytes)
    requires MembersOk(ms) && NodeFits(ms.node) && after != [] && EndsNumber(sep) && !IsSpace(sep)
    ensures q != [] && SkipNext(MemberText(ms, sep, after)) == Ok(QUOTE, q)
    ensures var pairs := acc + [(CharsValue(ms.key), Value(ms.node))];
      && (sep == RBRACE ==> PMembers(QUOTE, q, acc) == Ok(pairs, after))
      && (sep == COMMA && SkipNext(after).Ok? && SkipNext(after).value == QUOTE && SkipNext(after).rest != [] ==>
           PMembers(QUOTE, q, acc) == PMembers(QUOTE, SkipNext(after).rest, pairs))
    decreases ms.node, 3
  {
    var end := ms.post + ([sep] + after);
    var t := Text(ms.node, end);
    var value := ms.mid2 + t;
    var colon := ms.mid + ([COLON] + value);
    ValueParses(ms.node, ms.post, sep, after);
    ChildAfterSpace(ms.mid2, t);
    q := CharsText(ms.key, colon);
    CharsTextNonEmpty(ms.key, colon);
    SkipSpaces(ms.pre, QUOTE, q);
    StringParses(ms.key, colon);
    SkipSpaces(ms.mid, COLON, value);
    SkipSpaces(ms.post, sep, after);
    MemberStep(q, acc, StringValue(ms.key), colon, value, Value(ms.node), end, sep, after);
  }

  /** The loop of parseObject, entered at the first key. */
  lemma {:induction false} MembersParse(ms: Members, k: bytes, acc: seq<(bytes, Json)>)
    requires MembersOk(ms) && MembersFit(ms) && k != []
    ensures SkipNext(MembersText(ms, k)).Ok?
    ensures var o := SkipNext(MembersText(ms, k));
      o.value == QUOTE && o.rest != [] && PMembers(QUOTE, o.rest, acc) == Ok(acc + Pairs(ms), k)
    decreases ms, 0
  {
    PairsFrom(ms, acc);
    if ms.LastMember? {
      var q := MemberParses(ms, RBRACE, k, acc);
    } else {
      MembersParse(ms.rest, k, acc + [(CharsValue(ms.key), Value(ms.node))]);
      var q := MemberParses(ms, COMMA, MembersText(ms.rest, k), acc);
    }
  }

  // ---------------------------------------------------------------- whole texts

  lemma {:induction false} CharsAppend(cs: seq<Char>, k: bytes, more: bytes)
    ensures CharsText(cs, k) + more == CharsText(cs, k + more)
  {
    if cs != [] {
      var u := CharsText(cs[1..], k);
      CharsAppend(cs[1..], k, more);
      match cs[0] {
        case Plain(b) => Assoc([b], u, more);
        case Escaped(letter) =>
          assert CharText(cs[0], u) + more == [BACKSLASH] + ([letter] + (u + more));
        case Unicode(h0, h1, h2, h3) =>
          assert CharText(cs[0], u) + more
            == [BACKSLASH] + ([117] + ([h0] + ([h1] + ([h2] + ([h3] + (u + more))))));
      }
    } else {
      Assoc([QUOTE], k, more);
    }
  }

  lemma {:induction false} ExponentAppend(e: Exponent, k: bytes, more: bytes)
    ensures ExponentText(e, k) + more == ExponentText(e, k + more)
  {
    if e.Exponent? {
      Assoc(e.digits, k, more);
      var s := SignText(e.sign, e.digits + k);
      assert s + more == SignText(e.sign, e.digits + k + more);
      Assoc([if e.upper then 69 else 101], s, more);
    }
  }

  lemma {:induction false} NumberAppend(n: Number, k: bytes, more: bytes)
    ensures NumberText(n, k) + more == NumberText(n, k + more)
  {
    var x := ExponentText(n.exponent, k);
    var f := FractionText(n.fraction, x);
    ExponentAppend(n.exponent, k, more);
    Assoc(n.fraction, x, more);
    Assoc([DOT], n.fraction + x, more);
    Assoc(n.whole, f, more);
    Assoc(if n.negative then [MINUS] else [], n.whole + f, more);
  }

  lemma {:induction false} GapAppend(open: byte, gap: bytes, close: byte, k: bytes, more: bytes)
    ensures ([open] + (gap + ([close] + k))) + more == [open] + (gap + ([close] + (k + more)))
  {}

  /** What follows a text is not part of it. */
  lemma {:induction false} TextAppend(n: Node, k: bytes, more: bytes)
    ensures Text(n, k) + more == Text(n, k + more)
    decreases n, 1
  {
    match n {
      case NNumber(number) => NumberAppend(number, k, more);
      case NString(chars) => CharsAppend(chars, k, more); Assoc([QUOTE], CharsText(chars, k), more);
      case NEmptyArray(gap) => GapAppend(LBRACKET, gap, RBRACKET, k, more);
      case NArray(elems) => ElemsAppend(elems, k, more); Assoc([LBRACKET], ElemsText(elems, k), more);
      case NEmptyObject(gap) => GapAppend(LBRACE, gap, RBRACE, k, more);
      case NObject(members) => MembersAppend(members, k, more); Assoc([LBRACE], MembersText(members, k), more);
      case _ => Assoc(if n.NNull? then NULL else if n.NTrue? then TRUE else FALSE, k, more);
    }
  }

  lemma {:induction false} ElemsAppend(es: Elems, k: bytes, more: bytes)
    ensures ElemsText(es, k) + more == ElemsText(es, k + more)
    decreases es, 0
  {
    if es.LastElem? {
      ElemAppend(es, RBRACKET, k, more);
    } else {
      ElemsAppend(es.rest, k, more);
      ElemAppend(es, COMMA, ElemsText(es.rest, k), more);
    }
  }

  lemma {:induction false} ElemAppend(es: Elems, sep: byte, after: bytes, more: bytes)
    ensures ElemText(es, sep, after) + more == ElemText(es, sep, after + more)
    decreases es.node, 2
  {
    var end := es.post + ([sep] + after);
    assert end + more == es.post + ([sep] + (after + more));
    TextAppend(es.node, end, more);
    Assoc(es.pre, Text(es.node, end), more);
  }

  lemma {:induction false} MembersAppend(ms: Members, k: bytes, more: bytes)
    ensures MembersText(ms, k) + more == MembersText(ms, k + more)
    decreases ms, 0
  {
    if ms.LastMember? {
      MemberAppend(ms, RBRACE, k, more);
    } else {
      MembersAppend(ms.rest, k, more);
      MemberAppend(ms, COMMA, MembersText(ms.rest, k), more);
    }
  }

  lemma {:induction false} MemberAppend(ms: Members, sep: byte, after: bytes, more: bytes)
    ensures MemberText(ms, sep, after) + more == MemberText(ms, sep, after + more)
    decreases ms.node, 2
  {
    var end := ms.post + ([sep] + after);
    assert end + more == ms.post + ([sep] + (after + more));
    TextAppend(ms.node, end, more);
    var t := Text(ms.node, end);
    var colon := ms.mid + ([COLON] + (ms.mid2 + t));
    assert colon + more == ms.mid + ([COLON] + (ms.mid2 + (t + more)));
    CharsAppend(ms.key, colon, more);
    var key := CharsText(ms.key, colon);
    assert (ms.pre + ([QUOTE] + key)) + more == ms.pre + ([QUOTE] + (key + more));
  }

  /** The parser reads the whole text, whatever byte stands behind it. */
  lemma {:induction false} DocParses(d: Doc, last: byte)
    requires DocOk(d) && NodeFits(d.top)
    ensures ParseText(DocText(d) + [last]) == Ok(Value(d.top), [])
  {
    var k := d.post + [last];
    var t := Text(d.top, k);
    TextAppend(d.top, d.post, [last]);
    Assoc(d.pre, Text(d.top, d.post), [last]);
    var buffer := d.pre + t;
    NodeParses(d.top, k);
    TextStarts(d.top, k);
    assert t[0] == LBRACKET || t[0] == LBRACE;
    assert t == [t[0]] + t[1..];
    SkipSpaces(d.pre, t[0], t[1..]);
    OnlySpaces(d.post, last);
    assert SkipSpace(buffer[0], buffer[1..]) == (t[0], t[1..]);
    assert Value(d.top).Arr? || Value(d.top).Obj?;
  }

  /** A NUL after the text ends it, whatever comes behind. */
  lemma {:induction false} DocParsesToNul(d: Doc, more: bytes)
    requires DocOk(d) && NodeFits(d.top) && more != []
    ensures ParseText(DocText(d) + ([0] + more)) == Ok(Value(d.top), more)
  {
    var k := d.post + ([0] + more);
    var t := Text(d.top, k);
    TextAppend(d.top, d.post, [0] + more);
    Assoc(d.pre, Text(d.top, d.post), [0] + more);
    var buffer := d.pre + t;
    NodeParses(d.top, k);
    TextStarts(d.top, k);
    assert t[0] == LBRACKET || t[0] == LBRACE;
    assert t == [t[0]] + t[1..];
    SkipSpaces(d.pre, t[0], t[1..]);
    SkipSpaces(d.post, 0, more);
    assert SkipSpace(buffer[0], buffer[1..]) == (t[0], t[1..]);
    assert Value(d.top).Arr? || Value(d.top).Obj?;
  }
}
