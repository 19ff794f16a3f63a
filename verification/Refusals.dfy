/** Texts of the grammar that the parser does not survive, and so exactly which ones it accepts. */
module Refusals {
  import opened Basics
  import opened Json
  import opened Grammar
  import opened ParserSpec
  import opened StringProofs
  import opened NumberProofs
  import opened ParserProofs

  // ---------------------------------------------------------------- numbers

  lemma {:induction false} DigitsOverflow(s: bytes, k: bytes, v: nat, limit: nat)
    requires AllDigits(s) && k != [] && v <= limit < DigitsValue(s, v)
    ensures PDigits((s + k)[0], (s + k)[1..], v, limit) == Fail(Undefined)
  {
    var w := v * 10 + (s[0] - ZERO);
    assert (s + k)[1..] == s[1..] + k;
    if w <= limit {
      DigitsOverflow(s[1..], k, w, limit);
    }
  }

  /** One of the three digit loops overflows. */
  lemma {:induction false} LoopOverflows(n: Number, k: bytes)
    requires NumberOk(n) && k != [] && EndsNumber(k[0]) && (Mantissa(n) > INT64_MAX || ExponentSize(n) > INT32_MAX)
    ensures var x := ExponentText(n.exponent, k);
      var f := FractionText(n.fraction, x);
      var t, v := n.whole + f, DigitsValue(n.whole, 0);
      || PWhole(t[0], t[1..]) == Fail(Undefined)
      || (PWhole(t[0], t[1..]) == Ok(Digits(v, |n.whole|, f[0]), f[1..]) && (
            || PFraction(f[0], f[1..], v) == Fail(Undefined)
            || (PFraction(f[0], f[1..], v) == Ok(Digits(Mantissa(n), |n.fraction|, x[0]), x[1..])
                && PExponent(x[0], x[1..]) == Fail(Undefined))))
  {
    Boundaries(n, k);
    var x := ExponentText(n.exponent, k);
    var f, v := FractionText(n.fraction, x), DigitsValue(n.whole, 0);
    if v > INT64_MAX {
      WholeOverflows(n.whole, f);
    } else {
      WholeParses(n, f);
      if Mantissa(n) > INT64_MAX {
        DigitsOverflow(n.fraction, x, v, INT64_MAX);
        assert f[1..] == n.fraction + x;
      } else {
        FractionParses(n.fraction, x, v);
        ExponentOverflows(n.exponent, k);
      }
    }
  }

  lemma {:induction false} WholeOverflows(whole: bytes, k: bytes)
    requires whole != [] && AllDigits(whole) && (whole[0] == ZERO ==> |whole| == 1)
    requires k != [] && DigitsValue(whole, 0) > INT64_MAX
    ensures PWhole((whole + k)[0], (whole + k)[1..]) == Fail(Undefined)
  {
    DigitsOverflow(whole, k, 0, INT64_MAX);
  }

  lemma {:induction false} ExponentOverflows(e: Exponent, k: bytes)
    requires e.Exponent? && e.digits != [] && AllDigits(e.digits) && DigitsValue(e.digits, 0) > INT32_MAX && k != []
    ensures var t := ExponentText(e, k); PExponent(t[0], t[1..]) == Fail(Undefined)
  {
    var t, s := ExponentText(e, k), e.digits + k;
    assert t[1..] == SignText(e.sign, s);
    assert s[0] == e.digits[0];
    DigitsOverflow(e.digits, k, 0, INT32_MAX);
    if !e.sign.Unsigned? {
      assert SignText(e.sign, s)[1..] == s;
    }
  }

  lemma {:induction false} NumberFails(n: Number, k: bytes)
    requires NumberOk(n) && !NumberFits(n) && k != [] && EndsNumber(k[0])
    ensures var t := NumberText(n, k); PNumber(t[0], t[1..]) == Fail(Undefined)
  {
    Boundaries(n, k);
    SignParses(n, k);
    if Mantissa(n) <= INT64_MAX && ExponentSize(n) <= INT32_MAX {
      UnsignedParses(n, k);
    } else {
      LoopOverflows(n, k);
    }
  }

  // ---------------------------------------------------------------- values

  lemma {:induction false} NodeFails(n: Node, k: bytes)
    requires NodeOk(n) && !NodeFits(n) && Follows(n, k)
    ensures var t := Text(n, k); PChild(t[0], t[1..]) == Fail(Undefined)
    decreases n, 1
  {
    TextStarts(n, k);
    Dispatch(Text(n, k));
    if n.NNumber? {
      NumberFails(n.number, k);
    } else if n.NArray? {
      assert Text(n, k)[1..] == ElemsText(n.elems, k);
      ElemsFail(n.elems, k, []);
    } else {
      assert Text(n, k)[1..] == MembersText(n.members, k);
      if MembersFit(n.members) {
        MembersParse(n.members, k, []);
        assert [] + Pairs(n.members) == Pairs(n.members);
      } else {
        MembersFail(n.members, k, []);
      }
    }
  }

  lemma {:induction false} ValueFails(n: Node, post: bytes, sep: byte, after: bytes)
    requires NodeOk(n) && !NodeFits(n) && AllSpace(post) && EndsNumber(sep)
    ensures var t := Text(n, post + ([sep] + after));
      |t| > 1 && !IsSpace(t[0]) && t[0] != RBRACKET && PChild(t[0], t[1..]) == Fail(Undefined)
    decreases n, 2
  {
    SpaceFollows(n, post, sep, after);
    NodeFails(n, post + ([sep] + after));
    TextStarts(n, post + ([sep] + after));
  }

  lemma {:induction false} ValueStopsElems(c: byte, q: bytes, acc: seq<Json>)
    requires q != [] && PChild(c, q) == Fail(Undefined)
    ensures PElems(c, q, acc) == Fail(Undefined)
  {}

  lemma {:induction false} ElemFails(es: Elems, sep: byte, after: bytes, acc: seq<Json>)
    requires ElemsOk(es) && !NodeFits(es.node) && EndsNumber(sep)
    ensures var o := SkipNext(ElemText(es, sep, after));
      o.Ok? && o.value != RBRACKET && PElems(o.value, o.rest, acc) == Fail(Undefined)
    decreases es.node, 3
  {
    var t := Text(es.node, es.post + ([sep] + after));
    ValueFails(es.node, es.post, sep, after);
    assert t == [t[0]] + t[1..];
    assert SkipNext(ElemText(es, sep, after)) == Ok(t[0], t[1..]) by { SkipSpaces(es.pre, t[0], t[1..]); }
    ValueStopsElems(t[0], t[1..], acc);
  }

  /** The loop of parseArray fails at the first element that does not fit. */
  lemma {:induction false} ElemsFail(es: Elems, k: bytes, acc: seq<Json>)
    requires ElemsOk(es) && !ElemsFit(es) && k != []
    ensures var o := SkipNext(ElemsText(es, k));
      o.Ok? && o.value != RBRACKET && PElems(o.value, o.rest, acc) == Fail(Undefined)
    decreases es, 0
  {
    if !NodeFits(es.node) {
      if es.LastElem? { ElemFails(es, RBRACKET, k, acc); } else { ElemFails(es, COMMA, ElemsText(es.rest, k), acc); }
    } else {
      ElemsFail(es.rest, k, acc + [Value(es.node)]);
      var c, q := ElemParses(es, COMMA, ElemsText(es.rest, k), acc);
    }
  }

  lemma {:induction false} ValueStopsMember(q: bytes, acc: seq<(bytes, Json)>, key: Json, q0: bytes, q1: bytes)
    requires q != [] && PString(QUOTE, q) == Ok(key, q0) && SkipNext(q0) == Ok(COLON, q1) && q1 != []
    requires PChild(q1[0], q1[1..]) == Fail(Undefined)
    ensures PMembers(QUOTE, q, acc) == Fail(Undefined)
  {}

  lemma {:induction false} MemberFails(ms: Members, sep: byte, after: bytes, acc: seq<(bytes, Json)>)
    requires MembersOk(ms) && !NodeFits(ms.node) && EndsNumber(sep)
    ensures var o := SkipNext(MemberText(ms, sep, after));
      o.Ok? && o.value == QUOTE && o.rest != [] && PMembers(QUOTE, o.rest, acc) == Fail(Undefined)
    decreases ms.node, 3
  {
    var t := Text(ms.node, ms.post + ([sep] + after));
    var value := ms.mid2 + t;
    var colon := ms.mid + ([COLON] + value);
    ValueFails(ms.node, ms.post, sep, after);
    ChildAfterSpace(ms.mid2, t);
    var q := CharsText(ms.key, colon);
    CharsTextNonEmpty(ms.key, colon);
    SkipSpaces(ms.pre, QUOTE, q);
    StringParses(ms.key, colon);
    SkipSpaces(ms.mid, COLON, value);
    ValueStopsMember(q, acc, StringValue(ms.key), colon, value);
  }

  /** The loop of parseObject fails at the first member whose value does not fit. */
  lemma {:induction false} MembersFail(ms: Members, k: bytes, acc: seq<(bytes, Json)>)
    requires MembersOk(ms) && !MembersFit(ms) && k != []
    ensures var o := SkipNext(MembersText(ms, k));
      o.Ok? && o.value == QUOTE && o.rest != [] && PMembers(QUOTE, o.rest, acc) == Fail(Undefined)
    decreases ms, 0
  {
    if !NodeFits(ms.node) {
      if ms.LastMember? {
        MemberFails(ms, RBRACE, k, acc);
      } else {
        MemberFails(ms, COMMA, MembersText(ms.rest, k), acc);
      }
    } else {
      MembersFail(ms.rest, k, acc + [(CharsValue(ms.key), Value(ms.node))]);
      var q := MemberParses(ms, COMMA, MembersText(ms.rest, k), acc);
    }
  }

  /**
   A text of the grammar is accepted exactly when its numbers are in range and its objects' maps can be
   built; then all of it is read. It is never rejected with an error.
   */
  lemma {:induction false} DocParsesIff(d: Doc, last: byte)
    requires DocOk(d)
    ensures ParseText(DocText(d) + [last]) == if NodeFits(d.top) then Ok(Value(d.top), []) else Fail(Undefined)
  {
    if NodeFits(d.top) {
      DocParses(d, last);
    } else {
      var k := d.post + [last];
      var t := Text(d.top, k);
      TextAppend(d.top, d.post, [last]);
      Assoc(d.pre, Text(d.top, d.post), [last]);
      NodeFails(d.top, k);
      TextStarts(d.top, k);
      assert t == [t[0]] + t[1..];
      SkipSpaces(d.pre, t[0], t[1..]);
      var buffer := d.pre + t;
      assert SkipSpace(buffer[0], buffer[1..]) == (t[0], t[1..]);
    }
  }
}
