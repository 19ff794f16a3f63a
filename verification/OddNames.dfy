/** Objects with a name of hash 0, and with two names that the key comparison takes for one. */
module OddNames {
  import opened Basics
  import opened Table
  import opened ObjectMap
  import opened RawMap
  import opened Hash
  import opened LowHash
  import opened Bits
  import opened EqualNames
  import opened Json
  import opened Grammar
  import opened ParserSpec
  import opened ParserProofs
  import opened Objects
  import opened ValueProofs
  import opened KeysOnly
  import opened RoundTrip
  import opened Surrogates

  // ---------------------------------------------------------------- a name of hash 0

  /** One more letter, by exact arithmetic. */
  lemma {:induction false} ExactStep(s: bytes, c: byte, low: nat, high: nat, x: nat, quotient: nat, next: nat)
    requires Fnv1a(s) == 128 * high + low && low < 128 && c < 128 && XorLow(c, low) == x && next < WORD
    requires (x + 128 * high) * FNV_PRIME == quotient * WORD + next
    ensures Fnv1a(s + [c]) == next
  {
    var h := 128 * high + low;
    FnvFoldAppend(s, [c], FNV_BASIS);
    assert [c][1..] == [];
    DivModUnique(h, 128, high, low);
    StepSplit(h, c);
    DivModUnique((x + 128 * high) * FNV_PRIME, WORD, quotient, next);
  }

  lemma {:induction false} FirstLetter(s: bytes)
    requires Fnv1a(s) == 2166136261
    ensures Fnv1a(s + [51]) == 906799682
  {
    assert XorLow(51, 69) == 118;
    ExactStep(s, 51, 69, 16922939, 118, 8461673, 906799682);
  }

  lemma {:induction false} SecondLetter(s: bytes)
    requires Fnv1a(s) == 906799682
    ensures Fnv1a(s + [112]) == 1206906038
  {
    assert XorLow(112, 66) == 50;
    ExactStep(s, 112, 66, 7084372, 50, 3542271, 1206906038);
  }

  lemma {:induction false} ThirdLetter(s: bytes)
    requires Fnv1a(s) == 1206906038
    ensures Fnv1a(s + [106]) == 447864404
  {
    assert XorLow(106, 54) == 92;
    ExactStep(s, 106, 54, 9428953, 92, 4714590, 447864404);
  }

  lemma {:induction false} FourthLetter(s: bytes)
    requires Fnv1a(s) == 447864404
    ensures Fnv1a(s + [78]) == 536912622
  {
    assert XorLow(78, 84) == 26;
    ExactStep(s, 78, 84, 3498940, 26, 1749512, 536912622);
  }

  lemma {:induction false} FifthLetter(s: bytes)
    requires Fnv1a(s) == 536912622
    ensures Fnv1a(s + [113]) == 77
  {
    assert XorLow(113, 110) == 31;
    ExactStep(s, 113, 110, 4194629, 31, 2097365, 77);
  }

  lemma {:induction false} SixthLetter(s: bytes)
    requires Fnv1a(s) == 77
    ensures Fnv1a(s + [77]) == 0
  {
    assert XorLow(77, 77) == 0;
    ExactStep(s, 77, 77, 0, 0, 0, 0);
  }

  /** The name 3pjNqM. */
  lemma {:induction false} ZeroName() returns (name: bytes)
    ensures name == [51, 112, 106, 78, 113, 77] && Fnv1a(name) == 0
  {
    var s: bytes := [];
    FirstLetter(s);
    s := s + [51];
    SecondLetter(s);
    s := s + [112];
    ThirdLetter(s);
    s := s + [106];
    FourthLetter(s);
    s := s + [78];
    FifthLetter(s);
    s := s + [113];
    SixthLetter(s);
    name := s + [77];
  }

  // ---------------------------------------------------------------- objects with it

  lemma {:induction false} HeldMembers(r: Raw<Member>, pairs: seq<(bytes, Json)>, meaning: map<bytes, Abs>)
    requires HoldsFirsts(r, pairs)
    requires forall text :: text in meaning <==>
      MakeKey(text) in Firsts(pairs) && Firsts(pairs)[MakeKey(text)].name == text
    requires forall text :: text in meaning ==> meaning[text] == Meaning(Firsts(pairs)[MakeKey(text)].value)
    ensures Meaning(Obj(r)) == AObject(meaning)
  {
    HeldMeans(r, pairs, []);
    forall text
      ensures text in Meaning(Obj(r)).members <==> text in meaning
      ensures text in meaning ==> Meaning(Obj(r)).members[text] == meaning[text]
    {
      HeldMeans(r, pairs, text);
    }
    assert Meaning(Obj(r)).members == meaning;
  }

  lemma {:induction false} FirstsOfTwo(a: bytes, u: Json, b: bytes, v: Json)
    ensures Firsts([(a, u)]) == map[MakeKey(a) := Member(a, u)]
    ensures Firsts([(a, u), (b, v)]) == map[MakeKey(b) := Member(b, v)][MakeKey(a) := Member(a, u)]
  {
    var pairs := [(a, u), (b, v)];
    assert [(a, u)][1..] == [] && pairs[1..] == [(b, v)] && [(b, v)][1..] == [];
    assert Firsts([(b, v)]) == map[][MakeKey(b) := Member(b, v)];
    assert Firsts([(a, u)]) == map[][MakeKey(a) := Member(a, u)];
  }

  lemma {:induction false} ZeroIsKept(pairs: seq<(bytes, Json)>)
    requires 0 < |pairs| <= DICTMAP_THRESHOLD && Fnv1a(pairs[0].0) == 0
    requires forall i :: 1 <= i < |pairs| ==> pairs[i].0 != [] && Fnv1a(pairs[i].0) != 0
    ensures var o := Make(NewMap(|pairs|), pairs); o.Some? && HoldsFirsts(o.value, pairs)
  {
    var texts := Texts(pairs);
    assert pairs[0].0 != [];
    assert forall i :: 0 <= i < |texts| ==> texts[i] == pairs[i].0;
    assert ZeroAt(texts, 0);
    ObjectHolds(pairs);
  }

  /** Alone in its object such a name is read like any other. */
  lemma {:induction false} ZeroAlone(zero: bytes, u: Json)
    requires Fnv1a(zero) == 0
    ensures var o := Make(NewMap(1), [(zero, u)]);
      o.Some? && Meaning(Obj(o.value)) == AObject(map[zero := Meaning(u)])
  {
    var pairs := [(zero, u)];
    ZeroIsKept(pairs);
    FirstsOfTwo(zero, u, zero, u);
    HeldMembers(Make(NewMap(1), pairs).value, pairs, map[zero := Meaning(u)]);
  }

  /** And in front of another one. */
  lemma {:induction false} ZeroInFront(zero: bytes, u: Json, other: bytes, v: Json)
    requires Fnv1a(zero) == 0 && Fnv1a(other) != 0 && other != []
    ensures var o := Make(NewMap(2), [(zero, u), (other, v)]);
      o.Some? && Meaning(Obj(o.value)) == AObject(map[zero := Meaning(u), other := Meaning(v)])
  {
    var pairs := [(zero, u), (other, v)];
    assert MakeKey(zero).hash != MakeKey(other).hash;
    ZeroIsKept(pairs);
    FirstsOfTwo(zero, u, other, v);
    HeldMembers(Make(NewMap(2), pairs).value, pairs, map[zero := Meaning(u), other := Meaning(v)]);
  }

  /** Behind another name it is written over, and iteration goes on to a record that was never written. */
  lemma {:induction false} ZeroBehind(zero: bytes, u: Json, other: bytes, v: Json)
    requires Fnv1a(zero) == 0 && Fnv1a(other) != 0
    ensures var o := Make(NewMap(2), [(other, v), (zero, u)]);
      o.Some? && o.value.used == 2 && UsedCount(o.value.slots) == 1 && Meaning(Obj(o.value)) == AUnreadable
  {
    var pairs := [(other, v), (zero, u)];
    var r0 := NewMap(2);
    InitIsClean(2);
    UsedCountFresh<Member>(DICTMAP_THRESHOLD);
    var r1 := RawDict(r0.words[0 := 0], r0.slots[0 := Used(MakeKey(zero), Member(zero, u))], 1);
    var r2 := RawDict(r1.words[0 := Fnv1a(other)], r1.slots[0 := Used(MakeKey(other), Member(other, v))], 2);
    assert zero != [];
    assert SetMember(r0, (zero, u)) == Some(r1);
    assert r1.slots[0].key.hash != MakeKey(other).hash && !EmptyAgain(r1.slots, other);
    assert SetMember(r1, (other, v)) == Some(r2);
    MakeStep(r0, pairs);
    var front: seq<(bytes, Json)> := pairs[..1];
    assert front == [(other, v)];
    MakeStep(r1, front);
    assert r2.slots == r0.slots[0 := Used(MakeKey(other), Member(other, v))];
    UsedCountWrite(r0.slots, 0, Used(MakeKey(other), Member(other, v)));
    assert r2.slots[1].Free?;
  }

  // ---------------------------------------------------------------- names with a NUL

  /** The letters fn and a NUL bring the hash where it makes no difference which of the two words follows. */
  lemma {:induction false} Opening() returns (opening: bytes)
    ensures opening == [102, 110] + [0] && Enters(Fnv1a(opening))
  {
    var front := TwoLetterName(102, 110, 25, 85);
    NulBehind(front);
    opening := front + [0];
  }

  lemma {:induction false} NulBehind(front: bytes)
    requires Fnv1a(front) % 128 == 85
    ensures Enters(Fnv1a(front + [0]))
  {
    FnvFoldAppend(front, [0], FNV_BASIS);
    FoldLow([0], Fnv1a(front), 85);
    LowFoldOne(0, 85);
    NulStep();
    FnvFits(front + [0], FNV_BASIS);
  }

  lemma {:induction false} NulStep()
    ensures LowStep(85, 0) == LOW
  {}

  lemma {:induction false} SameHash(opening: bytes, start: bytes, u: bytes, v: bytes)
    requires Twins(start, u, v) && Enters(Fnv1a(opening))
    ensures Fnv1a(opening + u) == Fnv1a(opening + v) && Fnv1a(opening + u) % 128 == LOW
  {
    FnvFoldAppend(opening, u, FNV_BASIS);
    FnvFoldAppend(opening, v, FNV_BASIS);
  }

  /** The names fn, NUL, mlbvs and fn, NUL, sacxa. */
  lemma {:induction false} NulNames() returns (a: bytes, b: bytes)
    ensures |a| == |b| == 8 && a[..3] == b[..3] == [102, 110] + [0] && a != b
    ensures Confusable(a, b) && Fnv1a(a) != 0
  {
    var start, u, v := TwinsExist();
    var opening := Opening();
    a, b := opening + u, opening + v;
    SameHash(opening, start, u, v);
    UpToNulFront([102, 110], u);
    UpToNulFront([102, 110], v);
    assert a == [102, 110] + ([0] + u) && b == [102, 110] + ([0] + v);
    assert a[3] == u[0] && b[3] == v[0];
  }

  lemma {:induction false} UpToNulFront(front: bytes, rest: bytes)
    requires 0 !in front
    ensures UpToNul(front + ([0] + rest)) == front
  {
    var s := front + ([0] + rest);
    if front != [] {
      assert s[1..] == front[1..] + ([0] + rest);
      UpToNulFront(front[1..], rest);
    }
  }

  lemma {:induction false} TwoAreKept(pairs: seq<(bytes, Json)>)
    requires |pairs| == 2 && Fnv1a(pairs[0].0) != 0 && Fnv1a(pairs[1].0) != 0 && pairs[0].0 != []
    ensures var o := Make(NewMap(2), pairs); o.Some? && HoldsFirsts(o.value, pairs)
  {
    assert Texts(pairs)[0] == pairs[0].0 && Texts(pairs)[1] == pairs[1].0;
    ReadyFromSets(pairs);
    ObjectHolds(pairs);
  }

  /** Two names that are confused share a record, which keeps the first of them and its value. */
  lemma {:induction false} ConfusedShare(a: bytes, u: Json, b: bytes, v: Json)
    requires Confusable(a, b) && a != b && Fnv1a(a) != 0
    ensures var o := Make(NewMap(2), [(a, u), (b, v)]);
      o.Some? && Meaning(Obj(o.value)) == AObject(map[a := Meaning(u)])
  {
    var pairs := [(a, u), (b, v)];
    ConfusableIff(a, b);
    TwoAreKept(pairs);
    FirstsOfTwo(a, u, b, v);
    HeldMembers(Make(NewMap(2), pairs).value, pairs, map[a := Meaning(u)]);
  }

  lemma {:induction false} ReadyFromSets(pairs: seq<(bytes, Json)>)
    requires |pairs| <= DELTA
    ensures KeysReady(Names(Texts(pairs)))
  {
    var ops := KeySets(Names(Texts(pairs)));
    SetKeysBound(ops);
    SixteenKeysAlwaysReady(|pairs|, ops);
  }

  // ---------------------------------------------------------------- a text

  lemma {:induction false} OneMemberText(chars: seq<Char>, name: bytes)
    requires CharsText(chars, [58, 116, 114, 117, 101, 125]) == name + ([QUOTE] + [58, 116, 114, 117, 101, 125])
    ensures DocText(Doc([], NObject(LastMember([], chars, [], [], NTrue, [])), []))
      == [123, 34] + name + [34, 58, 116, 114, 117, 101, 125]
  {
    var end: bytes := [] + ([RBRACE] + []);
    var value: bytes := [] + ([COLON] + ([] + Text(NTrue, end)));
    assert value == [58, 116, 114, 117, 101, 125];
    var ms := LastMember([], chars, [], [], NTrue, []);
    assert MemberText(ms, RBRACE, []) == [] + StringText(chars, value);
    assert DocText(Doc([], NObject(ms), [])) == [] + ([LBRACE] + MemberText(ms, RBRACE, []));
  }

  lemma {:induction false} OneMemberDoc(name: bytes) returns (d: Doc)
    requires Verbatim(name)
    ensures DocOk(d) && d.top.NObject? && d.top.members.LastMember? && d.top.members.node == NTrue
    ensures DocText(d) == [123, 34] + name + [34, 58, 116, 114, 117, 101, 125]
    ensures Pairs(d.top.members) == [(name, Bool(true))] && SurrogatePairs(d.top.members.key) == 0
    ensures MembersDenote(d.top.members) == map[name := ABool(true)]
  {
    var chars := PlainChars(name);
    PlainCharsText(name, [58, 116, 114, 117, 101, 125]);
    StringMeaningIff(chars);
    OneMemberText(chars, name);
    d := Doc([], NObject(LastMember([], chars, [], [], NTrue, [])), []);
    assert MembersDenote(d.top.members) == map[][name := ABool(true)];
  }

  lemma {:induction false} OneZeroFaithful(texts: seq<bytes>)
    requires |texts| == 1 && Fnv1a(texts[0]) == 0
    ensures NamesFaithful(texts)
  {
    assert texts[0] != [];
    assert !NoZero(texts) && ZeroAt(texts, 0);
  }

  lemma {:induction false} OneMemberIsRead(d: Doc, last: byte)
    requires DocOk(d) && d.top.NObject? && d.top.members.LastMember? && d.top.members.node == NTrue
    requires SurrogatePairs(d.top.members.key) == 0
    requires Pairs(d.top.members) != [] && Fnv1a(Pairs(d.top.members)[0].0) == 0
    ensures var r := ParseText(DocText(d) + [last]);
      r.Ok? && r.rest == [] && Meaning(r.value) == Denotes(d.top)
  {
    OneZeroFaithful(Texts(Pairs(d.top.members)));
    assert Faithful(d.top);
    ParserIsComplete(d, last);
  }

  /** The text {"3pjNqM":true} is accepted and read as it stands. */
  lemma {:induction false} ZeroText(last: byte) returns (d: Doc, name: bytes)
    ensures name == [51, 112, 106, 78, 113, 77] && Fnv1a(name) == 0
    ensures DocOk(d) && DocText(d) == [123, 34] + name + [34, 58, 116, 114, 117, 101, 125]
    ensures var r := ParseText(DocText(d) + [last]);
      r.Ok? && r.rest == [] && Meaning(r.value) == AObject(map[name := ABool(true)])
  {
    name := ZeroName();
    d := OneMemberDoc(name);
    OneMemberIsRead(d, last);
  }
}
