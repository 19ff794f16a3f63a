/**
 For trees whose objects have different names, as section 2.2 of RFC 4627 asks, the value built means
 what the text denotes exactly when the tree is faithful.
 */
module Meanings {
  import opened Basics
  import opened RawMap
  import opened Hash
  import opened Json
  import opened Grammar
  import opened Surrogates
  import opened ParserSpec
  import opened NumberProofs
  import opened ParserProofs
  import opened Objects
  import opened ValueProofs
  import opened ObjectKeys
  import opened Refusals

  // ---------------------------------------------------------------- counting names

  /** The keys of the members, as characters. */
  function NameChars(ms: Members): (r: seq<seq<Char>>)
    requires MembersOk(ms)
    ensures |r| > 0 && forall i :: 0 <= i < |r| ==> CharsOk(r[i])
  {
    [ms.key] +
    match ms { case LastMember(_, _, _, _, _, _) => [] case MoreMembers(_, _, _, _, _, _, rest) => NameChars(rest) }
  }

  /** No two names stand for the same string. */
  ghost predicate Different(names: seq<seq<Char>>)
    requires forall i :: 0 <= i < |names| ==> CharsOk(names[i])
  {
    forall i, j :: 0 <= i < j < |names| ==> RfcValue(names[i]) != RfcValue(names[j])
  }

  lemma {:induction false} PairsAreNames(ms: Members)
    requires MembersOk(ms)
    ensures |Pairs(ms)| == |NameChars(ms)|
    ensures forall i :: 0 <= i < |Pairs(ms)| ==> Pairs(ms)[i].0 == CharsValue(NameChars(ms)[i])
  {
    if ms.MoreMembers? { PairsAreNames(ms.rest); }
  }

  ghost predicate StandsFor(names: seq<seq<Char>>, text: bytes) {
    exists j :: 0 <= j < |names| && CharsOk(names[j]) && RfcValue(names[j]) == text
  }

  lemma {:induction false} StandsForMore(name: seq<Char>, rest: seq<seq<Char>>, text: bytes)
    requires CharsOk(name)
    ensures StandsFor([name] + rest, text) <==> RfcValue(name) == text || StandsFor(rest, text)
  {
    var names := [name] + rest;
    assert names[0] == name;
    if StandsFor(rest, text) {
      var j :| 0 <= j < |rest| && CharsOk(rest[j]) && RfcValue(rest[j]) == text;
      assert names[j + 1] == rest[j];
    }
    if StandsFor(names, text) {
      var j :| 0 <= j < |names| && CharsOk(names[j]) && RfcValue(names[j]) == text;
      assert j > 0 ==> rest[j - 1] == names[j];
    }
  }

  lemma {:induction false} DenotedNames(ms: Members, text: bytes)
    requires MembersOk(ms)
    ensures text in MembersDenote(ms) <==> StandsFor(NameChars(ms), text)
  {
    if ms.MoreMembers? {
      DenotedNames(ms.rest, text);
      StandsForMore(ms.key, NameChars(ms.rest), text);
    } else {
      StandsForMore(ms.key, [], text);
      assert [ms.key] + [] == [ms.key];
    }
  }

  lemma {:induction false} FirstIsDifferent(ms: Members)
    requires MembersOk(ms) && ms.MoreMembers? && Different(NameChars(ms))
    ensures Different(NameChars(ms.rest)) && RfcValue(ms.key) !in MembersDenote(ms.rest)
  {
    var names, rest, text := NameChars(ms), NameChars(ms.rest), RfcValue(ms.key);
    assert names == [ms.key] + rest;
    forall i | 0 <= i < |rest|
      ensures rest[i] == names[i + 1] && RfcValue(rest[i]) != text
    {
      assert RfcValue(names[0]) != RfcValue(names[i + 1]);
    }
    DenotedNames(ms.rest, text);
  }

  lemma {:induction false} DenotedCount(ms: Members)
    requires MembersOk(ms) && Different(NameChars(ms))
    ensures |MembersDenote(ms)| == |NameChars(ms)|
  {
    if ms.MoreMembers? {
      FirstIsDifferent(ms);
      DenotedCount(ms.rest);
      assert MembersDenote(ms).Keys == MembersDenote(ms.rest).Keys + {RfcValue(ms.key)};
    }
  }

  // ---------------------------------------------------------------- names and pairs of surrogates

  /** Names that the library makes different strings of, each the string that some name stands for. */
  ghost predicate Covered(names: seq<seq<Char>>) {
    && (forall i :: 0 <= i < |names| ==> CharsOk(names[i]))
    && (forall i, j :: 0 <= i < j < |names| ==> CharsValue(names[i]) != CharsValue(names[j]))
    && (forall i :: 0 <= i < |names| ==> StandsFor(names, CharsValue(names[i])))
  }

  lemma {:induction false} Longest(names: seq<seq<Char>>, n: nat) returns (longest: nat)
    requires n <= |names| && forall i :: 0 <= i < |names| ==> CharsOk(names[i])
    ensures forall i :: 0 <= i < n ==> |CharsValue(names[i])| <= longest
  {
    longest := 0;
    if n > 0 {
      var before := Longest(names, n - 1);
      longest := if before < |CharsValue(names[n - 1])| then |CharsValue(names[n - 1])| else before;
    }
  }

  /** The string made of a name with a surrogate pair is that of a name with a longer one. */
  lemma {:induction false} Climb(names: seq<seq<Char>>, a: nat) returns (b: nat)
    requires Covered(names) && a < |names| && SurrogatePairs(names[a]) > 0
    ensures b < |names| && SurrogatePairs(names[b]) > 0 && |CharsValue(names[b])| > |CharsValue(names[a])|
  {
    assert StandsFor(names, CharsValue(names[a]));
    b :| 0 <= b < |names| && CharsOk(names[b]) && RfcValue(names[b]) == CharsValue(names[a]);
    PairsCostTwoBytes(names[b]);
    PairsCostTwoBytes(names[a]);
  }

  /** So no name holds a surrogate pair. */
  lemma {:induction false} NoClimb(names: seq<seq<Char>>, a: nat, longest: nat)
    requires Covered(names) && forall i :: 0 <= i < |names| ==> |CharsValue(names[i])| <= longest
    requires a < |names|
    ensures SurrogatePairs(names[a]) == 0
    decreases longest - |CharsValue(names[a])|
  {
    if SurrogatePairs(names[a]) > 0 {
      var b := Climb(names, a);
      NoClimb(names, b, longest);
    }
  }

  // ---------------------------------------------------------------- members one by one

  /** The members mean what they denote, one by one. */
  ghost predicate ValuesMean(ms: Members)
    requires MembersOk(ms)
  {
    Meaning(Value(ms.node)) == Denotes(ms.node) && (ms.MoreMembers? ==> ValuesMean(ms.rest))
  }

  /** The strings made of the names are those they stand for. */
  ghost predicate NamesMean(ms: Members)
    requires MembersOk(ms)
  {
    SurrogatePairs(ms.key) == 0 && (ms.MoreMembers? ==> NamesMean(ms.rest))
  }

  lemma {:induction false} NamesMeanAll(ms: Members)
    requires MembersOk(ms) && forall i :: 0 <= i < |NameChars(ms)| ==> SurrogatePairs(NameChars(ms)[i]) == 0
    ensures NamesMean(ms)
  {
    assert NameChars(ms)[0] == ms.key;
    if ms.MoreMembers? {
      assert NameChars(ms) == [ms.key] + NameChars(ms.rest);
      assert forall i :: 0 <= i < |NameChars(ms.rest)| ==> NameChars(ms.rest)[i] == NameChars(ms)[i + 1];
      NamesMeanAll(ms.rest);
    }
  }

  /** The first values of the names mean what the names denote. */
  ghost predicate FirstsAgree(ms: Members)
    requires MembersOk(ms)
  {
    forall text :: text in MembersDenote(ms) ==>
      MakeKey(text) in Firsts(Pairs(ms)) && MembersDenote(ms)[text] == Meaning(Firsts(Pairs(ms))[MakeKey(text)].value)
  }

  lemma {:induction false} FirstAgrees(ms: Members)
    requires MembersOk(ms) && SurrogatePairs(ms.key) == 0 && FirstsAgree(ms)
    ensures Meaning(Value(ms.node)) == Denotes(ms.node)
  {
    StringMeaningIff(ms.key);
    assert Pairs(ms)[0] == (RfcValue(ms.key), Value(ms.node));
    assert RfcValue(ms.key) in MembersDenote(ms);
  }

  lemma {:induction false} NamesMeanAt(ms: Members, i: nat)
    requires MembersOk(ms) && NamesMean(ms) && i < |NameChars(ms)|
    ensures i < |Pairs(ms)| && Pairs(ms)[i].0 == RfcValue(NameChars(ms)[i])
  {
    StringMeaningIff(ms.key);
    if i > 0 { NamesMeanAt(ms.rest, i - 1); }
  }

  lemma {:induction false} OtherKey(ms: Members, other: bytes)
    requires MembersOk(ms) && ms.MoreMembers? && NamesMean(ms) && AllDifferent(Pairs(ms))
    requires other in MembersDenote(ms.rest)
    ensures MakeKey(other) != MakeKey(RfcValue(ms.key))
  {
    DenotedNames(ms.rest, other);
    var names := NameChars(ms.rest);
    var j :| 0 <= j < |names| && CharsOk(names[j]) && RfcValue(names[j]) == other;
    NamesMeanAt(ms.rest, j);
    NamesMeanAt(ms, 0);
    assert Pairs(ms)[j + 1] == Pairs(ms.rest)[j];
    assert MakeKey(Pairs(ms)[0].0) != MakeKey(Pairs(ms)[j + 1].0);
  }

  lemma {:induction false} RestAgrees(ms: Members)
    requires MembersOk(ms) && ms.MoreMembers? && NamesMean(ms) && AllDifferent(Pairs(ms)) && FirstsAgree(ms)
    ensures FirstsAgree(ms.rest) && AllDifferent(Pairs(ms.rest))
  {
    StringMeaningIff(ms.key);
    var text, rest := RfcValue(ms.key), Pairs(ms.rest);
    assert Pairs(ms)[0] == (text, Value(ms.node)) && Pairs(ms)[1..] == rest;
    forall i, j | 0 <= i < j < |rest|
      ensures MakeKey(rest[i].0) != MakeKey(rest[j].0)
    {
      assert rest[i] == Pairs(ms)[i + 1] && rest[j] == Pairs(ms)[j + 1];
    }
    forall other | other in MembersDenote(ms.rest)
      ensures MakeKey(other) in Firsts(rest)
      ensures MembersDenote(ms.rest)[other] == Meaning(Firsts(rest)[MakeKey(other)].value)
    {
      OtherKey(ms, other);
      assert other in MembersDenote(ms) && other != text;
    }
  }

  lemma {:induction false} MembersMeanBack(ms: Members)
    requires MembersOk(ms) && NamesMean(ms) && AllDifferent(Pairs(ms)) && FirstsAgree(ms)
    ensures ValuesMean(ms)
  {
    FirstAgrees(ms);
    if ms.MoreMembers? {
      RestAgrees(ms);
      MembersMeanBack(ms.rest);
    }
  }

  // ---------------------------------------------------------------- objects

  ghost predicate ObjectAgrees(ms: Members)
    requires MembersOk(ms)
  {
    var o := Make(NewMap(|Pairs(ms)|), Pairs(ms));
    o.Some? && Meaning(Obj(o.value)) == AObject(MembersDenote(ms))
  }

  lemma {:induction false} AgreeingCount(ms: Members)
    requires MembersOk(ms) && Different(NameChars(ms)) && ObjectAgrees(ms)
    ensures var r := Make(NewMap(|Pairs(ms)|), Pairs(ms)).value; |MeaningSlots(r.slots, r.RawHash?)| == |Pairs(ms)|
  {
    var r := Make(NewMap(|Pairs(ms)|), Pairs(ms)).value;
    assert Meaning(Obj(r)) == AObject(MeaningSlots(r.slots, r.RawHash?));
    DenotedCount(ms);
    PairsAreNames(ms);
  }

  lemma {:induction false} AgreeingIsWhole(ms: Members)
    requires MembersOk(ms) && Different(NameChars(ms)) && ObjectAgrees(ms)
    ensures AllDifferent(Pairs(ms)) && NamesFaithful(Texts(Pairs(ms)))
  {
    AgreeingCount(ms);
    NothingLost(Pairs(ms));
  }

  lemma {:induction false} NameIsBuilt(pairs: seq<(bytes, Json)>, i: nat)
    requires NamesFaithful(Texts(pairs)) && i < |pairs|
    ensures var o := Make(NewMap(|pairs|), pairs);
      o.Some? && Meaning(Obj(o.value)).AObject? && pairs[i].0 in Meaning(Obj(o.value)).members
  {
    ObjectHolds(pairs);
    FirstsHaveAll(pairs, i);
    var j := FirstsAreMembers(pairs, MakeKey(pairs[i].0));
    assert i != j ==> !Confusable(Texts(pairs)[i], Texts(pairs)[j]);
    ConfusableIff(pairs[i].0, pairs[j].0);
    HeldMeans(Make(NewMap(|pairs|), pairs).value, pairs, pairs[i].0);
  }

  lemma {:induction false} NameIsCovered(ms: Members, i: nat)
    requires MembersOk(ms) && ObjectAgrees(ms) && NamesFaithful(Texts(Pairs(ms))) && i < |NameChars(ms)|
    ensures StandsFor(NameChars(ms), CharsValue(NameChars(ms)[i]))
  {
    var text := CharsValue(NameChars(ms)[i]);
    PairsAreNames(ms);
    assert Pairs(ms)[i].0 == text;
    NameIsBuilt(Pairs(ms), i);
    DenotedNames(ms, text);
  }

  lemma {:induction false} AgreeingHasNoPairs(ms: Members)
    requires MembersOk(ms) && ObjectAgrees(ms) && AllDifferent(Pairs(ms)) && NamesFaithful(Texts(Pairs(ms)))
    ensures NamesMean(ms)
  {
    var names := NameChars(ms);
    PairsAreNames(ms);
    forall i, j | 0 <= i < j < |names|
      ensures CharsValue(names[i]) != CharsValue(names[j])
    {
      assert MakeKey(Pairs(ms)[i].0) != MakeKey(Pairs(ms)[j].0);
    }
    forall i | 0 <= i < |names|
      ensures StandsFor(names, CharsValue(names[i]))
    {
      NameIsCovered(ms, i);
    }
    var longest := Longest(names, |names|);
    forall i | 0 <= i < |names|
      ensures SurrogatePairs(names[i]) == 0
    {
      NoClimb(names, i, longest);
    }
    NamesMeanAll(ms);
  }

  lemma {:induction false} AgreeingValues(ms: Members)
    requires MembersOk(ms) && ObjectAgrees(ms) && NamesMean(ms)
    requires AllDifferent(Pairs(ms)) && NamesFaithful(Texts(Pairs(ms)))
    ensures ValuesMean(ms)
  {
    var r := Make(NewMap(|Pairs(ms)|), Pairs(ms)).value;
    ObjectHolds(Pairs(ms));
    forall text | text in MembersDenote(ms)
      ensures MakeKey(text) in Firsts(Pairs(ms))
      ensures MembersDenote(ms)[text] == Meaning(Firsts(Pairs(ms))[MakeKey(text)].value)
    {
      HeldMeans(r, Pairs(ms), text);
    }
    MembersMeanBack(ms);
  }

  // ---------------------------------------------------------------- trees

  /** The names of every object in the tree are different. */
  ghost predicate DifferentNames(n: Node)
    requires NodeOk(n)
  {
    match n
    case NArray(elems) => ElemsDifferent(elems)
    case NObject(members) => Different(NameChars(members)) && MembersDifferent(members)
    case _ => true
  }

  ghost predicate ElemsDifferent(es: Elems)
    requires ElemsOk(es)
  {
    DifferentNames(es.node) &&
    match es { case LastElem(_, _, _) => true case MoreElems(_, _, _, rest) => ElemsDifferent(rest) }
  }

  ghost predicate MembersDifferent(ms: Members)
    requires MembersOk(ms)
  {
    DifferentNames(ms.node) &&
    match ms {
      case LastMember(_, _, _, _, _, _) => true
      case MoreMembers(_, _, _, _, _, _, rest) => MembersDifferent(rest)
    }
  }

  lemma {:induction false} LeafIsFaithful(n: Node)
    requires NodeOk(n) && NodeFits(n) && !n.NArray? && !n.NObject? && Meaning(Value(n)) == Denotes(n)
    ensures Faithful(n)
  {
    if n.NNumber? {
      if !IsInteger(n.number) { DoubleMeaningIff(n.number); }
    } else if n.NString? {
      StringMeaningIff(n.chars);
    }
  }

  /** A value that means what the text denotes comes from a faithful tree. */
  lemma {:induction false} MeaningIsFaithful(n: Node)
    requires NodeOk(n) && NodeFits(n) && DifferentNames(n) && Meaning(Value(n)) == Denotes(n)
    ensures Faithful(n)
    decreases n, 1
  {
    if n.NArray? {
      ElemsAreFaithful(n.elems);
    } else if n.NObject? {
      assert ObjectAgrees(n.members);
      AgreeingIsWhole(n.members);
      AgreeingHasNoPairs(n.members);
      AgreeingValues(n.members);
      MembersAreFaithful(n.members);
    } else {
      LeafIsFaithful(n);
    }
  }

  lemma {:induction false} ElemsAreFaithful(es: Elems)
    requires ElemsOk(es) && ElemsFit(es) && ElemsDifferent(es) && MeaningAll(Items(es)) == ElemsDenote(es)
    ensures ElemsFaithful(es)
    decreases es, 0
  {
    var items, denoted := Items(es), ElemsDenote(es);
    assert items[0] == Value(es.node) && denoted[0] == Denotes(es.node);
    assert MeaningAll(items)[0] == Meaning(items[0]) && MeaningAll(items)[1..] == MeaningAll(items[1..]);
    MeaningIsFaithful(es.node);
    if es.MoreElems? {
      assert items[1..] == Items(es.rest) && denoted[1..] == ElemsDenote(es.rest);
      ElemsAreFaithful(es.rest);
    }
  }

  lemma {:induction false} MembersAreFaithful(ms: Members)
    requires MembersOk(ms) && MembersFit(ms) && MembersDifferent(ms) && NamesMean(ms) && ValuesMean(ms)
    ensures MembersFaithful(ms)
    decreases ms, 0
  {
    MeaningIsFaithful(ms.node);
    if ms.MoreMembers? { MembersAreFaithful(ms.rest); }
  }

  /**
   The value built for a tree whose objects have different names means what the tree denotes if and only if
   the tree is faithful.
   */
  lemma {:induction false} ValueMeansIff(n: Node)
    requires NodeOk(n) && DifferentNames(n)
    ensures NodeFits(n) && Meaning(Value(n)) == Denotes(n) <==> Faithful(n)
  {
    if Faithful(n) {
      ValueMeans(n);
    } else if NodeFits(n) && Meaning(Value(n)) == Denotes(n) {
      MeaningIsFaithful(n);
    }
  }

  /** A text whose objects have different names is accepted with the value it denotes if and only if it is faithful. */
  lemma {:induction false} TextReadIff(d: Doc, last: byte)
    requires DocOk(d) && DifferentNames(d.top)
    ensures var r := ParseText(DocText(d) + [last]);
      r.Ok? && r.rest == [] && Meaning(r.value) == Denotes(d.top) <==> Faithful(d.top)
  {
    ValueMeansIff(d.top);
    DocParsesIff(d, last);
  }
}
