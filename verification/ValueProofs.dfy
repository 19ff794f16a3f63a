/** The value the parser builds means what the text denotes; in an object the first of equal names counts. */
module ValueProofs {
  import opened Basics
  import opened Table
  import opened ObjectMap
  import opened RawMap
  import opened Hash
  import opened Json
  import opened Grammar
  import opened ParserSpec
  import opened NumberProofs
  import opened Surrogates
  import opened ParserProofs
  import opened Objects

  // ---------------------------------------------------------------- meanings

  /** Every record is stored under the key of its name. */
  ghost predicate Proper(slots: seq<Slot<Member>>) {
    forall p :: 0 <= p < |slots| && slots[p].Used? ==> slots[p].key == MakeKey(slots[p].val.name)
  }

  lemma {:induction false} ViewCons(slots: seq<Slot<Member>>)
    requires slots != [] && Unique(slots)
    ensures Unique(slots[1..])
    ensures View(slots) == if slots[0].Free? then View(slots[1..]) else View(slots[1..])[slots[0].key := slots[0].val]
  {
    var rest := slots[1..];
    assert forall p :: 0 <= p < |rest| ==> rest[p] == slots[p + 1];
    if slots[0].Used? {
      assert slots[0].key in Keys(slots);
      assert Keys(slots) == Keys(rest) + {slots[0].key};
    } else {
      assert Keys(slots) == Keys(rest);
    }
    forall k | k in Keys(slots)
      ensures if slots[0].Used? && k == slots[0].key then View(slots)[k] == slots[0].val
              else k in Keys(rest) && View(slots)[k] == View(rest)[k]
    {
      var p :| 0 <= p < |slots| && slots[p].Used? && slots[p].key == k;
      ViewAt(slots, p);
      if p > 0 {
        assert rest[p - 1] == slots[p];
        ViewAt(rest, p - 1);
      }
    }
  }

  lemma {:induction false} SlotsMean(slots: seq<Slot<Member>>, text: bytes)
    requires Unique(slots) && Proper(slots)
    ensures var meaning, key := MeaningSlots(slots, false), MakeKey(text);
      && (text in meaning <==> key in View(slots) && View(slots)[key].name == text)
      && (text in meaning ==> meaning[text] == Meaning(View(slots)[key].value))
  {
    if slots != [] {
      var rest := slots[1..];
      assert forall p :: 0 <= p < |rest| ==> rest[p] == slots[p + 1];
      ViewCons(slots);
      SlotsMean(rest, text);
    }
  }

  lemma {:induction false} HeldIsProper(r: Raw<Member>, pairs: seq<(bytes, Json)>)
    requires HoldsFirsts(r, pairs)
    ensures Proper(r.slots)
  {
    forall p | 0 <= p < |r.slots| && r.slots[p].Used?
      ensures r.slots[p].key == MakeKey(r.slots[p].val.name)
    {
      ViewAt(r.slots, p);
      var i := FirstsAreMembers(pairs, r.slots[p].key);
    }
  }

  /** An object that holds the first occurrences means them. */
  lemma {:induction false} HeldMeans(r: Raw<Member>, pairs: seq<(bytes, Json)>, text: bytes)
    requires HoldsFirsts(r, pairs)
    ensures Meaning(Obj(r)).AObject?
    ensures var meaning, key := Meaning(Obj(r)).members, MakeKey(text);
      && (text in meaning <==> key in Firsts(pairs) && Firsts(pairs)[key].name == text)
      && (text in meaning ==> meaning[text] == Meaning(Firsts(pairs)[key].value))
  {
    HeldIsProper(r, pairs);
    if r.RawHash? { CleanMeaning(r.slots); }
    SlotsMean(r.slots, text);
  }

  // ---------------------------------------------------------------- the whole value

  /** The number is read as its value. */
  predicate NumberFaithful(n: Number)
    requires NumberOk(n)
  {
    && NumberFits(n)
    && (IsInteger(n) || (
      && UsedScale(n) >= -307
      && (n.exponent.Exponent? && n.exponent.sign.Negative? ==> ExponentSize(n) == 0 || Mantissa(n) == 0)))
  }

  /** Every number, string and object in the tree is read faithfully. */
  ghost predicate Faithful(n: Node)
    requires NodeOk(n)
  {
    match n
    case NNumber(number) => NumberFaithful(number)
    case NString(chars) => SurrogatePairs(chars) == 0
    case NArray(elems) => ElemsFaithful(elems)
    case NObject(members) => MembersFaithful(members) && NamesFaithful(Texts(Pairs(members)))
    case _ => true
  }

  ghost predicate ElemsFaithful(es: Elems)
    requires ElemsOk(es)
  {
    Faithful(es.node) &&
    match es { case LastElem(_, _, _) => true case MoreElems(_, _, _, rest) => ElemsFaithful(rest) }
  }

  ghost predicate MembersFaithful(ms: Members)
    requires MembersOk(ms)
  {
    SurrogatePairs(ms.key) == 0 && Faithful(ms.node) &&
    match ms {
      case LastMember(_, _, _, _, _, _) => true
      case MoreMembers(_, _, _, _, _, _, rest) => MembersFaithful(rest)
    }
  }

  lemma {:induction false} NumberMeans(n: Number)
    requires NumberOk(n) && NumberFaithful(n)
    ensures Meaning(NumberValue(n)) == NumberDenotes(n)
  {
    if IsInteger(n) { IntegerMeaning(n); } else { DoubleMeaningIff(n); }
  }

  lemma {:induction false} LeafMeans(n: Node)
    requires NodeOk(n) && Faithful(n) && !n.NArray? && !n.NObject?
    ensures NodeFits(n) && Meaning(Value(n)) == Denotes(n)
  {
    if n.NNumber? {
      NumberMeans(n.number);
    } else if n.NString? {
      StringMeaningIff(n.chars);
    } else if n.NEmptyObject? {
      EmptyMeans();
    }
  }

  /** A faithful tree's value means what the tree denotes. */
  lemma {:induction false} ValueMeans(n: Node)
    requires NodeOk(n) && Faithful(n)
    ensures NodeFits(n) && Meaning(Value(n)) == Denotes(n)
    decreases n, 1
  {
    if n.NArray? {
      ItemsMean(n.elems);
    } else if n.NObject? {
      MembersMean(n.members);
      ObjectDenotes(n.members);
    } else {
      LeafMeans(n);
    }
  }

  lemma {:induction false} HeldIsDenoted(ms: Members, r: Raw<Member>)
    requires MembersOk(ms) && NodesMean(ms) && Distinguishable(Texts(Pairs(ms))) && HoldsFirsts(r, Pairs(ms))
    ensures Meaning(Obj(r)) == AObject(MembersDenote(ms))
  {
    HeldMeans(r, Pairs(ms), []);
    var meaning := Meaning(Obj(r)).members;
    forall text
      ensures text in meaning <==> text in MembersDenote(ms)
      ensures text in meaning ==> meaning[text] == MembersDenote(ms)[text]
    {
      HeldMeans(r, Pairs(ms), text);
      FirstsMean(ms, text);
    }
    assert meaning == MembersDenote(ms);
  }

  lemma {:induction false} ObjectDenotes(ms: Members)
    requires MembersOk(ms) && NodesMean(ms) && NamesFaithful(Texts(Pairs(ms)))
    ensures var o := Make(NewMap(|Pairs(ms)|), Pairs(ms));
      o.Some? && Meaning(Obj(o.value)) == AObject(MembersDenote(ms))
  {
    ObjectHolds(Pairs(ms));
    HeldIsDenoted(ms, Make(NewMap(|Pairs(ms)|), Pairs(ms)).value);
  }

  lemma {:induction false} EmptyMeans()
    ensures Meaning(Obj(NewMap(0))) == AObject(map[])
  {
    var s := NewMap(0).slots;
    InitIsClean(0);
    LiftIsSound(InitMap<Member>(0));
    assert s[1..][1..][1..] == [];
    assert MeaningSlots(s, false) == MeaningSlots(s[1..], false) == MeaningSlots(s[1..][1..], false)
      == MeaningSlots(s[1..][1..][1..], false);
  }

  lemma {:induction false} ItemsMean(es: Elems)
    requires ElemsOk(es) && ElemsFaithful(es)
    ensures ElemsFit(es) && MeaningAll(Items(es)) == ElemsDenote(es)
    decreases es, 0
  {
    ValueMeans(es.node);
    assert Items(es)[1..] == if es.LastElem? then [] else Items(es.rest);
    if es.MoreElems? { ItemsMean(es.rest); }
  }

  lemma {:induction false} MembersMean(ms: Members)
    requires MembersOk(ms) && MembersFaithful(ms)
    ensures MembersFit(ms) && NodesMean(ms)
    decreases ms, 0
  {
    ValueMeans(ms.node);
    StringMeaningIff(ms.key);
    if ms.MoreMembers? { MembersMean(ms.rest); }
  }

  ghost predicate NodesMean(ms: Members)
    requires MembersOk(ms)
  {
    && RfcValue(ms.key) == CharsValue(ms.key) && Meaning(Value(ms.node)) == Denotes(ms.node)
    && (ms.MoreMembers? ==> NodesMean(ms.rest))
  }

  lemma {:induction false} RestDistinguishable(ms: Members)
    requires MembersOk(ms) && ms.MoreMembers? && Distinguishable(Texts(Pairs(ms)))
    ensures Distinguishable(Texts(Pairs(ms.rest)))
  {
    var texts, rest := Texts(Pairs(ms)), Texts(Pairs(ms.rest));
    forall i | 0 <= i < |rest|
      ensures rest[i] == texts[i + 1]
    {
      assert Pairs(ms.rest)[i] == Pairs(ms)[i + 1];
    }
  }

  lemma {:induction false} FirstsMean(ms: Members, text: bytes)
    requires MembersOk(ms) && NodesMean(ms) && Distinguishable(Texts(Pairs(ms)))
    ensures var firsts, key := Firsts(Pairs(ms)), MakeKey(text);
      && (text in MembersDenote(ms) <==> key in firsts && firsts[key].name == text)
      && (text in MembersDenote(ms) ==> MembersDenote(ms)[text] == Meaning(firsts[key].value))
  {
    var pairs, key := Pairs(ms), MakeKey(text);
    assert pairs[1..] == if ms.LastMember? then [] else Pairs(ms.rest);
    if ms.MoreMembers? {
      RestDistinguishable(ms);
      FirstsMean(ms.rest, text);
      if key in Firsts(pairs[1..]) && key == MakeKey(pairs[0].0) {
        var i := FirstsAreMembers(pairs[1..], key);
        assert pairs[1..][i] == pairs[i + 1];
        assert !Confusable(Texts(pairs)[0], Texts(pairs)[i + 1]);
        ConfusableIff(pairs[0].0, pairs[i + 1].0);
      }
    }
  }

  /** The parser accepts a faithful text, consumes all of it and returns the value it denotes. */
  lemma {:induction false} ParserIsComplete(d: Doc, last: byte)
    requires DocOk(d) && Faithful(d.top)
    ensures var r := ParseText(DocText(d) + [last]);
      r.Ok? && r.rest == [] && Meaning(r.value) == Denotes(d.top)
  {
    ValueMeans(d.top);
    DocParses(d, last);
  }
}
