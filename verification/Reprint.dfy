/** Texts whose values print as texts of the same meaning. */
module Reprint {
  import opened Basics
  import opened Table
  import opened RawMap
  import opened KeysOnly
  import opened Hash
  import opened Json
  import opened Grammar
  import opened Printer
  import opened ParserSpec
  import opened StringProofs
  import opened NumberProofs
  import opened ParserProofs
  import opened Objects
  import opened ValueProofs
  import opened ObjectKeys
  import opened Acceptance
  import opened Refusals
  import opened RoundTrip

  // ---------------------------------------------------------------- such texts

  /** The string has no escape, or only ASCII. */
  predicate StringReprints(cs: seq<Char>)
    requires CharsOk(cs)
  {
    PlainPrefix(cs) == |cs| || Ascii(CharsValue(cs))
  }

  /** At most sixteen names, which contain nothing to be escaped, at most one of them empty, and none of hash 0. */
  predicate NamesReprint(texts: seq<bytes>) {
    && |texts| <= DELTA && EmptyOnce(texts) && NoZero(texts)
    && forall i :: 0 <= i < |texts| ==> Verbatim(texts[i])
  }

  /** Integers of 32 bits, and strings and objects of these kinds. */
  predicate Reprints(n: Node)
    requires NodeOk(n)
  {
    match n
    case NNumber(number) => IsInteger(number) && NumberFits(number) && NumberValue(number).Int32?
    case NString(cs) => StringReprints(cs)
    case NArray(elems) => ElemsReprint(elems)
    case NObject(members) => MembersReprint(members) && NamesReprint(NamesOf(members))
    case _ => true
  }

  predicate ElemsReprint(es: Elems)
    requires ElemsOk(es)
  {
    Reprints(es.node) &&
    match es { case LastElem(_, _, _) => true case MoreElems(_, _, _, rest) => ElemsReprint(rest) }
  }

  predicate MembersReprint(ms: Members)
    requires MembersOk(ms)
  {
    Reprints(ms.node) &&
    match ms {
      case LastMember(_, _, _, _, _, _) => true
      case MoreMembers(_, _, _, _, _, _, rest) => MembersReprint(rest)
    }
  }

  // ---------------------------------------------------------------- the names of a printed object

  lemma {:induction false} KeyTextIsShown(slots: seq<Slot<Member>>, hashed: bool, i: nat) returns (p: nat)
    requires i < |KeyTexts(slots, hashed)|
    ensures Stored(slots, p) && Shown(slots[p], hashed) && slots[p].val.name == KeyTexts(slots, hashed)[i]
  {
    var head := if Shown(slots[0], hashed) then 1 else 0;
    if i < head {
      p := 0;
    } else {
      var q := KeyTextIsShown(slots[1..], hashed, i - head);
      p := q + 1;
    }
  }

  lemma {:induction false} KeyTextsDiffer(slots: seq<Slot<Member>>, hashed: bool)
    requires Unique(slots) && Proper(slots)
    ensures var texts := KeyTexts(slots, hashed);
      && |texts| <= |Keys(slots)|
      && forall i, j :: 0 <= i < j < |texts| ==> MakeKey(texts[i]) != MakeKey(texts[j])
  {
    if slots != [] {
      var s, rest := slots[0], slots[1..];
      assert forall p :: 0 <= p < |rest| ==> rest[p] == slots[p + 1];
      KeyTextsDiffer(rest, hashed);
      KeysOfRest(slots);
      if Shown(s, hashed) {
        forall j | 0 <= j < |KeyTexts(rest, hashed)|
          ensures MakeKey(KeyTexts(rest, hashed)[j]) != s.key
        {
          var p := KeyTextIsShown(rest, hashed, j);
          assert rest[p] == slots[p + 1] && rest[p].key == MakeKey(rest[p].val.name);
        }
      }
    }
  }

  lemma {:induction false} KeysOfRest(slots: seq<Slot<Member>>)
    requires slots != [] && Unique(slots)
    ensures |Keys(slots)| == |Keys(slots[1..])| + if slots[0].Used? then 1 else 0
  {
    var head, rest := slots[0], slots[1..];
    forall k | k in Keys(slots)
      ensures k in Keys(rest) || (head.Used? && k == head.key)
    {
      var p :| 0 <= p < |slots| && slots[p].Used? && slots[p].key == k;
      assert p > 0 ==> rest[p - 1] == slots[p];
    }
    forall p | 0 <= p < |rest| && rest[p].Used?
      ensures rest[p].key in Keys(slots) && (head.Used? ==> rest[p].key != head.key)
    {
      assert rest[p] == slots[p + 1];
    }
    assert Keys(slots) == Keys(rest) + if head.Used? then {head.key} else {};
  }

  lemma {:induction false} ShownNamesFaithful(pairs: seq<(bytes, Json)>)
    requires NamesReprint(Texts(pairs)) && Make(NewMap(|pairs|), pairs).Some?
    requires HoldsFirsts(Make(NewMap(|pairs|), pairs).value, pairs)
    ensures var r := Make(NewMap(|pairs|), pairs).value; NamesFaithful(KeyTexts(r.slots, r.RawHash?))
  {
    var r := Make(NewMap(|pairs|), pairs).value;
    var texts := KeyTexts(r.slots, r.RawHash?);
    HeldIsProper(r, pairs);
    KeyTextsDiffer(r.slots, r.RawHash?);
    FirstsKeys(pairs);
    KeysCount(pairs);
    assert Keys(r.slots) == View(r.slots).Keys;
    forall i | 0 <= i < |texts|
      ensures Fnv1a(texts[i]) != 0
    {
      var p := KeyTextIsShown(r.slots, r.RawHash?, i);
      var j := RecordIsMember(pairs, p);
      assert Texts(pairs)[j] == texts[i];
    }
    forall i, j | 0 <= i < |texts| && 0 <= j < |texts| && i != j
      ensures !Confusable(texts[i], texts[j])
    {
      ConfusableIff(texts[i], texts[j]);
    }
    SixteenNamesFaithful(texts);
  }

  // ---------------------------------------------------------------- their values survive

  lemma {:induction false} PlainIsVerbatim(cs: seq<Char>)
    requires CharsOk(cs) && PlainPrefix(cs) == |cs|
    ensures Verbatim(CharsValue(cs))
  {
    if cs != [] {
      PlainIsVerbatim(cs[1..]);
    }
  }

  lemma {:induction false} SlotsSurvive(slots: seq<Slot<Member>>, hashed: bool)
    requires forall p :: 0 <= p < |slots| && slots[p].Used? ==>
      Verbatim(slots[p].val.name) && Survives(slots[p].val.value)
    ensures SurviveSlots(slots, hashed)
  {
    if slots != [] {
      var rest := slots[1..];
      assert forall p :: 0 <= p < |rest| ==> rest[p] == slots[p + 1];
      SlotsSurvive(rest, hashed);
    }
  }

  lemma {:induction false} ObjectSurvives(pairs: seq<(bytes, Json)>)
    requires NamesReprint(Texts(pairs)) && forall i :: 0 <= i < |pairs| ==> Survives(pairs[i].1)
    ensures Make(NewMap(|pairs|), pairs).Some? && Survives(Obj(Make(NewMap(|pairs|), pairs).value))
  {
    FewReady(pairs);
    PlainHolds(pairs);
    var r := Make(NewMap(|pairs|), pairs).value;
    forall p | 0 <= p < |r.slots| && r.slots[p].Used?
      ensures Verbatim(r.slots[p].val.name) && Survives(r.slots[p].val.value)
    {
      var i := RecordIsMember(pairs, p);
      assert Texts(pairs)[i] == pairs[i].0;
    }
    SlotsSurvive(r.slots, r.RawHash?);
    ShownNamesFaithful(pairs);
  }

  lemma {:induction false} FewReady(pairs: seq<(bytes, Json)>)
    requires |pairs| <= DELTA
    ensures KeysReady(Names(Texts(pairs)))
  {
    FewSetsReady(|pairs|, pairs);
    ReadyFromKeys(pairs);
  }

  lemma {:induction false} ReprintSurvives(n: Node)
    requires NodeOk(n) && Reprints(n)
    ensures NodeFits(n) && Survives(Value(n))
    decreases n, 1
  {
    if n.NString? {
      if PlainPrefix(n.chars) == |n.chars| { PlainIsVerbatim(n.chars); }
    } else if n.NNumber? {
      IntegerMeaning(n.number);
    } else if n.NArray? {
      ItemsSurvive(n.elems);
    } else if n.NObject? {
      MembersSurvive(n.members);
      NamesOfPairs(n.members);
      ObjectSurvives(Pairs(n.members));
    } else if n.NEmptyObject? {
      EmptySurvives();
    }
  }

  lemma {:induction false} EmptySurvives()
    ensures Survives(Obj(NewMap(0)))
  {
    assert NewMap(0) == Make(NewMap(0), []).value;
    ObjectSurvives([]);
  }

  lemma {:induction false} ItemsSurvive(es: Elems)
    requires ElemsOk(es) && ElemsReprint(es)
    ensures ElemsFit(es) && SurviveAll(Items(es))
    decreases es, 0
  {
    ReprintSurvives(es.node);
    assert Items(es)[1..] == if es.LastElem? then [] else Items(es.rest);
    if es.MoreElems? { ItemsSurvive(es.rest); }
  }

  lemma {:induction false} MembersSurvive(ms: Members)
    requires MembersOk(ms) && MembersReprint(ms)
    ensures MembersFit(ms) && forall i :: 0 <= i < |Pairs(ms)| ==> Survives(Pairs(ms)[i].1)
    decreases ms, 0
  {
    ReprintSurvives(ms.node);
    if ms.MoreMembers? {
      MembersSurvive(ms.rest);
      assert forall i :: 1 <= i < |Pairs(ms)| ==> Pairs(ms)[i] == Pairs(ms.rest)[i - 1];
    }
  }

  /** Such a text is accepted, and what is printed of its value is accepted with the same meaning. */
  lemma {:induction false} ParsePrintParse(d: Doc, last: byte)
    requires DocOk(d) && Reprints(d.top)
    ensures var r := ParseText(DocText(d) + [last]);
      && r.Ok? && r.rest == [] && Printable(r.value)
      && (var again := ParseText(Print(r.value) + [0]);
          again.Ok? && again.rest == [] && Meaning(again.value) == Meaning(r.value))
  {
    ReprintSurvives(d.top);
    DocParsesIff(d, last);
    PrintThenParse(Value(d.top), []);
    assert [0] + [] == [0];
  }

  // ---------------------------------------------------------------- names that do not print as themselves

  lemma {:induction false} BrokenKey(front: bytes, c: byte, more: bytes)
    requires Verbatim(front) && c != COLON && !IsSpace(c) && more != []
    ensures ParseText([LBRACE] + ([QUOTE] + (front + ([QUOTE] + ([c] + more))))) == Fail(Thrown(MissingColon))
  {
    var chars, k := PlainChars(front), [c] + more;
    PlainCharsText(front, k);
    StringParses(chars, k);
    var q := CharsText(chars, k);
    assert q != [];
    var rest := [QUOTE] + q;
    assert SkipNext(rest) == Ok(QUOTE, q);
    assert SkipNext(k) == Ok(c, more);
    assert PMembers(QUOTE, q, []) == Fail(Thrown(MissingColon));
    assert PObject(rest) == Fail(Thrown(MissingColon));
    assert PChild(LBRACE, rest) == Fail(Thrown(MissingColon));
  }

  lemma {:induction false} JoinStarts(parts: seq<bytes>)
    requires parts != []
    ensures exists tail :: Join(parts) == parts[0] + tail
  {
    if |parts| > 1 {
      JoinHead(parts);
    } else {
      assert parts[0] == parts[0] + [];
    }
  }

  lemma {:induction false} QuotedAgain(front: bytes, c: byte, back: bytes, value: bytes, tail: bytes)
    returns (more: bytes)
    ensures more != []
    ensures var part := [QUOTE] + (front + ([QUOTE] + ([c] + back))) + [QUOTE] + [COLON] + value;
      [LBRACE] + (part + tail) + [RBRACE] + [0] == [LBRACE] + ([QUOTE] + (front + ([QUOTE] + ([c] + more))))
  {
    more := back + [QUOTE] + [COLON] + value + tail + [RBRACE] + [0];
  }

  /** An object whose first printed name holds a quote prints as a text that the parser refuses. */
  lemma {:induction false} QuoteInName(j: Json, front: bytes, c: byte, back: bytes)
    requires j.Obj? && Printable(j) && Verbatim(front) && c != COLON && !IsSpace(c)
    requires KeyTexts(j.members.slots, j.members.RawHash?) != []
    requires KeyTexts(j.members.slots, j.members.RawHash?)[0] == front + ([QUOTE] + ([c] + back))
    ensures ParseText(Print(j) + [0]) == Fail(Thrown(MissingColon))
  {
    var parts := PrintSlots(j.members.slots, j.members.RawHash?);
    var name, value := FirstPart(j.members.slots, j.members.RawHash?);
    JoinStarts(parts);
    var tail: bytes :| Join(parts) == parts[0] + tail;
    var more := QuotedAgain(front, c, back, value, tail);
    assert Print(j) == [LBRACE] + (parts[0] + tail) + [RBRACE];
    BrokenKey(front, c, more);
  }

  lemma {:induction false} FirstPart(slots: seq<Slot<Member>>, hashed: bool) returns (name: bytes, value: bytes)
    requires PrintableSlots(slots, hashed) && KeyTexts(slots, hashed) != []
    ensures name == KeyTexts(slots, hashed)[0] && PrintSlots(slots, hashed) != []
    ensures PrintSlots(slots, hashed)[0] == [QUOTE] + name + [QUOTE] + [COLON] + value
  {
    if Shown(slots[0], hashed) {
      name, value := slots[0].val.name, Print(slots[0].val.value);
      var part := [QUOTE] + name + [QUOTE] + [COLON] + value;
      assert PrintSlot(slots[0], hashed) == [part];
      assert PrintSlots(slots, hashed) == [part] + PrintSlots(slots[1..], hashed);
    } else {
      name, value := FirstPart(slots[1..], hashed);
      assert PrintSlots(slots, hashed) == [] + PrintSlots(slots[1..], hashed);
    }
  }
}
