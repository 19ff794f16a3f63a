/** Exactly when the map the parser makes for an object with different names holds all of its members. */
module ObjectKeys {
  import opened Basics
  import opened Table
  import opened Rehash
  import opened Growth
  import opened Ending
  import opened ObjectMap
  import opened RawMap
  import opened KeysOnly
  import opened Hash
  import opened Json
  import opened ParserSpec
  import opened Objects
  import opened ValueProofs

  ghost function KeysOf(pairs: seq<(bytes, Json)>): set<JString> {
    set i | 0 <= i < |pairs| :: MakeKey(pairs[i].0)
  }

  ghost predicate AllDifferent(pairs: seq<(bytes, Json)>) {
    forall i, j :: 0 <= i < j < |pairs| ==> MakeKey(pairs[i].0) != MakeKey(pairs[j].0)
  }

  lemma {:induction false} KeysOfSnoc(pairs: seq<(bytes, Json)>)
    requires pairs != []
    ensures var n := |pairs| - 1; KeysOf(pairs) == KeysOf(pairs[..n]) + {MakeKey(pairs[n].0)}
    ensures AllDifferent(pairs) ==>
      var n := |pairs| - 1; AllDifferent(pairs[..n]) && MakeKey(pairs[n].0) !in KeysOf(pairs[..n])
  {
    var n := |pairs| - 1;
    var front := pairs[..n];
    assert forall i :: 0 <= i < n ==> front[i] == pairs[i];
    forall k | k in KeysOf(pairs)
      ensures k in KeysOf(front) || k == MakeKey(pairs[n].0)
    {
      var i :| 0 <= i < |pairs| && k == MakeKey(pairs[i].0);
      if i < n { assert front[i] == pairs[i]; }
    }
  }

  lemma {:induction false} BuildKeys(m: MapState<Member>, pairs: seq<(bytes, Json)>)
    requires |m.slots| > 0 && Build(m, pairs).Some?
    ensures Keys(Build(m, pairs).value.slots) <= Keys(m.slots) + KeysOf(pairs)
    decreases |pairs|
  {
    if pairs != [] {
      var n := |pairs| - 1;
      var (text, val) := pairs[n];
      SetMapKeys(m, MakeKey(text), Member(text, val));
      BuildKeys(SetMap(m, MakeKey(text), Member(text, val)).0, pairs[..n]);
      KeysOfSnoc(pairs);
    }
  }

  lemma {:induction false} SetMapDense<V>(m: MapState<V>, key: JString, val: V)
    requires WfMap(m) && (m.hashed ==> Dense(m.slots)) && SetReady(m, key) && SetMap(m, key, val).1 != Exhausted
    ensures var u := SetMap(m, key, val).0; u.hashed ==> Dense(u.slots)
  {
    if m.hashed {
      SetStores(m.slots, key, val);
    } else if DictSlot(m.slots, key, 0) == |m.slots| {
      ConvertKeeps(m.slots);
      FewLeaveRoom(Convert(m.slots), key);
      SetStores(Convert(m.slots), key, val);
    }
  }

  /** Once a set drops a key, no later set of other keys brings it back. */
  lemma {:induction false} BuildLoses(m: MapState<Member>, pairs: seq<(bytes, Json)>) returns (lost: JString)
    requires WfMap(m) && (m.hashed ==> Dense(m.slots)) && !RunReady(m, Sets(pairs)) && Build(m, pairs).Some?
    requires AllDifferent(pairs) && Keys(m.slots) !! KeysOf(pairs)
    ensures lost in Keys(m.slots) + KeysOf(pairs) && lost !in Keys(Build(m, pairs).value.slots)
    decreases |pairs|
  {
    var n := |pairs| - 1;
    var (text, v) := pairs[n];
    var key, val, front := MakeKey(text), Member(text, v), pairs[..n];
    var u := SetMap(m, key, val).0;
    KeysOfSnoc(pairs);
    SetMapKeys(m, key, val);
    assert Sets(pairs)[0] == Set(key, val) && Sets(pairs)[1..] == Sets(front);
    if SetReady(m, key) {
      SetMapStores(m, key, val);
      SetMapDense(m, key, val);
      assert MapView(u).Keys == Keys(u.slots) && MapView(m).Keys == Keys(m.slots);
      lost := BuildLoses(u, front);
    } else {
      SetLoses(m.slots, key, val);
      lost :| lost in Keys(m.slots) && lost !in Keys(u.slots);
      BuildKeys(u, front);
    }
  }

  lemma {:induction false} FirstsKeys(pairs: seq<(bytes, Json)>)
    ensures Firsts(pairs).Keys == KeysOf(pairs)
    decreases |pairs|
  {
    if pairs != [] {
      FirstsSnoc(pairs);
      FirstsKeys(pairs[..|pairs| - 1]);
      KeysOfSnoc(pairs);
    }
  }

  lemma {:induction false} SetsAreKeySets(pairs: seq<(bytes, Json)>)
    ensures SameSets(Sets(pairs), KeySets(Names(Texts(pairs))))
  {}

  lemma {:induction false} ReadyFromKeys(pairs: seq<(bytes, Json)>)
    requires RunReady(InitMap(|pairs|), Sets(pairs))
    ensures KeysReady(Names(Texts(pairs)))
  {
    var keys := Names(Texts(pairs));
    SetsAreKeySets(pairs);
    assert SameMap(InitMap<Member>(|pairs|), InitMap<bool>(|pairs|));
    SameRunReady(InitMap<Member>(|pairs|), InitMap<bool>(|pairs|), Sets(pairs), KeySets(keys));
  }

  lemma {:induction false} NewLastDiffers(pairs: seq<(bytes, Json)>)
    requires pairs != []
    requires var n := |pairs| - 1; AllDifferent(pairs[..n]) && MakeKey(pairs[n].0) !in KeysOf(pairs[..n])
    ensures AllDifferent(pairs)
  {
    var n := |pairs| - 1;
    var front := pairs[..n];
    forall i | 0 <= i < n
      ensures MakeKey(pairs[i].0) != MakeKey(pairs[n].0) && front[i] == pairs[i]
    {
      assert MakeKey(front[i].0) in KeysOf(front);
    }
    forall i, j | 0 <= i < j < |pairs|
      ensures MakeKey(pairs[i].0) != MakeKey(pairs[j].0)
    {
      if j < n { assert MakeKey(front[i].0) != MakeKey(front[j].0); }
    }
  }

  lemma {:induction false} KeysCount(pairs: seq<(bytes, Json)>)
    ensures |KeysOf(pairs)| <= |pairs|
    ensures |KeysOf(pairs)| == |pairs| ==> AllDifferent(pairs)
    decreases |pairs|
  {
    if pairs != [] {
      var n := |pairs| - 1;
      KeysCount(pairs[..n]);
      KeysOfSnoc(pairs);
      if |KeysOf(pairs)| == |pairs| {
        NewLastDiffers(pairs);
      }
    }
  }

  /** Whatever is lost on the way, the map built is sound. */
  lemma {:induction false} BuildSound(m: MapState<Member>, pairs: seq<(bytes, Json)>)
    requires WfMap(m) && (m.hashed ==> Dense(m.slots)) && Build(m, pairs).Some?
    ensures WfMap(Build(m, pairs).value)
    decreases |pairs|
  {
    if pairs != [] {
      var n := |pairs| - 1;
      SetMapSound(m, MakeKey(pairs[n].0), Member(pairs[n].0, pairs[n].1));
      BuildSound(SetMap(m, MakeKey(pairs[n].0), Member(pairs[n].0, pairs[n].1)).0, pairs[..n]);
    }
  }

  lemma {:induction false} SameSize<T>(a: set<T>, b: set<T>)
    requires a <= b && |a| >= |b|
    ensures a == b
  {
    SubsetSize(b - a, b);
    assert b == a + (b - a);
    assert |b| == |a| + |b - a|;
  }

  lemma {:induction false} KeptIsReady(pairs: seq<(bytes, Json)>)
    requires AllDifferent(pairs) && Build(InitMap(|pairs|), pairs).Some?
    requires Keys(Build(InitMap(|pairs|), pairs).value.slots) == KeysOf(pairs)
    ensures KeysReady(Names(Texts(pairs)))
  {
    var m := InitMap<Member>(|pairs|);
    InitEmpty<Member>(|pairs|);
    assert Keys(m.slots) == MapView(m).Keys == {};
    if !RunReady(m, Sets(pairs)) {
      var lost := BuildLoses(m, pairs);
      assert false;
    }
    ReadyFromKeys(pairs);
  }

  // ---------------------------------------------------------------- counting names

  /** Every record of the map is a member of the text. */
  lemma {:induction false} MadeOfMembers(r: Raw<Member>, pairs: seq<(bytes, Json)>, s: Slot<Member>)
    requires Shape(r) && Make(r, pairs).Some? && s in Recs(Make(r, pairs).value.slots)
    ensures s in Recs(r.slots) || exists i :: 0 <= i < |pairs| && s == MemberSlot(pairs[i])
    decreases |pairs|
  {
    if pairs != [] {
      var n := |pairs| - 1;
      MakeStep(r, pairs);
      var u := SetMember(r, pairs[n]).value;
      SetRecs(r, MakeKey(pairs[n].0), Member(pairs[n].0, pairs[n].1));
      MadeOfMembers(u, pairs[..n], s);
      if s !in Recs(u.slots) {
        var i :| 0 <= i < n && s == MemberSlot(pairs[..n][i]);
        assert pairs[..n][i] == pairs[i];
      } else if s !in Recs(r.slots) {
        assert s == MemberSlot(pairs[n]);
      }
    }
  }

  function MemberSlot(pair: (bytes, Json)): Slot<Member> {
    Used(MakeKey(pair.0), Member(pair.0, pair.1))
  }

  lemma {:induction false} RecordIsMember(pairs: seq<(bytes, Json)>, p: nat) returns (i: nat)
    requires Make(NewMap(|pairs|), pairs).Some? && Stored(Make(NewMap(|pairs|), pairs).value.slots, p)
    ensures i < |pairs| && Make(NewMap(|pairs|), pairs).value.slots[p] == MemberSlot(pairs[i])
  {
    MadeOfMembers(NewMap(|pairs|), pairs, Make(NewMap(|pairs|), pairs).value.slots[p]);
    assert Recs(NewMap(|pairs|).slots) == {};
    i :| 0 <= i < |pairs| && Make(NewMap(|pairs|), pairs).value.slots[p] == MemberSlot(pairs[i]);
  }

  lemma {:induction false} NamesAreShown(slots: seq<Slot<Member>>, hashed: bool, text: bytes) returns (p: nat)
    requires text in MeaningSlots(slots, hashed)
    ensures Stored(slots, p) && slots[p].val.name == text && (hashed ==> slots[p].key.hash != 0)
  {
    if text in MeaningSlots(slots[1..], hashed) {
      var q := NamesAreShown(slots[1..], hashed, text);
      p := q + 1;
    } else {
      p := 0;
    }
  }

  lemma {:induction false} NamesBound(slots: seq<Slot<Member>>, hashed: bool, n: nat)
    requires forall i :: n <= i < |slots| ==> slots[i].Free?
    ensures |MeaningSlots(slots, hashed)| <= n
  {
    if slots != [] {
      NamesBound(slots[1..], hashed, if n == 0 then 0 else n - 1);
      var s, rest := slots[0], MeaningSlots(slots[1..], hashed);
      if s.Used? { assert rest[s.val.name := Meaning(s.val.value)].Keys == rest.Keys + {s.val.name}; }
    }
  }

  lemma {:induction false} FewerTexts(texts: set<bytes>, keys: set<JString>)
    requires forall text :: text in texts ==> MakeKey(text) in keys
    requires forall a, b :: a in texts && b in texts && MakeKey(a) == MakeKey(b) ==> a == b
    ensures |texts| <= |keys|
  {
    if texts != {} {
      var text :| text in texts;
      FewerTexts(texts - {text}, keys - {MakeKey(text)});
    }
  }

  lemma {:induction false} ElementsBound<T>(s: seq<T>)
    ensures |set x | x in s| <= |s|
  {
    if s != [] {
      ElementsBound(s[1..]);
      assert (set x | x in s) == (set x | x in s[1..]) + {s[0]};
    }
  }

  // ---------------------------------------------------------------- names of hash 0

  /** Nothing has been written to the dictionary from word n on. */
  ghost predicate EmptyFrom(r: Raw<Member>, n: nat) {
    r.RawDict? && Shape(r) && forall i :: n <= i < DICTMAP_THRESHOLD ==> r.words[i] == 0 && r.slots[i].Free?
  }

  /** A set writes to the first empty word or before it, and leaves that word empty if its key has hash 0. */
  lemma {:induction false} ScanStops(r: Raw<Member>, n: nat, key: JString, val: Member, i: nat)
    requires r.RawDict? && Shape(r) && i <= n < DICTMAP_THRESHOLD && r.words[n] == 0
    ensures var u := RawSetDict(r, key, val, i).0;
      && u.RawDict? && (forall p :: n < p < DICTMAP_THRESHOLD ==> u.words[p] == r.words[p] && u.slots[p] == r.slots[p])
      && (key.hash == 0 ==> u.words == r.words)
    decreases DICTMAP_THRESHOLD - i
  {
    if i < n { ScanStops(r, n, key, val, i + 1); }
  }

  lemma {:induction false} MembersFill(r: Raw<Member>, n: nat, pairs: seq<(bytes, Json)>)
    requires EmptyFrom(r, n) && n + |pairs| <= DICTMAP_THRESHOLD && Make(r, pairs).Some?
    ensures EmptyFrom(Make(r, pairs).value, n + |pairs|)
    decreases |pairs|
  {
    if pairs != [] {
      var last := pairs[|pairs| - 1];
      MakeStep(r, pairs);
      ScanStops(r, n, MakeKey(last.0), Member(last.0, last.1), 0);
      MembersFill(SetMember(r, last).value, n + 1, pairs[..|pairs| - 1]);
    }
  }

  /** After a name of hash 0 the next set takes no new word. */
  lemma {:induction false} TwoInOneWord(r: Raw<Member>, n: nat, zero: (bytes, Json), next: (bytes, Json))
    requires EmptyFrom(r, n) && n < DICTMAP_THRESHOLD && Fnv1a(zero.0) == 0
    requires SetMember(r, zero).Some? && SetMember(SetMember(r, zero).value, next).Some?
    ensures EmptyFrom(SetMember(SetMember(r, zero).value, next).value, n + 1)
  {
    ScanStops(r, n, MakeKey(zero.0), Member(zero.0, zero.1), 0);
    ScanStops(SetMember(r, zero).value, n, MakeKey(next.0), Member(next.0, next.1), 0);
  }

  lemma {:induction false} NewIsEmpty(size: nat)
    requires size <= DICTMAP_THRESHOLD
    ensures EmptyFrom(NewMap(size), 0)
  {}

  lemma {:induction false} ZeroTakesNoWord(pairs: seq<(bytes, Json)>, j: nat)
    requires 0 < j < |pairs| <= DICTMAP_THRESHOLD && Fnv1a(pairs[j].0) == 0 && Make(NewMap(|pairs|), pairs).Some?
    ensures EmptyFrom(Make(NewMap(|pairs|), pairs).value, |pairs| - 1)
  {
    var r, tail, front := NewMap(|pairs|), pairs[j + 1..], pairs[..j + 1];
    NewIsEmpty(|pairs|);
    MakeSplit(r, pairs, j + 1);
    MembersFill(r, 0, tail);
    var r0 := Make(r, tail).value;
    MakeStep(r0, front);
    var r1 := SetMember(r0, pairs[j]).value;
    assert front[..j] == pairs[..j] && pairs[..j][..j - 1] == pairs[..j - 1];
    MakeStep(r1, pairs[..j]);
    TwoInOneWord(r0, |tail|, pairs[j], pairs[j - 1]);
    MembersFill(SetMember(r1, pairs[j - 1]).value, |tail| + 1, pairs[..j - 1]);
  }

  /** No name that a table shows has hash 0. */
  lemma {:induction false} TableHidesZero(pairs: seq<(bytes, Json)>, text: bytes)
    requires |pairs| > DICTMAP_THRESHOLD && Fnv1a(text) == 0 && Make(NewMap(|pairs|), pairs).Some?
    ensures var r := Make(NewMap(|pairs|), pairs).value; r.RawHash? && text !in MeaningSlots(r.slots, true)
  {
    var slots := Make(NewMap(|pairs|), pairs).value.slots;
    StaysHash(NewMap(|pairs|), pairs);
    if text in MeaningSlots(slots, true) {
      var p := NamesAreShown(slots, true, text);
      var i := RecordIsMember(pairs, p);
    }
  }

  lemma {:induction false} StaysHash(r: Raw<Member>, pairs: seq<(bytes, Json)>)
    requires r.RawHash? && Shape(r) && Make(r, pairs).Some?
    ensures Make(r, pairs).value.RawHash?
    decreases |pairs|
  {
    if pairs != [] {
      MakeStep(r, pairs);
      StaysHash(SetMember(r, pairs[|pairs| - 1]).value, pairs[..|pairs| - 1]);
    }
  }

  /** So it shows fewer names than there are members. */
  lemma {:induction false} ZeroIsNotShown(pairs: seq<(bytes, Json)>, j: nat)
    requires j < |pairs| && |pairs| > DICTMAP_THRESHOLD && Fnv1a(pairs[j].0) == 0 && Make(NewMap(|pairs|), pairs).Some?
    ensures |MeaningSlots(Make(NewMap(|pairs|), pairs).value.slots, true)| < |pairs|
  {
    var slots := Make(NewMap(|pairs|), pairs).value.slots;
    var names, texts := MeaningSlots(slots, true).Keys, Texts(pairs);
    var others := texts[..j] + texts[j + 1..];
    forall text | text in names
      ensures text in others
    {
      var p := NamesAreShown(slots, true, text);
      var i := RecordIsMember(pairs, p);
      assert texts[i] == text && i != j;
      assert if i < j then others[i] == text else others[i - 1] == text;
    }
    ElementsBound(others);
    SubsetSize(names, set x | x in others);
  }

  // ---------------------------------------------------------------- exactly when every member is kept

  lemma {:induction false} DifferentAreDistinguishable(pairs: seq<(bytes, Json)>)
    requires AllDifferent(pairs)
    ensures Distinguishable(Texts(pairs)) && EmptyOnce(Texts(pairs))
  {
    DistinguishableIfDifferent(pairs);
    DistinguishableEmptyOnce(Texts(pairs));
  }

  lemma {:induction false} DistinguishableIfDifferent(pairs: seq<(bytes, Json)>)
    requires AllDifferent(pairs)
    ensures Distinguishable(Texts(pairs))
  {
    forall i, j | 0 <= i < |pairs| && 0 <= j < |pairs| && i != j
      ensures !Confusable(Texts(pairs)[i], Texts(pairs)[j])
    {
      assert MakeKey(pairs[i].0) != MakeKey(pairs[j].0);
      ConfusableIff(pairs[i].0, pairs[j].0);
    }
  }

  lemma {:induction false} MadeIsProper(pairs: seq<(bytes, Json)>)
    requires Make(NewMap(|pairs|), pairs).Some?
    ensures Proper(Make(NewMap(|pairs|), pairs).value.slots)
  {
    var slots := Make(NewMap(|pairs|), pairs).value.slots;
    forall p | 0 <= p < |slots| && slots[p].Used?
      ensures slots[p].key == MakeKey(slots[p].val.name)
    {
      var i := RecordIsMember(pairs, p);
    }
  }

  /** A map has no more names than keys. */
  lemma {:induction false} NamesPerKey(slots: seq<Slot<Member>>)
    requires Unique(slots) && Proper(slots)
    ensures |MeaningSlots(slots, false)| <= |Keys(slots)|
  {
    var names := MeaningSlots(slots, false).Keys;
    forall text | text in names
      ensures MakeKey(text) in Keys(slots) && View(slots)[MakeKey(text)].name == text
    {
      SlotsMean(slots, text);
    }
    FewerTexts(names, Keys(slots));
  }

  lemma {:induction false} PlainCount(pairs: seq<(bytes, Json)>)
    requires NoZero(Texts(pairs)) && Make(NewMap(|pairs|), pairs).Some?
    requires var r := Make(NewMap(|pairs|), pairs).value; |MeaningSlots(r.slots, r.RawHash?)| == |pairs|
    ensures AllDifferent(pairs) && KeysReady(Names(Texts(pairs)))
  {
    InitIsClean(|pairs|);
    InitEmpty<Member>(|pairs|);
    MakeLifts(InitMap(|pairs|), pairs);
    var m := Build(InitMap(|pairs|), pairs).value;
    BuildSound(InitMap(|pairs|), pairs);
    BuildKeys(InitMap(|pairs|), pairs);
    CleanIsLive(m.slots);
    CleanMeaning(m.slots);
    MadeIsProper(pairs);
    NamesPerKey(m.slots);
    SubsetSize(Keys(m.slots), KeysOf(pairs));
    KeysCount(pairs);
    SameSize(Keys(m.slots), KeysOf(pairs));
    KeptIsReady(pairs);
  }

  lemma {:induction false} ZeroIsFirst(pairs: seq<(bytes, Json)>, j: nat)
    requires j < |pairs| && Fnv1a(pairs[j].0) == 0 && Make(NewMap(|pairs|), pairs).Some?
    requires var r := Make(NewMap(|pairs|), pairs).value; |MeaningSlots(r.slots, r.RawHash?)| == |pairs|
    ensures |pairs| <= DICTMAP_THRESHOLD && j == 0
  {
    var r := Make(NewMap(|pairs|), pairs).value;
    if |pairs| > DICTMAP_THRESHOLD {
      StaysHash(NewMap(|pairs|), pairs);
      ZeroIsNotShown(pairs, j);
    } else if j > 0 {
      ZeroTakesNoWord(pairs, j);
      NamesBound(r.slots, false, |pairs| - 1);
    }
  }

  lemma {:induction false} TailCount(pairs: seq<(bytes, Json)>, m: MapState<Member>)
    requires 0 < |pairs| <= DICTMAP_THRESHOLD && Fnv1a(pairs[0].0) == 0 && NoZero(Texts(pairs[1..]))
    requires Build(InitMap(|pairs|), pairs[1..]) == Some(m) && Make(NewMap(|pairs|), pairs).Some?
    requires |MeaningSlots(Make(NewMap(|pairs|), pairs).value.slots, false)| == |pairs|
    ensures |Keys(m.slots)| == |pairs| - 1 && Keys(m.slots) <= KeysOf(pairs[1..])
  {
    var tail, r := pairs[1..], Make(NewMap(|pairs|), pairs).value;
    InitIsClean(|pairs|);
    UsedCountFresh<Member>(DICTMAP_THRESHOLD);
    MakeLifts(InitMap(|pairs|), tail);
    PlainBuild(InitMap(|pairs|), tail);
    ZeroIsSet(m, pairs[0]);
    ZeroSplits(pairs, 0, m, Haunted(m, MakeKey(pairs[0].0), Member(pairs[0].0, pairs[0].1)));
    assert pairs[..0] == [];
    PlainSlots(m);
    NamesBound(r.slots, false, UsedCount(m.slots) + 1);
    UsedCountIsKeys(m.slots);
    BuildKeys(InitMap(|pairs|), tail);
  }

  lemma {:induction false} ZeroCount(pairs: seq<(bytes, Json)>)
    requires !NoZero(Texts(pairs)) && Make(NewMap(|pairs|), pairs).Some?
    requires var r := Make(NewMap(|pairs|), pairs).value; |MeaningSlots(r.slots, r.RawHash?)| == |pairs|
    ensures |pairs| <= DICTMAP_THRESHOLD && AllDifferent(pairs) && ZeroAt(Texts(pairs), 0)
  {
    var texts, tail := Texts(pairs), pairs[1..];
    forall i | 0 <= i < |pairs| && Fnv1a(texts[i]) == 0
      ensures |pairs| <= DICTMAP_THRESHOLD && i == 0
    {
      ZeroIsFirst(pairs, i);
    }
    forall i | 0 <= i < |tail|
      ensures Texts(tail)[i] == texts[i + 1]
    {
      assert tail[i] == pairs[i + 1];
    }
    InitIsClean(|pairs|);
    MakeSplit(NewMap(|pairs|), pairs, 1);
    MakeLifts(InitMap(|pairs|), tail);
    MembersFill(NewMap(|pairs|), 0, pairs);
    TailCount(pairs, Build(InitMap(|pairs|), tail).value);
    SubsetSize(Keys(Build(InitMap(|pairs|), tail).value.slots), KeysOf(tail));
    KeysCount(tail);
    forall i, j | 0 <= i < j < |pairs|
      ensures MakeKey(pairs[i].0) != MakeKey(pairs[j].0)
    {
      assert tail[j - 1] == pairs[j];
      if i > 0 { assert tail[i - 1] == pairs[i]; }
    }
  }

  /** An object that shows as many names as there are members has lost none of them. */
  lemma {:induction false} NothingLost(pairs: seq<(bytes, Json)>)
    requires Make(NewMap(|pairs|), pairs).Some?
    requires var r := Make(NewMap(|pairs|), pairs).value; |MeaningSlots(r.slots, r.RawHash?)| == |pairs|
    ensures AllDifferent(pairs) && NamesFaithful(Texts(pairs))
  {
    if NoZero(Texts(pairs)) { PlainCount(pairs); } else { ZeroCount(pairs); }
    DifferentAreDistinguishable(pairs);
  }

  ghost function TextsOf(pairs: seq<(bytes, Json)>): set<bytes> {
    set i | 0 <= i < |pairs| :: pairs[i].0
  }

  lemma {:induction false} TextsSnoc(pairs: seq<(bytes, Json)>)
    requires pairs != []
    ensures var n := |pairs| - 1; TextsOf(pairs) == TextsOf(pairs[..n]) + {pairs[n].0}
  {
    var n := |pairs| - 1;
    var front := pairs[..n];
    assert forall i :: 0 <= i < n ==> front[i] == pairs[i];
    forall text | text in TextsOf(pairs)
      ensures text in TextsOf(front) || text == pairs[n].0
    {
      var i :| 0 <= i < |pairs| && pairs[i].0 == text;
      if i < n { assert front[i].0 == text; }
    }
  }

  lemma {:induction false} DifferentTexts(pairs: seq<(bytes, Json)>)
    requires AllDifferent(pairs)
    ensures |TextsOf(pairs)| == |pairs|
    decreases |pairs|
  {
    if pairs != [] {
      var n := |pairs| - 1;
      TextsSnoc(pairs);
      DifferentTexts(pairs[..n]);
      assert pairs[n].0 !in TextsOf(pairs[..n]) by {
        assert forall i :: 0 <= i < n ==> MakeKey(pairs[i].0) != MakeKey(pairs[n].0);
      }
    }
  }

  lemma {:induction false} HeldCount(r: Raw<Member>, pairs: seq<(bytes, Json)>)
    requires AllDifferent(pairs) && HoldsFirsts(r, pairs)
    ensures |MeaningSlots(r.slots, r.RawHash?)| == |pairs|
  {
    HeldMeans(r, pairs, []);
    var names := Meaning(Obj(r)).members.Keys;
    forall text
      ensures text in names <==> text in TextsOf(pairs)
    {
      HeldMeans(r, pairs, text);
      if text in names {
        var i := FirstsAreMembers(pairs, MakeKey(text));
      }
      if text in TextsOf(pairs) {
        var i :| 0 <= i < |pairs| && pairs[i].0 == text;
        FirstsHaveAll(pairs, i);
        var j := FirstsAreMembers(pairs, MakeKey(text));
      }
    }
    assert names == TextsOf(pairs);
    DifferentTexts(pairs);
  }

  /**
   For an object with different keys the map that is made holds every member exactly when the hashes of the names
   let every set on the way keep its table's records, or, with a name of hash 0, when there are at most three
   members and that name is the first.
   */
  lemma {:induction false} ObjectKeepsIff(pairs: seq<(bytes, Json)>)
    requires AllDifferent(pairs)
    ensures var o, texts := Make(NewMap(|pairs|), pairs), Texts(pairs);
      o.Some? && HoldsFirsts(o.value, pairs) <==>
        if NoZero(texts) then KeysReady(Names(texts))
        else |pairs| <= DICTMAP_THRESHOLD && Fnv1a(texts[0]) == 0 && NoZero(texts[1..])
  {
    var o, texts := Make(NewMap(|pairs|), pairs), Texts(pairs);
    DifferentAreDistinguishable(pairs);
    if o.Some? && HoldsFirsts(o.value, pairs) {
      HeldCount(o.value, pairs);
      if NoZero(texts) { PlainCount(pairs); } else { ZeroCount(pairs); }
    }
    if NoZero(texts) && KeysReady(Names(texts)) {
      PlainHolds(pairs);
    }
    if |pairs| <= DICTMAP_THRESHOLD && texts != [] && Fnv1a(texts[0]) == 0 && NoZero(texts[1..]) {
      forall i | 0 < i < |texts|
        ensures Fnv1a(texts[i]) != 0
      {
        assert texts[1..][i - 1] == texts[i];
      }
      ZeroHolds(pairs, 0);
    }
  }
}
