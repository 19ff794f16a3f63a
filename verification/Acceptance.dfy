/** Exactly which texts of the grammar the parser accepts, told from their numbers and their objects' names. */
module Acceptance {
  import opened Basics
  import opened Table
  import opened Rehash
  import opened Growth
  import opened Ending
  import opened ObjectMap
  import opened RawMap
  import opened KeysOnly
  import opened Hash
  import opened Json
  import opened Grammar
  import opened ParserSpec
  import opened NumberProofs
  import opened ParserProofs
  import opened Objects
  import opened ObjectKeys
  import opened Refusals

  // ---------------------------------------------------------------- sets that end and lose no key

  /** The empty name stands here and again further on. */
  ghost predicate EmptyBefore(texts: seq<bytes>, i: nat) {
    i < |texts| && texts[i] == [] && exists j :: i < j < |texts| && texts[j] == []
  }

  /** Every set of these members, the last one first, ends, and none loses a key; a key of hash 0 is none to lose. */
  ghost predicate AllKept(r: Raw<Member>, pairs: seq<(bytes, Json)>)
    requires Shape(r)
    decreases |pairs|
  {
    pairs == [] ||
    var (text, val) := pairs[|pairs| - 1];
    var (u, st) := RawSet(r, MakeKey(text), Member(text, val));
    && st != Exhausted && st != Crashed
    && Keys(Live(r.slots)) <= Keys(Live(u.slots)) && (Fnv1a(text) != 0 ==> MakeKey(text) in Keys(Live(u.slots)))
    && AllKept(u, pairs[..|pairs| - 1])
  }

  /** The keys of hash other than 0 from the n-th name on are stored, and every stored key is one of theirs. */
  ghost predicate StoredFrom(r: Raw<Member>, texts: seq<bytes>, n: nat) {
    && FromLater(Keys(r.slots), texts, n)
    && forall j :: n <= j < |texts| && Fnv1a(texts[j]) != 0 ==> MakeKey(texts[j]) in Keys(Live(r.slots))
  }

  lemma {:induction false} EmptyIsMet(r: Raw<Member>, texts: seq<bytes>, n: nat)
    requires n < |texts| && StoredFrom(r, texts, n + 1)
    ensures EmptyAgain(r.slots, texts[n]) <==> EmptyBefore(texts, n)
  {
    assert Fnv1a([]) != 0;
    if EmptyAgain(r.slots, texts[n]) {
      var p :| 0 <= p < |r.slots| && r.slots[p].Used? && r.slots[p].key == MakeKey([]);
      assert r.slots[p].key in Keys(r.slots);
      var j :| n + 1 <= j < |texts| && r.slots[p].key == MakeKey(texts[j]);
      assert |texts[j]| == |MakeKey(texts[j]).text| == 0;
    }
    if EmptyBefore(texts, n) {
      var j :| n < j < |texts| && texts[j] == [];
      LiveIsClean(r.slots);
      assert MakeKey([]) in Keys(r.slots);
    }
  }

  lemma {:induction false} StoredStep(r: Raw<Member>, texts: seq<bytes>, n: nat, val: Json)
    requires Shape(r) && n < |texts| && StoredFrom(r, texts, n + 1)
    requires var u := RawSet(r, MakeKey(texts[n]), Member(texts[n], val)).0;
      && Keys(Live(r.slots)) <= Keys(Live(u.slots))
      && (Fnv1a(texts[n]) != 0 ==> MakeKey(texts[n]) in Keys(Live(u.slots)))
    ensures StoredFrom(RawSet(r, MakeKey(texts[n]), Member(texts[n], val)).0, texts, n)
  {
    LaterStep(r, texts, n, val);
  }

  /** No empty name among the first n stands again further on. */
  ghost predicate NoneBefore(texts: seq<bytes>, n: nat) {
    forall i: nat :: i < n ==> !EmptyBefore(texts, i)
  }

  lemma {:induction false} NoneBeforeStep(texts: seq<bytes>, n: nat)
    ensures NoneBefore(texts, n + 1) <==> !EmptyBefore(texts, n) && NoneBefore(texts, n)
  {}

  /** One such set. */
  lemma {:induction false} KeptSet(r: Raw<Member>, texts: seq<bytes>, pairs: seq<(bytes, Json)>)
    returns (u: Raw<Member>)
    requires pairs != [] && Shape(r) && AllKept(r, pairs) && StoredFrom(r, texts, |pairs|)
    requires |pairs| <= |texts| && forall i :: 0 <= i < |pairs| ==> pairs[i].0 == texts[i]
    ensures var n := |pairs| - 1;
      && Shape(u) && AllKept(u, pairs[..n]) && StoredFrom(u, texts, n)
      && Make(r, pairs) == if EmptyBefore(texts, n) then None else Make(u, pairs[..n])
  {
    var n := |pairs| - 1;
    EmptyIsMet(r, texts, n);
    StoredStep(r, texts, n, pairs[n].1);
    u := RawSet(r, MakeKey(texts[n]), Member(texts[n], pairs[n].1)).0;
    MakeStep(r, pairs);
  }

  /** Then the only thing that can stop the parser is the second of two empty names. */
  lemma {:induction false} KeptRun(r: Raw<Member>, texts: seq<bytes>, pairs: seq<(bytes, Json)>)
    requires Shape(r) && AllKept(r, pairs) && StoredFrom(r, texts, |pairs|)
    requires |pairs| <= |texts| && forall i :: 0 <= i < |pairs| ==> pairs[i].0 == texts[i]
    ensures Make(r, pairs).Some? <==> NoneBefore(texts, |pairs|)
    decreases |pairs|
  {
    if pairs != [] {
      var u := KeptSet(r, texts, pairs);
      KeptRun(u, texts, pairs[..|pairs| - 1]);
      NoneBeforeStep(texts, |pairs| - 1);
    }
  }

  lemma {:induction false} KeptFitsIff(pairs: seq<(bytes, Json)>)
    requires AllKept(NewMap(|pairs|), pairs)
    ensures Make(NewMap(|pairs|), pairs).Some? <==> EmptyOnce(Texts(pairs))
  {
    var texts := Texts(pairs);
    InitIsClean(|pairs|);
    KeptRun(NewMap(|pairs|), texts, pairs);
    if NoneBefore(texts, |pairs|) {
      forall i, j | 0 <= i < j < |texts| && texts[i] == []
        ensures texts[j] != []
      {
        assert !EmptyBefore(texts, i);
      }
    }
  }

  // ---------------------------------------------------------------- names no resize loses

  lemma {:induction false} ReadyKeeps(m: MapState<Member>, pairs: seq<(bytes, Json)>)
    requires WfMap(m) && Clean(m) && RunReady(m, Sets(pairs)) && NoZero(Texts(pairs))
    ensures AllKept(Lift(m), pairs)
    decreases |pairs|
  {
    if pairs != [] {
      var n := |pairs| - 1;
      var key, member := MakeKey(pairs[n].0), Member(pairs[n].0, pairs[n].1);
      var ops := Sets(pairs);
      assert ops[0] == Set(key, member) && ops[1..] == Sets(pairs[..n]);
      assert Texts(pairs)[n] == pairs[n].0;
      SetMapStores(m, key, member);
      SetLifts(m, key, member);
      FewerNoZero(pairs);
      var u := SetMap(m, key, member).0;
      CleanIsLive(m.slots);
      CleanIsLive(u.slots);
      assert MapView(u).Keys == Keys(u.slots) && MapView(m).Keys == Keys(m.slots);
      ReadyKeeps(u, pairs[..n]);
    }
  }

  /** An object whose map keeps every key is built exactly when it has no two empty names. */
  lemma {:induction false} ReadyFitsIff(pairs: seq<(bytes, Json)>)
    requires NoZero(Texts(pairs)) && KeysReady(Names(Texts(pairs)))
    ensures Make(NewMap(|pairs|), pairs).Some? <==> EmptyOnce(Texts(pairs))
  {
    KeysReadyRuns<Member>(Names(Texts(pairs)), Sets(pairs));
    InitIsClean(|pairs|);
    ReadyKeeps(InitMap(|pairs|), pairs);
    KeptFitsIff(pairs);
  }

  // ---------------------------------------------------------------- at most sixteen names

  /** A table whose records come from a few keys. */
  ghost predicate FewInTable(r: Raw<Member>, keys: set<JString>) {
    && r.RawHash? && |r.slots| >= 4 && Wf(Live(r.slots)) && Dense(Live(r.slots))
    && Keys(Live(r.slots)) <= keys && |keys| <= DELTA
  }

  lemma {:induction false} FewTableSet(r: Raw<Member>, keys: set<JString>, key: JString, val: Member)
    requires FewInTable(r, keys) && key in keys
    ensures var (u, st) := RawSet(r, key, val);
      && FewInTable(u, keys) && st != Exhausted && st != Crashed
      && Keys(Live(u.slots)) == Keys(Live(r.slots)) + if key.hash == 0 then {} else {key}
  {
    var t := Live(r.slots);
    SetHashLive(r.slots, r.used, key, val);
    FewKeysFit(t, key, val, keys);
    if key.hash == 0 {
      SubsetSize(Keys(t), keys);
      RoomKeeps(t, key);
    } else {
      SetStores(t, key, val);
      SetKeepsSize(t, key, val);
      assert View(SetHash(t, key, val).0).Keys == Keys(SetHash(t, key, val).0) && View(t).Keys == Keys(t);
    }
  }

  lemma {:induction false} FewTableKeeps(r: Raw<Member>, keys: set<JString>, pairs: seq<(bytes, Json)>)
    requires FewInTable(r, keys) && forall i :: 0 <= i < |pairs| ==> MakeKey(pairs[i].0) in keys
    ensures AllKept(r, pairs)
    decreases |pairs|
  {
    if pairs != [] {
      var n := |pairs| - 1;
      FewTableSet(r, keys, MakeKey(pairs[n].0), Member(pairs[n].0, pairs[n].1));
      FewTableKeeps(RawSet(r, MakeKey(pairs[n].0), Member(pairs[n].0, pairs[n].1)).0, keys, pairs[..n]);
    }
  }

  /** A dictionary nothing was removed from, with nothing written from word n on. */
  ghost predicate FilledTo(r: Raw<Member>, n: nat) {
    EmptyFrom(r, n) && r.words == WordsOf(r.slots)
  }

  lemma {:induction false} DictSetKeeps(r: Raw<Member>, n: nat, key: JString, val: Member, i: nat)
    requires FilledTo(r, n) && i <= n < DICTMAP_THRESHOLD
    ensures var (u, st) := RawSetDict(r, key, val, i);
      && FilledTo(u, n + 1) && st != Exhausted && st != Crashed
      && Keys(Live(r.slots)) <= Keys(Live(u.slots)) && (key.hash != 0 ==> key in Keys(Live(u.slots)))
    decreases DICTMAP_THRESHOLD - i
  {
    if r.words[i] != 0 && (r.words[i] != key.hash || r.slots[i].key != key) {
      DictSetKeeps(r, n, key, val, i + 1);
    } else {
      var slots := r.slots[i := Used(key, val)];
      assert WordsOf(slots) == WordsOf(r.slots)[i := key.hash];
      assert Live(slots) == Live(r.slots)[i := Live(slots)[i]];
      assert Live(slots)[i] == if key.hash == 0 then Free else Used(key, val);
      forall k | k in Keys(Live(r.slots))
        ensures k in Keys(Live(slots))
      {
        var p :| 0 <= p < |r.slots| && Live(r.slots)[p].Used? && Live(r.slots)[p].key == k;
        assert p != i ==> Live(slots)[p] == Live(r.slots)[p];
        assert p == i ==> k == key;
      }
    }
  }

  lemma {:induction false} DictKeeps(r: Raw<Member>, n: nat, pairs: seq<(bytes, Json)>)
    requires FilledTo(r, n) && n + |pairs| <= DICTMAP_THRESHOLD
    ensures AllKept(r, pairs)
    decreases |pairs|
  {
    if pairs != [] {
      var last := pairs[|pairs| - 1];
      DictSetKeeps(r, n, MakeKey(last.0), Member(last.0, last.1), 0);
      DictKeeps(RawSet(r, MakeKey(last.0), Member(last.0, last.1)).0, n + 1, pairs[..|pairs| - 1]);
    }
  }

  /** Whatever their hashes, at most sixteen names are built exactly when no two of them are empty. */
  lemma {:induction false} FewFitIff(pairs: seq<(bytes, Json)>)
    requires |pairs| <= DELTA
    ensures Make(NewMap(|pairs|), pairs).Some? <==> EmptyOnce(Texts(pairs))
  {
    var m := InitMap<Member>(|pairs|);
    InitIsClean(|pairs|);
    CleanIsLive(m.slots);
    if |pairs| <= DICTMAP_THRESHOLD {
      NewIsEmpty(|pairs|);
      DictKeeps(NewMap(|pairs|), 0, pairs);
    } else {
      KeysCount(pairs);
      InitEmpty<Member>(|pairs|);
      FewTableKeeps(NewMap(|pairs|), KeysOf(pairs), pairs);
    }
    KeptFitsIff(pairs);
  }

  // ---------------------------------------------------------------- more names, by their hashes

  /** Some size within C's 32 bits, reached from m by resizes, has room for every one of these keys among the others. */
  ghost predicate RoomForAll(keys: set<JString>, m: nat) {
    exists n: nat :: m > 0 && Reaches(m, n) && n <= MAX_SLOTS < 4 * n && forall k :: k in keys ==> RoomIn(keys, k, n)
  }

  lemma {:induction false} ReachesLater(m: nat, n: nat)
    requires m > 0 && Reaches(m, n)
    ensures m < n ==> Reaches(4 * m, n)
  {}

  lemma {:induction false} SizeReaches<V>(t: seq<Slot<V>>, key: JString, val: V, n: nat)
    requires |t| > 0 && Reaches(|t|, n) && n <= MAX_SLOTS < 4 * n
    ensures var u := SetHash(t, key, val).0; |u| > 0 && Reaches(|u|, n)
    decreases if |t| > MAX_SLOTS then 0 else MAX_SLOTS + 1 - |t|
  {
    RetryStep(t, key, val);
    if Probe(t, key, 0) == DELTA && 4 * |t| <= MAX_SLOTS {
      ReachesLater(|t|, n);
      SizeReaches(Grow(t), key, val, n);
    }
  }

  lemma {:induction false} RoomySetEnds<V>(t: seq<Slot<V>>, keys: set<JString>, key: JString, val: V, n: nat)
    requires Wf(t) && Dense(t) && Keys(t) <= keys && key in keys
    requires Reaches(|t|, n) && n <= MAX_SLOTS < 4 * n && RoomIn(keys, key, n)
    ensures SetHash(t, key, val).1 != Exhausted
  {
    RetryStep(t, key, val);
    FewerKeysLeaveRoom(Keys(t), keys, key, n);
    ReachesLater(|t|, n);
    if |t| < n {
      assert RoomLater(Keys(t), key, |t|);
      RoomEnds(t, key, val);
    } else {
      ReachesUp(|t|, n);
      if key in Keys(t) {
        var p :| 0 <= p < |t| && t[p].Used? && t[p].key == key;
        ProbeFindsStored(t, key, p);
      } else {
        ProbeEndsIff(t, key);
      }
    }
  }

  /** A table of some of these keys, at a size from which one with room for all of them is reached. */
  ghost predicate RoomyTable(m: MapState<Member>, keys: set<JString>, n: nat) {
    && m.hashed && WfMap(m) && Dense(m.slots) && Keys(m.slots) <= keys
    && Reaches(|m.slots|, n) && n <= MAX_SLOTS < 4 * n && forall k :: k in keys ==> RoomIn(keys, k, n)
  }

  lemma {:induction false} RoomyStep(m: MapState<Member>, keys: set<JString>, n: nat, key: JString, val: Member)
    requires RoomyTable(m, keys, n) && key in keys
    ensures RoomyTable(SetMap(m, key, val).0, keys, n) && SetMap(m, key, val).1 != Exhausted
  {
    RoomySetEnds(m.slots, keys, key, val, n);
    SetMapSound(m, key, val);
    SetMapKeys(m, key, val);
    SizeReaches(m.slots, key, val, n);
  }

  lemma {:induction false} RoomySet(m: MapState<Member>, keys: set<JString>, texts: seq<bytes>,
      pairs: seq<(bytes, Json)>, n: nat) returns (u: MapState<Member>)
    requires pairs != [] && RoomyTable(m, keys, n) && FromLater(Keys(m.slots), texts, |pairs|) && EmptyOnce(texts)
    requires |pairs| <= |texts| && forall i :: 0 <= i < |pairs| ==> pairs[i].0 == texts[i]
    requires forall i :: 0 <= i < |texts| ==> MakeKey(texts[i]) in keys
    ensures var k := |pairs| - 1;
      RoomyTable(u, keys, n) && FromLater(Keys(u.slots), texts, k) && Build(m, pairs) == Build(u, pairs[..k])
  {
    var k := |pairs| - 1;
    var key, member := MakeKey(pairs[k].0), Member(pairs[k].0, pairs[k].1);
    assert pairs[k].0 == texts[k];
    LaterIsNotEmptyAgain(m.slots, texts, k);
    RoomyStep(m, keys, n, key, member);
    SetMapKeys(m, key, member);
    u := SetMap(m, key, member).0;
  }

  lemma {:induction false} RoomyBuilds(m: MapState<Member>, keys: set<JString>, texts: seq<bytes>,
      pairs: seq<(bytes, Json)>, n: nat)
    requires RoomyTable(m, keys, n) && FromLater(Keys(m.slots), texts, |pairs|) && EmptyOnce(texts)
    requires |pairs| <= |texts| && forall i :: 0 <= i < |pairs| ==> pairs[i].0 == texts[i]
    requires forall i :: 0 <= i < |texts| ==> MakeKey(texts[i]) in keys
    ensures Build(m, pairs).Some?
    decreases |pairs|
  {
    if pairs != [] {
      var u := RoomySet(m, keys, texts, pairs, n);
      RoomyBuilds(u, keys, texts, pairs[..|pairs| - 1], n);
    }
  }

  /** However many names there are and whatever resizes lose, the object is built if they have room at that size. */
  lemma {:induction false} RoomyNamesFit(pairs: seq<(bytes, Json)>)
    requires |pairs| > DICTMAP_THRESHOLD && NoZero(Texts(pairs)) && EmptyOnce(Texts(pairs))
    requires RoomForAll(KeysOf(pairs), |NewMap(|pairs|).slots|)
    ensures Make(NewMap(|pairs|), pairs).Some?
  {
    var m := InitMap<Member>(|pairs|);
    var n: nat :| Reaches(|m.slots|, n) && n <= MAX_SLOTS < 4 * n
      && forall k :: k in KeysOf(pairs) ==> RoomIn(KeysOf(pairs), k, n);
    InitIsClean(|pairs|);
    InitEmpty<Member>(|pairs|);
    forall i | 0 <= i < |pairs|
      ensures MakeKey(Texts(pairs)[i]) in KeysOf(pairs)
    {
      assert Texts(pairs)[i] == pairs[i].0;
    }
    RoomyBuilds(m, KeysOf(pairs), Texts(pairs), pairs, n);
    MakeLifts(m, pairs);
  }

  // ---------------------------------------------------------------- any names

  /** Every set of these keys, the last one first, ends. */
  ghost predicate SetsEnd(r: Raw<bool>, keys: seq<JString>)
    requires Shape(r)
    decreases |keys|
  {
    keys == [] ||
    var (u, st) := RawSet(r, keys[|keys| - 1], true);
    st != Exhausted && st != Crashed && SetsEnd(u, keys[..|keys| - 1])
  }

  lemma {:induction false} EndsSet(r: Raw<Member>, s: Raw<bool>, texts: seq<bytes>, pairs: seq<(bytes, Json)>)
    returns (u: Raw<Member>, v: Raw<bool>, ends: bool)
    requires pairs != [] && SameRaw(r, s) && Shape(r) && Shape(s)
    requires EmptyOnce(texts) && FromLater(Keys(r.slots), texts, |pairs|)
    requires |pairs| <= |texts| && forall i :: 0 <= i < |pairs| ==> pairs[i].0 == texts[i]
    ensures var n := |pairs| - 1;
      && SameRaw(u, v) && Shape(u) && Shape(v) && FromLater(Keys(u.slots), texts, n)
      && Make(r, pairs) == (if ends then Make(u, pairs[..n]) else None)
      && (SetsEnd(s, Names(Texts(pairs))) <==> ends && SetsEnd(v, Names(Texts(pairs[..n]))))
  {
    var n := |pairs| - 1;
    var key, member, keys := MakeKey(pairs[n].0), Member(pairs[n].0, pairs[n].1), Names(Texts(pairs));
    assert keys[..n] == Names(Texts(pairs[..n])) && keys[n] == key;
    MakeStep(r, pairs);
    LaterIsNotEmptyAgain(r.slots, texts, n);
    SameRawSet(r, s, key, member, true);
    LaterStep(r, texts, n, pairs[n].1);
    var st := RawSet(r, key, member).1;
    u, v, ends := RawSet(r, key, member).0, RawSet(s, key, true).0, st != Exhausted && st != Crashed;
  }

  lemma {:induction false} EndsRun(r: Raw<Member>, s: Raw<bool>, texts: seq<bytes>, pairs: seq<(bytes, Json)>)
    requires SameRaw(r, s) && Shape(r) && Shape(s) && EmptyOnce(texts) && FromLater(Keys(r.slots), texts, |pairs|)
    requires |pairs| <= |texts| && forall i :: 0 <= i < |pairs| ==> pairs[i].0 == texts[i]
    ensures Make(r, pairs).Some? <==> SetsEnd(s, Names(Texts(pairs)))
    decreases |pairs|
  {
    if pairs != [] {
      var u, v, ends := EndsSet(r, s, texts, pairs);
      EndsRun(u, v, texts, pairs[..|pairs| - 1]);
    }
  }

  /** An object without two empty names is built exactly when all of its sets end. */
  lemma {:induction false} EndsFitIff(pairs: seq<(bytes, Json)>)
    requires EmptyOnce(Texts(pairs))
    ensures Make(NewMap(|pairs|), pairs).Some? <==> SetsEnd(Lift(InitMap(|pairs|)), Names(Texts(pairs)))
  {
    assert SameMap(InitMap<Member>(|pairs|), InitMap<bool>(|pairs|));
    SameLift(InitMap<Member>(|pairs|), InitMap<bool>(|pairs|));
    InitIsClean(|pairs|);
    EndsRun(NewMap(|pairs|), Lift(InitMap(|pairs|)), Texts(pairs), pairs);
  }

  /** The object with these names and with null for every value. */
  function Nulls(texts: seq<bytes>): (pairs: seq<(bytes, Json)>)
    ensures |pairs| == |texts| && forall i :: 0 <= i < |pairs| ==> pairs[i].0 == texts[i]
  {
    seq(|texts|, i requires 0 <= i < |texts| => (texts[i], Null))
  }

  lemma {:induction false} ValuesDoNotMatter(r: Raw<Member>, s: Raw<Member>,
      a: seq<(bytes, Json)>, b: seq<(bytes, Json)>)
    requires Shape(r) && Shape(s) && SameRaw(r, s) && Texts(a) == Texts(b)
    ensures Make(r, a).Some? <==> Make(s, b).Some?
    decreases |a|
  {
    assert |a| == |Texts(a)| == |Texts(b)| == |b|;
    if a != [] {
      var k := |a| - 1;
      var text := a[k].0;
      assert Texts(a)[k] == text && Texts(b)[k] == b[k].0;
      assert Texts(a[..k]) == Texts(a)[..k] && Texts(b[..k]) == Texts(b)[..k];
      MakeStep(r, a);
      MakeStep(s, b);
      SameEmptyAgain(r, s, text);
      SameRawSet(r, s, MakeKey(text), Member(text, a[k].1), Member(text, b[k].1));
      ValuesDoNotMatter(RawSet(r, MakeKey(text), Member(text, a[k].1)).0,
                        RawSet(s, MakeKey(text), Member(text, b[k].1)).0, a[..k], b[..k]);
    }
  }

  lemma {:induction false} SameEmptyAgain(r: Raw<Member>, s: Raw<Member>, text: bytes)
    requires SameRaw(r, s)
    ensures EmptyAgain(r.slots, text) <==> EmptyAgain(s.slots, text)
  {
    assert forall p :: 0 <= p < |r.slots| ==> SameSlot(r.slots[p], s.slots[p]);
  }

  /**
   The names of an object that is built. Of up to sixteen names, or more that no resize loses, at most one must be
   empty; with at most one empty name the sets must end; and if two are empty and a resize may lose the second one
   before the first is compared with it, the run of the sets decides.
   */
  ghost predicate NamesFit(texts: seq<bytes>) {
    if |texts| <= DELTA || (NoZero(texts) && KeysReady(Names(texts))) then EmptyOnce(texts)
    else if EmptyOnce(texts) then SetsEnd(Lift(InitMap(|texts|)), Names(texts))
    else Make(NewMap(|texts|), Nulls(texts)).Some?
  }

  lemma {:induction false} NamesFitIff(pairs: seq<(bytes, Json)>)
    ensures Make(NewMap(|pairs|), pairs).Some? <==> NamesFit(Texts(pairs))
  {
    var texts := Texts(pairs);
    if |texts| <= DELTA {
      FewFitIff(pairs);
    } else if NoZero(texts) && KeysReady(Names(texts)) {
      ReadyFitsIff(pairs);
    } else if EmptyOnce(texts) {
      EndsFitIff(pairs);
    } else {
      assert Texts(Nulls(texts)) == texts;
      SameKeysItself(NewMap(|pairs|));
      ValuesDoNotMatter(NewMap(|pairs|), NewMap(|pairs|), pairs, Nulls(texts));
    }
  }

  lemma {:induction false} SameKeysItself(r: Raw<Member>)
    ensures SameRaw(r, r)
  {}

  // ---------------------------------------------------------------- texts

  function NamesOf(ms: Members): seq<bytes>
    requires MembersOk(ms)
  {
    [CharsValue(ms.key)] +
    match ms { case LastMember(_, _, _, _, _, _) => [] case MoreMembers(_, _, _, _, _, _, rest) => NamesOf(rest) }
  }

  lemma {:induction false} NamesOfPairs(ms: Members)
    requires MembersOk(ms)
    ensures Texts(Pairs(ms)) == NamesOf(ms)
  {
    if ms.MoreMembers? { NamesOfPairs(ms.rest); }
  }

  /** Numbers in range, and objects with names that fit. */
  ghost predicate Acceptable(n: Node)
    requires NodeOk(n)
  {
    match n
    case NNumber(number) => NumberFits(number)
    case NArray(elems) => ElemsAcceptable(elems)
    case NObject(members) => MembersAcceptable(members) && NamesFit(NamesOf(members))
    case _ => true
  }

  ghost predicate ElemsAcceptable(es: Elems)
    requires ElemsOk(es)
  {
    Acceptable(es.node) &&
    match es { case LastElem(_, _, _) => true case MoreElems(_, _, _, rest) => ElemsAcceptable(rest) }
  }

  ghost predicate MembersAcceptable(ms: Members)
    requires MembersOk(ms)
  {
    Acceptable(ms.node) &&
    match ms {
      case LastMember(_, _, _, _, _, _) => true
      case MoreMembers(_, _, _, _, _, _, rest) => MembersAcceptable(rest)
    }
  }

  lemma {:induction false} AcceptableFits(n: Node)
    requires NodeOk(n)
    ensures NodeFits(n) <==> Acceptable(n)
    decreases n, 1
  {
    if n.NArray? {
      ElemsAcceptableFit(n.elems);
    } else if n.NObject? {
      MembersAcceptableFit(n.members);
      NamesOfPairs(n.members);
      NamesFitIff(Pairs(n.members));
    }
  }

  lemma {:induction false} ElemsAcceptableFit(es: Elems)
    requires ElemsOk(es)
    ensures ElemsFit(es) <==> ElemsAcceptable(es)
    decreases es, 0
  {
    AcceptableFits(es.node);
    if es.MoreElems? { ElemsAcceptableFit(es.rest); }
  }

  lemma {:induction false} MembersAcceptableFit(ms: Members)
    requires MembersOk(ms)
    ensures MembersFit(ms) <==> MembersAcceptable(ms)
    decreases ms, 0
  {
    AcceptableFits(ms.node);
    if ms.MoreMembers? { MembersAcceptableFit(ms.rest); }
  }

  /** A text of the grammar is accepted, with its value, if and only if it is acceptable; otherwise the parser fails. */
  lemma {:induction false} TextAcceptedIff(d: Doc, last: byte)
    requires DocOk(d)
    ensures Acceptable(d.top) ==> NodeFits(d.top)
    ensures ParseText(DocText(d) + [last]) == if Acceptable(d.top) then Ok(Value(d.top), []) else Fail(Undefined)
  {
    AcceptableFits(d.top);
    DocParsesIff(d, last);
  }
}
