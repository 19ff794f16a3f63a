/** The maps the parser makes for the members of an object: what they hold when nothing goes wrong. */
module Objects {
  import opened Basics
  import opened Table
  import opened ObjectMap
  import opened RawMap
  import opened KeysOnly
  import opened Hash
  import opened Json
  import opened ParserSpec

  // ---------------------------------------------------------------- the run of sets

  /** The sets the parser makes for a list of pairs: from the last pair to the first. */
  function Sets(pairs: seq<(bytes, Json)>): (r: seq<Op<Member>>)
    ensures |r| == |pairs|
    ensures forall i :: 0 <= i < |r| ==>
      var (text, val) := pairs[|pairs| - 1 - i]; r[i] == Set(MakeKey(text), Member(text, val))
  {
    if pairs == [] then []
    else
      var (text, val) := pairs[|pairs| - 1];
      [Set(MakeKey(text), Member(text, val))] + Sets(pairs[..|pairs| - 1])
  }

  function Texts(pairs: seq<(bytes, Json)>): (r: seq<bytes>)
    ensures |r| == |pairs| && forall i :: 0 <= i < |r| ==> r[i] == pairs[i].0
  {
    seq(|pairs|, i requires 0 <= i < |pairs| => pairs[i].0)
  }

  function Names(texts: seq<bytes>): (r: seq<JString>)
    ensures |r| == |texts| && forall i :: 0 <= i < |r| ==> r[i] == MakeKey(texts[i])
  {
    seq(|texts|, i requires 0 <= i < |texts| => MakeKey(texts[i]))
  }

  /** No two members have names the comparison confuses. */
  predicate Distinguishable(texts: seq<bytes>) {
    forall i, j :: 0 <= i < |texts| && 0 <= j < |texts| && i != j ==> !Confusable(texts[i], texts[j])
  }

  /** At most one name is empty. */
  predicate EmptyOnce(texts: seq<bytes>) {
    forall i, j :: 0 <= i < j < |texts| && texts[i] == [] ==> texts[j] != []
  }

  lemma {:induction false} DistinguishableEmptyOnce(texts: seq<bytes>)
    requires Distinguishable(texts)
    ensures EmptyOnce(texts)
  {
    forall i, j | 0 <= i < j < |texts| && texts[i] == []
      ensures texts[j] != []
    {
      assert !Confusable(texts[i], texts[j]);
    }
  }

  /** No name has the hash that marks an empty record. */
  predicate NoZero(texts: seq<bytes>) {
    forall i :: 0 <= i < |texts| ==> Fnv1a(texts[i]) != 0
  }

  /** The parser's sets on a map as ObjectMap has it. */
  function Build(m: MapState<Member>, pairs: seq<(bytes, Json)>): (o: Option<MapState<Member>>)
    requires |m.slots| > 0
    ensures o.Some? ==> |o.value.slots| > 0
    decreases |pairs|
  {
    if pairs == [] then Some(m)
    else
      var (text, val) := pairs[|pairs| - 1];
      if EmptyAgain(m.slots, text) then None
      else
        var (u, st) := SetMap(m, MakeKey(text), Member(text, val));
        if st == Exhausted then None else Build(u, pairs[..|pairs| - 1])
  }

  lemma {:induction false} InitIsClean(size: nat)
    ensures Clean(InitMap<Member>(size)) && WfMap(InitMap<Member>(size)) && Keys(InitMap<Member>(size).slots) == {}
  {
    InitEmpty<Member>(size);
    assert MapView(InitMap<Member>(size)).Keys == Keys(InitMap<Member>(size).slots);
  }

  /** If no name has hash 0, the fields are those of the map that ObjectMap's sets make. */
  lemma {:induction false} MakeLifts(m: MapState<Member>, pairs: seq<(bytes, Json)>)
    requires Clean(m) && NoZero(Texts(pairs))
    ensures Make(Lift(m), pairs) == match Build(m, pairs) { case None => None case Some(u) => Some(Lift(u)) }
    ensures Build(m, pairs).Some? ==> Clean(Build(m, pairs).value)
    decreases |pairs|
  {
    if pairs != [] {
      var n := |pairs| - 1;
      var (text, val) := pairs[n];
      assert Texts(pairs)[n] == text;
      SetLifts(m, MakeKey(text), Member(text, val));
      var (u, st) := SetMap(m, MakeKey(text), Member(text, val));
      forall i | 0 <= i < n
        ensures Fnv1a(Texts(pairs[..n])[i]) != 0
      {
        assert Texts(pairs)[i] == pairs[i].0;
      }
      MakeLifts(u, pairs[..n]);
    }
  }

  lemma {:induction false} MakeStep(r: Raw<Member>, pairs: seq<(bytes, Json)>)
    requires Shape(r) && pairs != []
    ensures Make(r, pairs) ==
      match SetMember(r, pairs[|pairs| - 1])
      case None => None
      case Some(u) => Make(u, pairs[..|pairs| - 1])
  {}

  lemma {:induction false} LastOfBoth<T>(front: seq<T>, back: seq<T>)
    requires back != []
    ensures var all, n := front + back, |back| - 1;
      all[|all| - 1] == back[n] && all[..|all| - 1] == front + back[..n]
  {}

  lemma {:induction false} MakeBoth(r: Raw<Member>, front: seq<(bytes, Json)>, back: seq<(bytes, Json)>)
    requires Shape(r)
    ensures Make(r, front + back) == match Make(r, back) { case None => None case Some(u) => Make(u, front) }
    decreases |back|
  {
    if back == [] {
      assert front + back == front;
    } else {
      LastOfBoth(front, back);
      MakeStep(r, front + back);
      MakeStep(r, back);
      var o := SetMember(r, back[|back| - 1]);
      if o.Some? { MakeBoth(o.value, front, back[..|back| - 1]); }
    }
  }

  /** The first pairs of the text are set last. */
  lemma {:induction false} MakeSplit(r: Raw<Member>, pairs: seq<(bytes, Json)>, j: nat)
    requires Shape(r) && j <= |pairs|
    ensures Make(r, pairs) == match Make(r, pairs[j..]) { case None => None case Some(u) => Make(u, pairs[..j]) }
  {
    MakeBoth(r, pairs[..j], pairs[j..]);
    assert pairs[..j] + pairs[j..] == pairs;
  }

  // ---------------------------------------------------------------- names that are told apart

  /** The keys are keys of pairs from the n-th on. */
  ghost predicate FromLater(keys: set<JString>, texts: seq<bytes>, n: nat) {
    forall k :: k in keys ==> exists j :: n <= j < |texts| && k == MakeKey(texts[j])
  }

  lemma {:induction false} LaterIsNotEmptyAgain(slots: seq<Slot<Member>>, texts: seq<bytes>, n: nat)
    requires n < |texts| && EmptyOnce(texts) && FromLater(Keys(slots), texts, n + 1)
    ensures !EmptyAgain(slots, texts[n])
  {
    if texts[n] == [] {
      forall p | 0 <= p < |slots| && slots[p].Used?
        ensures slots[p].key != MakeKey([])
      {
        assert slots[p].key in Keys(slots);
        var j :| n + 1 <= j < |texts| && slots[p].key == MakeKey(texts[j]);
        assert |MakeKey(texts[j]).text| == |texts[j]| > 0;
      }
    }
  }

  /** A set adds no key but its own. */
  lemma {:induction false} LaterStep(r: Raw<Member>, texts: seq<bytes>, n: nat, val: Json)
    requires Shape(r) && n < |texts| && FromLater(Keys(r.slots), texts, n + 1)
    ensures FromLater(Keys(RawSet(r, MakeKey(texts[n]), Member(texts[n], val)).0.slots), texts, n)
  {
    var key, member := MakeKey(texts[n]), Member(texts[n], val);
    var u := RawSet(r, key, member).0;
    SetRecs(r, key, member);
    forall k | k in Keys(u.slots)
      ensures exists j :: n <= j < |texts| && k == MakeKey(texts[j])
    {
      var p :| 0 <= p < |u.slots| && u.slots[p].Used? && u.slots[p].key == k;
      assert u.slots[p] in Recs(u.slots);
      if u.slots[p] in Recs(r.slots) {
        assert k in Keys(r.slots);
      }
    }
  }

  lemma {:induction false} BuildRuns(m: MapState<Member>, texts: seq<bytes>, pairs: seq<(bytes, Json)>)
    requires WfMap(m) && RunReady(m, Sets(pairs)) && EmptyOnce(texts)
    requires |pairs| <= |texts| && forall i :: 0 <= i < |pairs| ==> pairs[i].0 == texts[i]
    requires FromLater(Keys(m.slots), texts, |pairs|)
    ensures Build(m, pairs) == Some(Run(m, Sets(pairs)).0)
    decreases |pairs|
  {
    if pairs != [] {
      var n := |pairs| - 1;
      var (text, val) := pairs[n];
      var ops := Sets(pairs);
      assert ops[0] == Set(MakeKey(text), Member(text, val)) && ops[1..] == Sets(pairs[..n]);
      LaterIsNotEmptyAgain(m.slots, texts, n);
      SetMapKeys(m, MakeKey(text), Member(text, val));
      SetMapStores(m, MakeKey(text), Member(text, val));
      BuildRuns(SetMap(m, MakeKey(text), Member(text, val)).0, texts, pairs[..n]);
    }
  }

  // ---------------------------------------------------------------- first occurrences

  /** Each name with its first occurrence. */
  function Firsts(pairs: seq<(bytes, Json)>): map<JString, Member> {
    if pairs == [] then map[] else Firsts(pairs[1..])[MakeKey(pairs[0].0) := Member(pairs[0].0, pairs[0].1)]
  }

  lemma {:induction false} FirstsAppend(a: seq<(bytes, Json)>, b: seq<(bytes, Json)>)
    ensures Firsts(a + b) == Firsts(b) + Firsts(a)
  {
    if a == [] {
      assert a + b == b;
    } else {
      FirstsAppend(a[1..], b);
      assert (a + b)[1..] == a[1..] + b;
    }
  }

  lemma {:induction false} FirstsSnoc(pairs: seq<(bytes, Json)>)
    requires pairs != []
    ensures var n := |pairs| - 1;
      Firsts(pairs) == map[MakeKey(pairs[n].0) := Member(pairs[n].0, pairs[n].1)] + Firsts(pairs[..n])
  {
    var n := |pairs| - 1;
    var last := [pairs[n]];
    assert pairs == pairs[..n] + last && last[1..] == [];
    FirstsAppend(pairs[..n], last);
    assert Firsts(last) == map[][MakeKey(pairs[n].0) := Member(pairs[n].0, pairs[n].1)];
  }

  /** Setting from the last pair to the first leaves every name at its first occurrence. */
  lemma {:induction false} SetsKeepFirsts(f: map<JString, Member>, pairs: seq<(bytes, Json)>)
    ensures AbstractRun(f, Sets(pairs)).0 == f + Firsts(pairs)
    decreases |pairs|
  {
    if pairs != [] {
      var n := |pairs| - 1;
      var key, val := MakeKey(pairs[n].0), Member(pairs[n].0, pairs[n].1);
      var ops := Sets(pairs);
      assert ops[0] == Set(key, val) && ops[1..] == Sets(pairs[..n]);
      SetsKeepFirsts(f[key := val], pairs[..n]);
      FirstsSnoc(pairs);
      assert f[key := val] + Firsts(pairs[..n]) == f + (map[key := val] + Firsts(pairs[..n]));
    }
  }

  /** The first occurrences are members of the text, under their own keys. */
  lemma {:induction false} FirstsAreMembers(pairs: seq<(bytes, Json)>, key: JString) returns (i: nat)
    requires key in Firsts(pairs)
    ensures i < |pairs| && Firsts(pairs)[key] == Member(pairs[i].0, pairs[i].1) && MakeKey(pairs[i].0) == key
  {
    if key == MakeKey(pairs[0].0) {
      i := 0;
    } else {
      var k := FirstsAreMembers(pairs[1..], key);
      i := k + 1;
    }
  }

  /** Iterating over the map yields the first occurrence of every name, under its key, and nothing else. */
  ghost predicate HoldsFirsts(r: Raw<Member>, pairs: seq<(bytes, Json)>) {
    Iterable(r) && (r.RawHash? ==> NonZero(r.slots)) && Unique(r.slots) && View(r.slots) == Firsts(pairs)
  }

  lemma {:induction false} RunHoldsFirsts(m: MapState<Member>, pairs: seq<(bytes, Json)>)
    requires WfMap(m) && RunReady(m, Sets(pairs))
    ensures var u := Run(m, Sets(pairs)).0; WfMap(u) && View(u.slots) == View(m.slots) + Firsts(pairs)
  {
    RunRefines(m, Sets(pairs));
    SetsKeepFirsts(View(m.slots), pairs);
    assert MapView(Run(m, Sets(pairs)).0) == View(Run(m, Sets(pairs)).0.slots);
  }

  lemma {:induction false} WholeHoldsFirsts(m: MapState<Member>, pairs: seq<(bytes, Json)>)
    requires WfMap(m) && Clean(m) && View(m.slots) == Firsts(pairs)
    ensures HoldsFirsts(Lift(m), pairs)
  {
    CleanIsLive(m.slots);
    LiftIsSound(m);
  }

  /** Names whose map no set on the way loses a key of. */
  lemma {:induction false} ReadyHolds(size: nat, pairs: seq<(bytes, Json)>)
    requires EmptyOnce(Texts(pairs)) && RunReady(InitMap(size), Sets(pairs))
    ensures var o := Build(InitMap(size), pairs);
      o == Some(Run(InitMap(size), Sets(pairs)).0) && WfMap(o.value) && View(o.value.slots) == Firsts(pairs)
  {
    InitIsClean(size);
    BuildRuns(InitMap(size), Texts(pairs), pairs);
    RunHoldsFirsts(InitMap(size), pairs);
    assert View(InitMap<Member>(size).slots) == map[];
    assert map[] + Firsts(pairs) == Firsts(pairs);
  }

  lemma {:induction false} PlainRuns(pairs: seq<(bytes, Json)>)
    requires KeysReady(Names(Texts(pairs)))
    ensures RunReady(InitMap(|pairs|), Sets(pairs))
  {
    KeysReadyRuns<Member>(Names(Texts(pairs)), Sets(pairs));
  }

  /** The map of an object whose keys are kept and none of which has hash 0. */
  lemma {:induction false} PlainMap(pairs: seq<(bytes, Json)>) returns (m: MapState<Member>)
    requires EmptyOnce(Texts(pairs)) && NoZero(Texts(pairs)) && KeysReady(Names(Texts(pairs)))
    ensures WfMap(m) && Clean(m) && View(m.slots) == Firsts(pairs) && Make(NewMap(|pairs|), pairs) == Some(Lift(m))
  {
    PlainRuns(pairs);
    ReadyHolds(|pairs|, pairs);
    InitIsClean(|pairs|);
    MakeLifts(InitMap(|pairs|), pairs);
    m := Build(InitMap(|pairs|), pairs).value;
  }

  lemma {:induction false} PlainHolds(pairs: seq<(bytes, Json)>)
    requires EmptyOnce(Texts(pairs)) && NoZero(Texts(pairs)) && KeysReady(Names(Texts(pairs)))
    ensures var o := Make(NewMap(|pairs|), pairs); o.Some? && HoldsFirsts(o.value, pairs)
  {
    var m := PlainMap(pairs);
    WholeHoldsFirsts(m, pairs);
  }

  // ---------------------------------------------------------------- a name of hash 0 in a dictionary

  /**
   One name has hash 0, and every name in front of it in the text stands behind it too: so once it is set, which
   leaves its word empty, no set looks for an empty word again.
   */
  predicate ZeroAt(texts: seq<bytes>, j: nat) {
    && j < |texts| && Fnv1a(texts[j]) == 0
    && (forall i :: 0 <= i < |texts| && i != j ==> Fnv1a(texts[i]) != 0)
    && (forall i :: 0 <= i < j ==> texts[i] in texts[j + 1..])
  }

  /** A dictionary and, behind its last record, one whose key has hash 0. */
  function Haunted(m: MapState<Member>, key: JString, val: Member): (r: Raw<Member>)
    requires |m.slots| == DICTMAP_THRESHOLD && UsedCount(m.slots) < DICTMAP_THRESHOLD
    ensures Shape(r) && r.RawDict?
  {
    var u := UsedCount(m.slots);
    RawDict(WordsOf(m.slots), m.slots[u := Used(key, val)], u + 1)
  }

  ghost predicate Plain(m: MapState<Member>) {
    !m.hashed && WfMap(m) && Clean(m)
  }

  lemma {:induction false} PlainSlots(m: MapState<Member>)
    requires Plain(m)
    ensures NonZero(m.slots) && UsedCount(m.slots) <= DICTMAP_THRESHOLD
    ensures forall i :: 0 <= i < DICTMAP_THRESHOLD ==> (m.slots[i].Used? <==> i < UsedCount(m.slots))
  {
    CleanIsLive(m.slots);
    FreeLastCount(m.slots);
  }

  /** A set in a dictionary with a free slot leaves a dictionary. */
  lemma {:induction false} PlainSet(m: MapState<Member>, key: JString, val: Member)
    requires Plain(m) && UsedCount(m.slots) < DICTMAP_THRESHOLD && key.hash != 0
    ensures var (u, st) := SetMap(m, key, val);
      && Plain(u) && st != Exhausted && UsedCount(u.slots) <= UsedCount(m.slots) + 1
      && (key in Keys(m.slots) ==> UsedCount(u.slots) == UsedCount(m.slots) && Keys(u.slots) == Keys(m.slots))
  {
    PlainSlots(m);
    SetMapStores(m, key, val);
    SetLifts(m, key, val);
    var i := DictSlot(m.slots, key, 0);
    assert i <= UsedCount(m.slots);
    UsedCountWrite(m.slots, i, Used(key, val));
    var u := SetMap(m, key, val).0;
    assert View(m.slots).Keys == Keys(m.slots) && View(u.slots).Keys == Keys(u.slots);
  }

  lemma {:induction false} PlainBuild(m: MapState<Member>, pairs: seq<(bytes, Json)>)
    requires Plain(m) && NoZero(Texts(pairs)) && UsedCount(m.slots) + |pairs| <= DICTMAP_THRESHOLD
    ensures var o := Build(m, pairs); o.Some? ==>
      Plain(o.value) && UsedCount(o.value.slots) <= UsedCount(m.slots) + |pairs|
    decreases |pairs|
  {
    if pairs != [] {
      var n := |pairs| - 1;
      var (text, val) := pairs[n];
      assert Texts(pairs)[n] == text;
      PlainSet(m, MakeKey(text), Member(text, val));
      FewerNoZero(pairs);
      PlainBuild(SetMap(m, MakeKey(text), Member(text, val)).0, pairs[..n]);
    }
  }

  lemma {:induction false} FewerNoZero(pairs: seq<(bytes, Json)>)
    requires pairs != [] && NoZero(Texts(pairs))
    ensures NoZero(Texts(pairs[..|pairs| - 1]))
  {
    var front := pairs[..|pairs| - 1];
    forall i | 0 <= i < |front|
      ensures Fnv1a(Texts(front)[i]) != 0
    {
      assert Texts(pairs)[i] == pairs[i].0;
    }
  }

  lemma {:induction false} HauntScans(m: MapState<Member>, key: JString, val: Member, i: nat)
    requires Plain(m) && UsedCount(m.slots) < DICTMAP_THRESHOLD && key.hash == 0 && i <= UsedCount(m.slots)
    ensures RawSetDict(Lift(m), key, val, i) == (Haunted(m, key, val), Added)
    decreases DICTMAP_THRESHOLD - i
  {
    PlainSlots(m);
    var u := UsedCount(m.slots);
    if i < u {
      HauntScans(m, key, val, i + 1);
    } else {
      assert WordsOf(m.slots)[u := 0] == WordsOf(m.slots);
    }
  }

  lemma {:induction false} HauntedScans(m: MapState<Member>, zero: JString, ghostly: Member,
                                        key: JString, val: Member, i: nat)
    requires Plain(m) && UsedCount(m.slots) < DICTMAP_THRESHOLD && zero.hash == 0
    requires key in Keys(m.slots) && i <= DictSlot(m.slots, key, 0)
    ensures var u := SetMap(m, key, val).0;
      && |u.slots| == DICTMAP_THRESHOLD && UsedCount(u.slots) < DICTMAP_THRESHOLD
      && RawSetDict(Haunted(m, zero, ghostly), key, val, i) == (Haunted(u, zero, ghostly), Update)
    decreases DICTMAP_THRESHOLD - i
  {
    PlainSlots(m);
    PlainSet(m, key, val);
    var p :| 0 <= p < |m.slots| && m.slots[p].Used? && m.slots[p].key == key;
    var d, n := DictSlot(m.slots, key, 0), UsedCount(m.slots);
    assert d <= p < n;
    if i < d {
      HauntedScans(m, zero, ghostly, key, val, i + 1);
    } else {
      var slots := m.slots[d := Used(key, val)];
      assert SetMap(m, key, val).0 == MapState(false, slots);
      assert WordsOf(slots) == WordsOf(m.slots);
      assert slots[n := Used(zero, ghostly)] == m.slots[n := Used(zero, ghostly)][d := Used(key, val)];
    }
  }

  lemma {:induction false} HauntedSet(m: MapState<Member>, zero: JString, ghostly: Member, pair: (bytes, Json))
    requires Plain(m) && UsedCount(m.slots) < DICTMAP_THRESHOLD && zero.hash == 0
    requires pair.0 != [] && MakeKey(pair.0) in Keys(m.slots)
    ensures var u := SetMap(m, MakeKey(pair.0), Member(pair.0, pair.1)).0;
      && Plain(u) && Keys(u.slots) == Keys(m.slots) && UsedCount(u.slots) == UsedCount(m.slots)
      && Ready(m, Set(MakeKey(pair.0), Member(pair.0, pair.1)))
      && SetMember(Haunted(m, zero, ghostly), pair) == Some(Haunted(u, zero, ghostly))
  {
    PlainSlots(m);
    PlainSet(m, MakeKey(pair.0), Member(pair.0, pair.1));
    HauntedScans(m, zero, ghostly, MakeKey(pair.0), Member(pair.0, pair.1), 0);
  }

  /** Sets of keys that are there already leave the record behind the last one alone. */
  lemma {:induction false} HauntedMakes(m: MapState<Member>, zero: JString, ghostly: Member, pairs: seq<(bytes, Json)>)
    requires Plain(m) && UsedCount(m.slots) < DICTMAP_THRESHOLD && zero.hash == 0
    requires forall i :: 0 <= i < |pairs| ==> pairs[i].0 != [] && MakeKey(pairs[i].0) in Keys(m.slots)
    ensures RunReady(m, Sets(pairs))
    ensures var u := Run(m, Sets(pairs)).0;
      && Plain(u) && UsedCount(u.slots) == UsedCount(m.slots)
      && Make(Haunted(m, zero, ghostly), pairs) == Some(Haunted(u, zero, ghostly))
    decreases |pairs|
  {
    if pairs != [] {
      var n := |pairs| - 1;
      var key, member := MakeKey(pairs[n].0), Member(pairs[n].0, pairs[n].1);
      var ops := Sets(pairs);
      assert ops[0] == Set(key, member) && ops[1..] == Sets(pairs[..n]);
      HauntedSet(m, zero, ghostly, pairs[n]);
      MakeStep(Haunted(m, zero, ghostly), pairs);
      HauntedMakes(SetMap(m, key, member).0, zero, ghostly, pairs[..n]);
    }
  }

  lemma {:induction false} HauntedHolds(m: MapState<Member>, key: JString, val: Member)
    requires Plain(m) && UsedCount(m.slots) < DICTMAP_THRESHOLD && key.hash == 0
    ensures var r := Haunted(m, key, val);
      Iterable(r) && Unique(r.slots) && View(r.slots) == View(m.slots)[key := val]
  {
    PlainSlots(m);
    assert key !in Keys(m.slots);
    WriteView(m.slots, UsedCount(m.slots), key, val);
  }

  lemma {:induction false} FirstsHaveAll(pairs: seq<(bytes, Json)>, i: nat)
    requires i < |pairs|
    ensures MakeKey(pairs[i].0) in Firsts(pairs)
  {
    if i > 0 { FirstsHaveAll(pairs[1..], i - 1); }
  }

  lemma {:induction false} FewSetsReady(size: nat, pairs: seq<(bytes, Json)>)
    requires |pairs| <= DELTA
    ensures RunReady(InitMap(size), Sets(pairs))
  {
    SetKeysBound(Sets(pairs));
    SixteenKeysAlwaysReady(size, Sets(pairs));
  }

  /** The pairs behind the one whose name has hash 0. */
  lemma {:induction false} TailIsPlain(pairs: seq<(bytes, Json)>, j: nat) returns (m: MapState<Member>)
    requires |pairs| <= DICTMAP_THRESHOLD && EmptyOnce(Texts(pairs)) && ZeroAt(Texts(pairs), j)
    ensures Plain(m) && UsedCount(m.slots) < DICTMAP_THRESHOLD
    ensures Make(NewMap(|pairs|), pairs[j + 1..]) == Some(Lift(m)) && View(m.slots) == Firsts(pairs[j + 1..])
  {
    var tail := pairs[j + 1..];
    forall i | 0 <= i < |tail|
      ensures Texts(tail)[i] == Texts(pairs)[i + j + 1]
    {
      assert tail[i] == pairs[i + j + 1];
    }
    FewSetsReady(|pairs|, tail);
    ReadyHolds(|pairs|, tail);
    InitIsClean(|pairs|);
    MakeLifts(InitMap(|pairs|), tail);
    UsedCountFresh<Member>(DICTMAP_THRESHOLD);
    PlainBuild(InitMap(|pairs|), tail);
    m := Build(InitMap(|pairs|), tail).value;
  }

  lemma {:induction false} ZeroIsSet(m: MapState<Member>, pair: (bytes, Json))
    requires Plain(m) && UsedCount(m.slots) < DICTMAP_THRESHOLD && Fnv1a(pair.0) == 0
    ensures SetMember(Lift(m), pair) == Some(Haunted(m, MakeKey(pair.0), Member(pair.0, pair.1)))
  {
    assert pair.0 != [];
    HauntScans(m, MakeKey(pair.0), Member(pair.0, pair.1), 0);
  }

  lemma {:induction false} FrontIsStored(pairs: seq<(bytes, Json)>, j: nat, i: nat)
    requires EmptyOnce(Texts(pairs)) && ZeroAt(Texts(pairs), j) && i < j
    ensures pairs[i].0 != [] && MakeKey(pairs[i].0) in Firsts(pairs[j + 1..]) && Fnv1a(pairs[i].0) != 0
  {
    var texts, tail := Texts(pairs), pairs[j + 1..];
    assert texts[i] in texts[j + 1..];
    var k :| 0 <= k < |texts[j + 1..]| && texts[j + 1..][k] == texts[i];
    assert texts[j + 1 + k] == texts[i] && tail[k] == pairs[j + 1 + k];
    FirstsHaveAll(tail, k);
  }

  lemma {:induction false} FirstsAround(pairs: seq<(bytes, Json)>, j: nat)
    requires j < |pairs| && forall i :: 0 <= i < j ==> MakeKey(pairs[i].0) != MakeKey(pairs[j].0)
    ensures var key, val := MakeKey(pairs[j].0), Member(pairs[j].0, pairs[j].1);
      Firsts(pairs) == (Firsts(pairs[j + 1..]) + Firsts(pairs[..j]))[key := val]
  {
    var front, rest := pairs[..j], pairs[j..];
    var key, val := MakeKey(pairs[j].0), Member(pairs[j].0, pairs[j].1);
    assert pairs == front + rest && rest[1..] == pairs[j + 1..];
    FirstsAppend(front, rest);
    if key in Firsts(front) {
      var i := FirstsAreMembers(front, key);
      assert false;
    }
    assert Firsts(rest) == Firsts(pairs[j + 1..])[key := val];
  }

  /** A dictionary in which the name of hash 0 is followed by no new one holds every name's first occurrence. */
  lemma {:induction false} ZeroHolds(pairs: seq<(bytes, Json)>, j: nat)
    requires |pairs| <= DICTMAP_THRESHOLD && EmptyOnce(Texts(pairs)) && ZeroAt(Texts(pairs), j)
    ensures var o := Make(NewMap(|pairs|), pairs); o.Some? && HoldsFirsts(o.value, pairs)
  {
    var m := TailIsPlain(pairs, j);
    var front, zero := pairs[..j], pairs[j];
    var key, val := MakeKey(zero.0), Member(zero.0, zero.1);
    forall i | 0 <= i < j
      ensures front[i] == pairs[i] && front[i].0 != [] && MakeKey(front[i].0) in Keys(m.slots)
      ensures MakeKey(pairs[i].0) != key
    {
      FrontIsStored(pairs, j, i);
      assert View(m.slots).Keys == Keys(m.slots);
    }
    ZeroIsSet(m, zero);
    HauntedMakes(m, key, val, front);
    ZeroSplits(pairs, j, m, Haunted(m, key, val));
    var u := Run(m, Sets(front)).0;
    RunHoldsFirsts(m, front);
    HauntedHolds(u, key, val);
    FirstsAround(pairs, j);
  }

  lemma {:induction false} UpToNext<T>(s: seq<T>, j: nat)
    requires j < |s|
    ensures var front := s[..j + 1]; |front| == j + 1 && front[j] == s[j] && front[..j] == s[..j]
  {}

  lemma {:induction false} MakeThrough(r: Raw<Member>, pairs: seq<(bytes, Json)>, j: nat,
                                       m: Raw<Member>, u: Raw<Member>)
    requires Shape(r) && j < |pairs| && Shape(m) && Make(r, pairs[j + 1..]) == Some(m)
    requires SetMember(m, pairs[j]) == Some(u)
    ensures Make(r, pairs) == Make(u, pairs[..j])
  {
    MakeSplit(r, pairs, j + 1);
    UpToNext(pairs, j);
    MakeStep(m, pairs[..j + 1]);
  }

  lemma {:induction false} ZeroSplits(pairs: seq<(bytes, Json)>, j: nat, m: MapState<Member>, r: Raw<Member>)
    requires j < |pairs| && Plain(m) && Make(NewMap(|pairs|), pairs[j + 1..]) == Some(Lift(m))
    requires SetMember(Lift(m), pairs[j]) == Some(r)
    ensures Shape(r) && Make(NewMap(|pairs|), pairs) == Make(r, pairs[..j])
  {
    MakeThrough(NewMap(|pairs|), pairs, j, Lift(m), r);
  }

  // ---------------------------------------------------------------- faithful names

  /**
   The map made for the names keeps them all: a name of hash 0 only in a dictionary and only if no new name is set
   after it, other names if no resize drops one. Confused names share a record.
   */
  ghost predicate NamesKept(texts: seq<bytes>) {
    && EmptyOnce(texts)
    && if NoZero(texts) then KeysReady(Names(texts))
       else |texts| <= DICTMAP_THRESHOLD && exists j: nat :: ZeroAt(texts, j)
  }

  /** And they can be told apart. */
  ghost predicate NamesFaithful(texts: seq<bytes>) {
    Distinguishable(texts) && NamesKept(texts)
  }

  /** The map made for such names holds the first occurrence of each. */
  lemma {:induction false} ObjectHolds(pairs: seq<(bytes, Json)>)
    requires NamesKept(Texts(pairs))
    ensures var o := Make(NewMap(|pairs|), pairs); o.Some? && HoldsFirsts(o.value, pairs)
  {
    if NoZero(Texts(pairs)) {
      PlainHolds(pairs);
    } else {
      var j: nat :| ZeroAt(Texts(pairs), j);
      ZeroHolds(pairs, j);
    }
  }

  /** With at most sixteen members none of which has a name of hash 0 nothing is ever lost. */
  lemma {:induction false} SixteenNamesFaithful(texts: seq<bytes>)
    requires |texts| <= DELTA && Distinguishable(texts) && NoZero(texts)
    ensures NamesFaithful(texts)
  {
    var ops := KeySets(Names(texts));
    DistinguishableEmptyOnce(texts);
    SetKeysBound(ops);
    SixteenKeysAlwaysReady(|texts|, ops);
  }
}
