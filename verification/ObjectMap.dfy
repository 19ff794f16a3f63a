/**
 The object map of kjson/kmap.c and kjson/kmap.h as a value: a linear dictionary of three slots
 that turns into a hash table on the fourth key. Whole runs of operations agree with a finite map.
 */
module ObjectMap {
  import opened Basics
  import opened Bits
  import opened Table
  import opened Rehash
  import opened Growth

  /** The two members of union kmap_t; `hashed` stands for the dispatch pointer. */
  datatype MapState<+V> = MapState(hashed: bool, slots: seq<Slot<V>>)

  const DICTMAP_THRESHOLD := 3

  /** kmap_init: small maps start as dictionaries, others with the next power of two of slots. */
  function InitMap<V>(size: nat): (m: MapState<V>)
    ensures !m.hashed ==> |m.slots| == DICTMAP_THRESHOLD
    ensures |m.slots| > 0
  {
    if size > DICTMAP_THRESHOLD then MapState(true, Fresh(Pow2(Log2(size))))
    else MapState(false, Fresh(DICTMAP_THRESHOLD))
  }

  /** The first slot from i on that is free or holds the key: the scan of dictmap_set. */
  function DictSlot<V>(slots: seq<Slot<V>>, key: JString, i: nat): (r: nat)
    requires i <= |slots|
    ensures i <= r <= |slots|
    ensures forall j :: i <= j < r ==> slots[j].Used? && slots[j].key != key
    ensures r < |slots| ==> slots[r].Free? || slots[r].key == key
    decreases |slots| - i
  {
    if i == |slots| || slots[i].Free? || slots[i].key == key then i else DictSlot(slots, key, i + 1)
  }

  /** The first slot from i on that holds the key: the scan of dictmap_get, which passes over free slots. */
  function DictFind<V>(slots: seq<Slot<V>>, key: JString, i: nat): (r: nat)
    requires i <= |slots|
    ensures i <= r <= |slots|
    ensures forall j :: i <= j < r ==> slots[j].Free? || slots[j].key != key
    ensures r < |slots| ==> slots[r].Used? && slots[r].key == key
    decreases |slots| - i
  {
    if i == |slots| || (slots[i].Used? && slots[i].key == key) then i else DictFind(slots, key, i + 1)
  }

  /** dictmap_convert2hashmap: the records are put into a table of 2 * DELTA slots. */
  function Convert<V>(slots: seq<Slot<V>>): (t: seq<Slot<V>>)
    ensures |t| == 2 * DELTA
  {
    Reinsert(slots, 0, Fresh(2 * DELTA))
  }

  /** kmap_set. */
  function SetMap<V>(m: MapState<V>, key: JString, val: V): (r: (MapState<V>, Status))
    requires |m.slots| > 0
    ensures |r.0.slots| > 0
  {
    if m.hashed then
      var (t, s) := SetHash(m.slots, key, val);
      (MapState(true, t), s)
    else
      var i := DictSlot(m.slots, key, 0);
      if i < |m.slots| then
        (MapState(false, m.slots[i := Used(key, val)]), if m.slots[i].Free? then Added else Update)
      else
        var (t, s) := SetHash(Convert(m.slots), key, val);
        (MapState(true, t), s)
  }

  /** The slot kmap_get returns; the number of slots when it returns NULL. */
  function FindMap<V>(m: MapState<V>, key: JString): (p: nat)
    requires |m.slots| > 0
    ensures p <= |m.slots|
    ensures p < |m.slots| ==> m.slots[p].Used? && m.slots[p].key == key
  {
    if m.hashed then
      var i := Search(m.slots, key, 0);
      if i == DELTA then |m.slots| else At(key, i, |m.slots|)
    else DictFind(m.slots, key, 0)
  }

  function GetMap<V>(m: MapState<V>, key: JString): Option<V>
    requires |m.slots| > 0
  {
    var p := FindMap(m, key);
    if p == |m.slots| then None else Some(m.slots[p].val)
  }

  /**
   kmap_remove. Removing a stored key from a dictionary would leave its hash in hash_list with no
   key behind it, so that the next lookup of that hash follows a null pointer.
   */
  function RemoveMap<V>(m: MapState<V>, key: JString): (u: MapState<V>)
    requires |m.slots| > 0 && (m.hashed || FindMap(m, key) == |m.slots|)
    ensures |u.slots| == |m.slots|
  {
    if m.hashed then MapState(true, Erase(m.slots, key)) else m
  }

  // ---------------------------------------------------------------- one operation

  /** The free slots of a dictionary come last. */
  ghost predicate FreeLast<V>(slots: seq<Slot<V>>) {
    forall i, j :: 0 <= i <= j < |slots| && slots[i].Free? ==> slots[j].Free?
  }

  ghost predicate WfMap<V>(m: MapState<V>) {
    if m.hashed then Wf(m.slots) && |m.slots| >= 4
    else |m.slots| == DICTMAP_THRESHOLD && Unique(m.slots) && FreeLast(m.slots)
  }

  ghost function MapView<V>(m: MapState<V>): map<JString, V> {
    View(m.slots)
  }

  /** When kmap_set keeps the meaning: no hole before the key, and room for every record at every resize. */
  ghost predicate SetReady<V>(m: MapState<V>, key: JString)
    requires |m.slots| > 0
  {
    m.hashed ==> NoHoleBefore(m.slots, key) && KeepsUntilFit(m.slots, key)
  }

  lemma {:induction false} InitEmpty<V>(size: nat)
    ensures WfMap(InitMap<V>(size)) && MapView(InitMap<V>(size)) == map[]
    ensures Dense(InitMap<V>(size).slots)
  {
    var m := InitMap<V>(size);
    assert Keys(m.slots) == {};
    if size > DICTMAP_THRESHOLD {
      Log2RoundsUp(size);
    }
  }

  /** The retry loop gives up exactly where 24 bytes for each slot no longer fit an unsigned of 32 bits. */
  lemma {:induction false} LimitIsWidth(k: nat)
    ensures Pow2(k) <= MAX_SLOTS <==> 24 * Pow2(k) <= 4294967295
  {
    Pow2To27();
    if k <= 27 { Pow2Monotone(k, 27); } else { Pow2Monotone(28, k); }
  }

  lemma {:induction false} Pow2To27()
    ensures Pow2(27) == 134217728 && Pow2(28) == 268435456
  {
    assert Pow2(9) == 512;
    assert Pow2(18) == 262144 by { assert Pow2(13) == 8192; }
    assert Pow2(23) == 8388608;
  }

  lemma {:induction false} Pow2Monotone(j: nat, k: nat)
    requires j <= k
    ensures Pow2(j) <= Pow2(k)
  {
    if j < k { Pow2Monotone(j, k - 1); }
  }

  lemma {:induction false} UsedCountFresh<V>(n: nat)
    ensures UsedCount(Fresh<V>(n)) == 0
  {
    if n > 0 {
      assert Fresh<V>(n)[..n - 1] == Fresh<V>(n - 1);
      UsedCountFresh<V>(n - 1);
    }
  }

  lemma {:induction false} UsedCountBound<V>(t: seq<Slot<V>>)
    ensures UsedCount(t) <= |t|
  {
    if t != [] {
      UsedCountBound(t[..|t| - 1]);
    }
  }

  lemma {:induction false} ConvertKeeps<V>(slots: seq<Slot<V>>)
    requires |slots| == DICTMAP_THRESHOLD && Unique(slots)
    ensures Wf(Convert(slots)) && Dense(Convert(slots)) && View(Convert(slots)) == View(slots)
    ensures |Keys(Convert(slots))| <= DICTMAP_THRESHOLD
  {
    UsedCountBound(slots);
    UsedCountIsKeys(slots);
    FreshMoved(slots, 2 * DELTA);
    ReinsertFew(slots, 0, Fresh<V>(2 * DELTA));
    MovedAll(slots, Convert(slots));
  }

  lemma {:induction false} SetMapStores<V>(m: MapState<V>, key: JString, val: V)
    requires WfMap(m) && SetReady(m, key)
    ensures var (u, s) := SetMap(m, key, val); s != Exhausted ==>
      && WfMap(u) && MapView(u) == MapView(m)[key := val]
      && s == (if key in MapView(m) then Update else Added)
    ensures !m.hashed ==> SetMap(m, key, val).1 != Exhausted
  {
    if m.hashed {
      SetStores(m.slots, key, val);
      SetKeepsSize(m.slots, key, val);
    } else {
      var i := DictSlot(m.slots, key, 0);
      if i < |m.slots| {
        if m.slots[i].Free? {
          assert key !in Keys(m.slots);
        } else {
          ViewAt(m.slots, i);
        }
        WriteView(m.slots, i, key, val);
      } else {
        ConvertKeeps(m.slots);
        var t := Convert(m.slots);
        FewFitAtOnce(t, key, val);
        FewLeaveRoom(t, key);
        SetStores(t, key, val);
        SetKeepsSize(t, key, val);
      }
    }
  }

  /** A map starts as a dictionary for up to three members; a table has the least power of two of slots for the rest. */
  lemma {:induction false} InitForm<V>(size: nat)
    ensures var m := InitMap<V>(size);
      (m.hashed <==> size > 3) && (m.hashed ==> size <= |m.slots| < 2 * size && |m.slots| == Pow2(Log2(size)))
      && (!m.hashed ==> |m.slots| == 3)
  {
    if size > 3 { Log2RoundsUp(size); }
  }

  /** The fourth key turns a dictionary into a table of 32 slots, and nothing else does. */
  lemma {:induction false} FourthKeyConverts<V>(m: MapState<V>, key: JString, val: V)
    requires WfMap(m) && !m.hashed
    ensures var u := SetMap(m, key, val).0;
      (u.hashed <==> |MapView(m)| == 3 && key !in MapView(m)) && |u.slots| == if u.hashed then 32 else 3
  {
    UsedCountIsKeys(m.slots);
    FreeLastCount(m.slots);
    var i := DictSlot(m.slots, key, 0);
    assert MapView(m).Keys == Keys(m.slots);
    if i == |m.slots| {
      ConvertKeeps(m.slots);
      FewLeaveRoom(Convert(m.slots), key);
      SetFits(Convert(m.slots), key, val);
    } else if m.slots[i].Used? {
      assert key in Keys(m.slots);
    }
  }

  /** A set that ends, in either form, agrees with the finite map exactly when it is ready. */
  lemma {:induction false} SetMapAgreesIff<V>(m: MapState<V>, key: JString, val: V)
    requires WfMap(m) && SetMap(m, key, val).1 != Exhausted
    ensures var u := SetMap(m, key, val).0;
      (Unique(u.slots) && MapView(u) == MapView(m)[key := val]) <==> SetReady(m, key)
  {
    if m.hashed {
      SetAgreesIff(m.slots, key, val);
    } else {
      SetMapStores(m, key, val);
    }
  }

  /** A set adds no key but its own. */
  lemma {:induction false} SetMapKeys<V>(m: MapState<V>, key: JString, val: V)
    requires |m.slots| > 0
    ensures Keys(SetMap(m, key, val).0.slots) <= Keys(m.slots) + {key}
  {
    if m.hashed {
      SetHashKeys(m.slots, key, val);
    } else if DictSlot(m.slots, key, 0) == |m.slots| {
      ReinsertKeys(m.slots, 0, Fresh<V>(2 * DELTA));
      SetHashKeys(Convert(m.slots), key, val);
    }
  }

  lemma {:induction false} SetKeepsSize<V>(t: seq<Slot<V>>, key: JString, val: V)
    requires |t| >= 4
    ensures |SetHash(t, key, val).0| >= 4
    decreases if |t| > MAX_SLOTS then 0 else MAX_SLOTS + 1 - |t|
  {
    if Probe(t, key, 0) == DELTA && 4 * |t| <= MAX_SLOTS {
      SetKeepsSize(Grow(t), key, val);
    }
  }

  lemma {:induction false} GetMapFinds<V>(m: MapState<V>, key: JString)
    requires WfMap(m)
    ensures GetMap(m, key) == if key in MapView(m) then Some(MapView(m)[key]) else None
  {
    if m.hashed {
      SearchFinds(m.slots, key);
    } else {
      var i := DictFind(m.slots, key, 0);
      if i < |m.slots| { ViewAt(m.slots, i); }
    }
  }

  lemma {:induction false} RemoveMapRemoves<V>(m: MapState<V>, key: JString)
    requires WfMap(m) && (m.hashed || key !in MapView(m))
    ensures FindMap(m, key) == |m.slots| <==> key !in MapView(m)
    ensures WfMap(RemoveMap(m, key)) && MapView(RemoveMap(m, key)) == MapView(m) - {key}
  {
    GetMapFinds(m, key);
    if m.hashed {
      EraseRemoves(m.slots, key);
    } else {
      assert MapView(m) - {key} == MapView(m);
    }
  }

  // ---------------------------------------------------------------- whole runs

  datatype Op<+V> = Set(key: JString, val: V) | Get(key: JString) | Remove(key: JString)

  /** What one operation must meet when its turn comes. */
  ghost predicate Ready<V>(m: MapState<V>, op: Op<V>)
    requires WfMap(m)
  {
    match op
    case Set(key, val) => SetReady(m, key) && SetMap(m, key, val).1 != Exhausted
    case Get(_) => true
    case Remove(key) => m.hashed || FindMap(m, key) == |m.slots|
  }

  ghost predicate RunReady<V>(m: MapState<V>, ops: seq<Op<V>>)
    decreases |ops|
  {
    ops == [] || (WfMap(m) && Ready(m, ops[0]) && RunReady(Step(m, ops[0]), ops[1..]))
  }

  ghost function Step<V>(m: MapState<V>, op: Op<V>): MapState<V>
    requires WfMap(m) && Ready(m, op)
  {
    match op
    case Set(key, val) => SetMap(m, key, val).0
    case Get(_) => m
    case Remove(key) => RemoveMap(m, key)
  }

  /** What an operation returns: a removal nothing. */
  datatype Reply<+V> = Did(status: Status) | Got(value: Option<V>)

  /** The state after a run, and what its sets and gets returned. */
  ghost function Run<V>(m: MapState<V>, ops: seq<Op<V>>): (r: (MapState<V>, seq<Reply<V>>))
    requires RunReady(m, ops)
    decreases |ops|
  {
    if ops == [] then (m, [])
    else
      var (u, replies) := Run(Step(m, ops[0]), ops[1..]);
      (u, Replies(m, ops[0]) + replies)
  }

  function Replies<V>(m: MapState<V>, op: Op<V>): seq<Reply<V>>
    requires |m.slots| > 0
  {
    match op
    case Set(key, val) => [Did(SetMap(m, key, val).1)]
    case Get(key) => [Got(GetMap(m, key))]
    case Remove(_) => []
  }

  /** One operation on a finite map. */
  function AbstractStep<V>(f: map<JString, V>, op: Op<V>): map<JString, V> {
    match op
    case Set(key, val) => f[key := val]
    case Get(_) => f
    case Remove(key) => f - {key}
  }

  function AbstractReplies<V>(f: map<JString, V>, op: Op<V>): seq<Reply<V>> {
    match op
    case Set(key, val) => [Did(if key in f then Update else Added)]
    case Get(key) => [Got(if key in f then Some(f[key]) else None)]
    case Remove(_) => []
  }

  /** The same run on a finite map. */
  function AbstractRun<V>(f: map<JString, V>, ops: seq<Op<V>>): (r: (map<JString, V>, seq<Reply<V>>))
    decreases |ops|
  {
    if ops == [] then (f, [])
    else
      var (g, replies) := AbstractRun(AbstractStep(f, ops[0]), ops[1..]);
      (g, AbstractReplies(f, ops[0]) + replies)
  }

  lemma {:induction false} RunRefines<V>(m: MapState<V>, ops: seq<Op<V>>)
    requires WfMap(m) && RunReady(m, ops)
    ensures var (u, replies) := Run(m, ops);
      && WfMap(u)
      && (MapView(u), replies) == AbstractRun(MapView(m), ops)
      && UsedCount(u.slots) == |MapView(u)|
    decreases |ops|
  {
    if ops == [] {
      UsedCountIsKeys(m.slots);
      assert MapView(m).Keys == Keys(m.slots);
    } else {
      match ops[0] {
        case Set(key, val) => SetMapStores(m, key, val);
        case Get(key) => GetMapFinds(m, key);
        case Remove(key) => GetMapFinds(m, key); RemoveMapRemoves(m, key);
      }
      RunRefines(Step(m, ops[0]), ops[1..]);
    }
  }

  /** Every ready run from kmap_init, whatever the initial size, agrees with a run on the empty finite map. */
  lemma {:induction false} KMapRefinesFiniteMap<V>(size: nat, ops: seq<Op<V>>)
    requires RunReady(InitMap(size), ops)
    ensures var (u, replies) := Run(InitMap(size), ops);
      (MapView(u), replies) == AbstractRun(map[], ops) && UsedCount(u.slots) == |MapView(u)|
  {
    InitEmpty<V>(size);
    RunRefines(InitMap(size), ops);
  }

  ghost predicate SetsAndGets<V>(ops: seq<Op<V>>) {
    forall i :: 0 <= i < |ops| ==> !ops[i].Remove?
  }

  ghost function SetKeys<V>(ops: seq<Op<V>>): set<JString> {
    set i | 0 <= i < |ops| && ops[i].Set? :: ops[i].key
  }

  lemma {:induction false} SetKeysBound<V>(ops: seq<Op<V>>)
    ensures |SetKeys(ops)| <= |ops|
  {
    if ops != [] {
      var front, last := ops[..|ops| - 1], ops[|ops| - 1];
      SetKeysBound(front);
      assert forall i :: 0 <= i < |front| ==> front[i] == ops[i];
      assert SetKeys(ops) == SetKeys(front) + if last.Set? then {last.key} else {};
    }
  }

  lemma {:induction false} FewKeysReadyFrom<V>(m: MapState<V>, ops: seq<Op<V>>, keys: set<JString>)
    requires WfMap(m) && (m.hashed ==> Dense(m.slots)) && SetsAndGets(ops)
    requires Keys(m.slots) + SetKeys(ops) <= keys && |keys| <= DELTA
    ensures RunReady(m, ops)
    decreases |ops|
  {
    if ops != [] {
      var rest := ops[1..];
      assert forall i :: 0 <= i < |rest| ==> rest[i] == ops[i + 1];
      if ops[0].Set? {
        var key, val := ops[0].key, ops[0].val;
        assert key in SetKeys(ops);
        FewKeysSet(m, key, val, keys);
        FewKeysReadyFrom(SetMap(m, key, val).0, rest, keys);
      } else {
        FewKeysReadyFrom(m, rest, keys);
      }
    }
  }

  lemma {:induction false} FewKeysFit<V>(t: seq<Slot<V>>, key: JString, val: V, keys: set<JString>)
    requires Wf(t) && Dense(t) && |t| >= 4
    requires Keys(t) + {key} <= keys && |keys| <= DELTA
    ensures KeepsUntilFit(t, key) && SetHash(t, key, val).1 != Exhausted
    ensures Dense(SetHash(t, key, val).0)
  {
    SubsetSize(Keys(t), keys);
    SafeKeepsUntilFit(t, key);
    if key in Keys(t) {
      var p :| 0 <= p < |t| && t[p].Used? && t[p].key == key;
      ProbeFindsStored(t, key, p);
    } else {
      SubsetSize(Keys(t) + {key}, keys);
      FewFitAtOnce(t, key, val);
    }
    SetStores(t, key, val);
  }

  lemma {:induction false} FewKeysReady<V>(m: MapState<V>, key: JString, val: V, keys: set<JString>)
    requires WfMap(m) && (m.hashed ==> Dense(m.slots))
    requires Keys(m.slots) + {key} <= keys && |keys| <= DELTA
    ensures Ready(m, Set(key, val))
    ensures var u := SetMap(m, key, val).0; u.hashed ==> Dense(u.slots)
  {
    if m.hashed {
      FewKeysFit(m.slots, key, val, keys);
    } else if DictSlot(m.slots, key, 0) == |m.slots| {
      ConvertKeeps(m.slots);
      assert Keys(Convert(m.slots)) == View(Convert(m.slots)).Keys == View(m.slots).Keys == Keys(m.slots);
      FewKeysFit(Convert(m.slots), key, val, keys);
    }
  }

  lemma {:induction false} FewKeysSet<V>(m: MapState<V>, key: JString, val: V, keys: set<JString>)
    requires WfMap(m) && (m.hashed ==> Dense(m.slots))
    requires Keys(m.slots) + {key} <= keys && |keys| <= DELTA
    ensures Ready(m, Set(key, val))
    ensures var u := SetMap(m, key, val).0;
      WfMap(u) && (u.hashed ==> Dense(u.slots)) && Keys(u.slots) <= keys
  {
    FewKeysReady(m, key, val, keys);
    SetMapStores(m, key, val);
    SetMapKeys(m, key, val);
  }

  /** Sets and gets of at most sixteen different keys are always ready, whatever their hashes. */
  lemma {:induction false} SixteenKeysAlwaysReady<V>(size: nat, ops: seq<Op<V>>)
    requires SetsAndGets(ops) && |SetKeys(ops)| <= DELTA
    ensures RunReady(InitMap(size), ops)
  {
    InitEmpty<V>(size);
    assert Keys(InitMap<V>(size).slots) == MapView(InitMap<V>(size)).Keys == {};
    FewKeysReadyFrom(InitMap(size), ops, SetKeys(ops));
  }

  lemma {:induction false} SpreadSet<V>(t: seq<Slot<V>>, key: JString, val: V, keys: set<JString>)
    requires Wf(t) && Dense(t) && AllHome(t) && Keys(t) + {key} <= keys && Spread(keys, |t|)
    ensures KeepsUntilFit(t, key) && SetHash(t, key, val).1 != Exhausted
    ensures var u := SetHash(t, key, val).0;
      |u| == |t| && Wf(u) && Dense(u) && AllHome(u) && Keys(u) <= keys
  {
    ProbeAtHome(t, key);
    SetStores(t, key, val);
    var u := SetHash(t, key, val).0;
    assert View(u).Keys == Keys(u) && View(t).Keys == Keys(t);
  }

  lemma {:induction false} SpreadReadyFrom<V>(m: MapState<V>, ops: seq<Op<V>>, keys: set<JString>)
    requires WfMap(m) && m.hashed && Dense(m.slots) && AllHome(m.slots) && SetsAndGets(ops)
    requires Keys(m.slots) + SetKeys(ops) <= keys && Spread(keys, |m.slots|)
    ensures RunReady(m, ops)
    decreases |ops|
  {
    if ops != [] {
      var rest := ops[1..];
      assert forall i :: 0 <= i < |rest| ==> rest[i] == ops[i + 1];
      if ops[0].Set? {
        var key, val := ops[0].key, ops[0].val;
        assert key in SetKeys(ops);
        SpreadSet(m.slots, key, val, keys);
        SpreadReadyFrom(SetMap(m, key, val).0, rest, keys);
      } else {
        SpreadReadyFrom(m, rest, keys);
      }
    }
  }

  /** Any number of keys whose homes differ in the initial table are always ready. */
  lemma {:induction false} SpreadKeysReady<V>(size: nat, ops: seq<Op<V>>)
    requires size > DICTMAP_THRESHOLD && SetsAndGets(ops) && Spread(SetKeys(ops), |InitMap<V>(size).slots|)
    ensures RunReady(InitMap(size), ops)
  {
    InitEmpty<V>(size);
    assert Keys(InitMap<V>(size).slots) == MapView(InitMap<V>(size)).Keys == {};
    SpreadReadyFrom(InitMap(size), ops, SetKeys(ops));
  }

  // ---------------------------------------------------------------- iteration

  /** The first used slot from i on. */
  function NextUsed<V>(slots: seq<Slot<V>>, i: nat): (r: nat)
    requires i <= |slots|
    ensures i <= r <= |slots|
    ensures forall j :: i <= j < r ==> slots[j].Free?
    ensures r < |slots| ==> slots[r].Used?
    decreases |slots| - i
  {
    if i == |slots| || slots[i].Used? then i else NextUsed(slots, i + 1)
  }

  /** The slot kmap_next returns for iterator index i; None for NULL. */
  function NextMap<V>(m: MapState<V>, i: nat): (r: Option<nat>)
    requires i <= |m.slots|
    ensures r.Some? ==> i <= r.value < |m.slots|
  {
    if m.hashed then
      var p := NextUsed(m.slots, i);
      if p == |m.slots| then None else Some(p)
    else
      UsedCountBound(m.slots);
      if i < UsedCount(m.slots) then Some(i) else None
  }

  /** Calling kmap_next until it returns NULL. */
  function Iterate<V>(m: MapState<V>, i: nat): (r: seq<Slot<V>>)
    requires i <= |m.slots|
    decreases |m.slots| - i
  {
    match NextMap(m, i)
    case None => []
    case Some(p) => [m.slots[p]] + Iterate(m, p + 1)
  }

  /** The used slots in order. */
  function Records<V>(slots: seq<Slot<V>>): seq<Slot<V>> {
    if slots == [] then [] else (if slots[0].Used? then [slots[0]] else []) + Records(slots[1..])
  }

  lemma {:induction false} FreeLastCount<V>(slots: seq<Slot<V>>)
    requires FreeLast(slots)
    ensures UsedCount(slots) <= |slots|
    ensures forall i :: 0 <= i < |slots| ==> (slots[i].Used? <==> i < UsedCount(slots))
  {
    UsedCountBound(slots);
    if slots != [] {
      var front := slots[..|slots| - 1];
      FreeLastCount(front);
      assert forall i :: 0 <= i < |front| ==> slots[i] == front[i];
    }
  }

  lemma {:induction false} IterateStep<V>(m: MapState<V>, i: nat)
    requires WfMap(m) && i < |m.slots|
    ensures Iterate(m, i) == (if m.slots[i].Used? then [m.slots[i]] else []) + Iterate(m, i + 1)
  {
    if m.hashed {
      assert m.slots[i].Free? ==> NextUsed(m.slots, i) == NextUsed(m.slots, i + 1);
    } else {
      FreeLastCount(m.slots);
    }
  }

  lemma {:induction false} IterateIsRecords<V>(m: MapState<V>, i: nat)
    requires WfMap(m) && i <= |m.slots|
    ensures Iterate(m, i) == Records(m.slots[i..])
    decreases |m.slots| - i
  {
    if i < |m.slots| {
      IterateStep(m, i);
      IterateIsRecords(m, i + 1);
      var rest := m.slots[i..];
      assert rest[0] == m.slots[i] && rest[1..] == m.slots[i + 1..];
    } else {
      FreeLastCount(if m.hashed then [] else m.slots);
    }
  }

  lemma {:induction false} RecordIn<V>(slots: seq<Slot<V>>, s: Slot<V>)
    ensures s in Records(slots) <==> s in slots && s.Used?
  {
    if slots != [] {
      RecordIn(slots[1..], s);
      assert slots == [slots[0]] + slots[1..];
    }
  }

  lemma {:induction false} RecordsUnique<V>(slots: seq<Slot<V>>)
    requires Unique(slots)
    ensures Unique(Records(slots))
  {
    if slots != [] {
      var head, rest := slots[0], slots[1..];
      assert forall i :: 0 <= i < |rest| ==> rest[i] == slots[i + 1];
      RecordsUnique(rest);
      var more := Records(rest);
      forall i | 0 <= i < |more|
        ensures more[i].Used? && (head.Used? ==> more[i].key != head.key)
      {
        RecordIn(rest, more[i]);
        var j :| 0 <= j < |rest| && rest[j] == more[i];
        assert slots[j + 1] == more[i];
      }
    }
  }

  lemma {:induction false} RecordsCount<V>(slots: seq<Slot<V>>)
    requires Unique(slots)
    ensures |Records(slots)| == |Keys(slots)|
  {
    if slots != [] {
      var head, rest := slots[0], slots[1..];
      assert forall i :: 0 <= i < |rest| ==> rest[i] == slots[i + 1];
      RecordsCount(rest);
      if head.Used? {
        assert head.key !in Keys(rest);
        assert Keys(slots) == Keys(rest) + {head.key};
      } else {
        assert Keys(slots) == Keys(rest);
      }
    }
  }

  /** Iterating to NULL yields every stored key exactly once, with its current value. */
  lemma {:induction false} IterationCovers<V>(m: MapState<V>)
    requires WfMap(m)
    ensures var es := Iterate(m, 0);
      && |es| == |MapView(m)| && Unique(es)
      && (forall i :: 0 <= i < |es| ==> es[i].Used? && es[i].key in MapView(m) && MapView(m)[es[i].key] == es[i].val)
      && (forall key :: key in MapView(m) ==> Used(key, MapView(m)[key]) in es)
  {
    var es := Records(m.slots);
    IterateIsRecords(m, 0);
    assert m.slots[0..] == m.slots;
    RecordsUnique(m.slots);
    RecordsCount(m.slots);
    assert MapView(m).Keys == Keys(m.slots);
    forall i | 0 <= i < |es|
      ensures es[i].Used? && es[i].key in MapView(m) && MapView(m)[es[i].key] == es[i].val
    {
      RecordIn(m.slots, es[i]);
      var p :| 0 <= p < |m.slots| && m.slots[p] == es[i];
      ViewAt(m.slots, p);
    }
    forall key | key in MapView(m)
      ensures Used(key, MapView(m)[key]) in es
    {
      var p :| 0 <= p < |m.slots| && m.slots[p].Used? && m.slots[p].key == key;
      ViewAt(m.slots, p);
      RecordIn(m.slots, m.slots[p]);
    }
  }
}
