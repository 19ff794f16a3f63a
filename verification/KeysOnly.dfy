/** Where records go, and whether a set is ready, depends on the keys alone and not on the values. */
module KeysOnly {
  import opened Table
  import opened Rehash
  import opened Load
  import opened Growth
  import opened ObjectMap
  import opened RawMap

  ghost predicate SameSlot<V, W>(s: Slot<V>, r: Slot<W>) {
    if s.Free? then r.Free? else r.Used? && s.key == r.key
  }

  /** Two tables with the same keys in the same slots. */
  ghost predicate SameKeys<V, W>(t: seq<Slot<V>>, u: seq<Slot<W>>) {
    |t| == |u| && forall p {:trigger SameSlot(t[p], u[p])} :: 0 <= p < |t| ==> SameSlot(t[p], u[p])
  }

  lemma {:induction false} SameProbe<V, W>(t: seq<Slot<V>>, u: seq<Slot<W>>, key: JString, i: nat)
    requires SameKeys(t, u) && |t| > 0 && i <= DELTA
    ensures Probe(t, key, i) == Probe(u, key, i)
    decreases DELTA - i
  {
    if i < DELTA {
      assert SameSlot(t[At(key, i, |t|)], u[At(key, i, |t|)]);
      SameProbe(t, u, key, i + 1);
    }
  }

  lemma {:induction false} SamePlace<V, W>(t: seq<Slot<V>>, u: seq<Slot<W>>, key: JString, v: V, w: W)
    requires SameKeys(t, u) && |t| > 0
    ensures SameKeys(Place(t, key, v).0, Place(u, key, w).0) && Place(t, key, v).1 == Place(u, key, w).1
  {
    SameProbe(t, u, key, 0);
    var i := Probe(t, key, 0);
    if i < DELTA { assert SameSlot(t[At(key, i, |t|)], u[At(key, i, |t|)]); }
  }

  lemma {:induction false} SameAdvance<V, W>(a: seq<Slot<V>>, b: seq<Slot<W>>, i: nat, t: seq<Slot<V>>, u: seq<Slot<W>>)
    requires SameKeys(a, b) && SameKeys(t, u) && |t| > 0 && i < |a|
    ensures SameKeys(Advance(a, i, t), Advance(b, i, u))
  {
    assert SameSlot(a[i], b[i]);
    if a[i].Used? { SamePlace(t, u, a[i].key, a[i].val, b[i].val); }
  }

  /** One turn of the loop of a rehash, on both tables. */
  lemma {:induction false} SameTurn<V, W>(a: seq<Slot<V>>, b: seq<Slot<W>>, i: nat, t: seq<Slot<V>>, u: seq<Slot<W>>)
    returns (more: seq<Slot<V>>, less: seq<Slot<W>>)
    requires SameKeys(a, b) && SameKeys(t, u) && |t| > 0 && i < |a|
    ensures |more| == |t| && SameKeys(more, less)
    ensures Reinsert(a, i, t) == Reinsert(a, i + 1, more) && Reinsert(b, i, u) == Reinsert(b, i + 1, less)
  {
    SameAdvance(a, b, i, t, u);
    more, less := Advance(a, i, t), Advance(b, i, u);
  }

  lemma {:induction false} SameReinsert<V, W>(a: seq<Slot<V>>, b: seq<Slot<W>>, i: nat,
                                              t: seq<Slot<V>>, u: seq<Slot<W>>)
    returns (x: seq<Slot<V>>, y: seq<Slot<W>>)
    requires SameKeys(a, b) && SameKeys(t, u) && |t| > 0 && i <= |a|
    ensures x == Reinsert(a, i, t) && y == Reinsert(b, i, u) && SameKeys(x, y)
    decreases |a| - i
  {
    if i == |a| {
      x, y := t, u;
    } else {
      var more, less := SameTurn(a, b, i, t, u);
      x, y := SameReinsert(a, b, i + 1, more, less);
    }
  }

  lemma {:induction false} SameFresh<V, W>(n: nat)
    ensures SameKeys(Fresh<V>(n), Fresh<W>(n))
  {}

  lemma {:induction false} SameGrow<V, W>(t: seq<Slot<V>>, u: seq<Slot<W>>)
    requires SameKeys(t, u) && |t| > 0
    ensures SameKeys(Grow(t), Grow(u))
  {
    SameFresh<V, W>(4 * |t|);
    var x, y := SameReinsert(t, u, 0, Fresh<V>(4 * |t|), Fresh<W>(4 * |t|));
  }

  lemma {:induction false} SameConvert<V, W>(t: seq<Slot<V>>, u: seq<Slot<W>>)
    requires SameKeys(t, u)
    ensures SameKeys(Convert(t), Convert(u))
  {
    SameFresh<V, W>(2 * DELTA);
    var x, y := SameReinsert(t, u, 0, Fresh<V>(2 * DELTA), Fresh<W>(2 * DELTA));
  }

  lemma {:induction false} SameSetHash<V, W>(t: seq<Slot<V>>, u: seq<Slot<W>>, key: JString, v: V, w: W)
    requires SameKeys(t, u) && |t| > 0
    ensures SameKeys(SetHash(t, key, v).0, SetHash(u, key, w).0) && SetHash(t, key, v).1 == SetHash(u, key, w).1
    decreases if |t| > MAX_SLOTS then 0 else MAX_SLOTS + 1 - |t|
  {
    SamePlace(t, u, key, v, w);
    SameProbe(t, u, key, 0);
    if Probe(t, key, 0) == DELTA && 4 * |t| <= MAX_SLOTS {
      SameGrow(t, u);
      SameSetHash(Grow(t), Grow(u), key, v, w);
    }
  }

  lemma {:induction false} SameCrowd<V, W>(t: seq<Slot<V>>, u: seq<Slot<W>>, i: nat, q: nat, a: nat, n: nat)
    requires SameKeys(t, u) && i <= |t| && q < n
    ensures Crowd(t, i, q, a, n) == Crowd(u, i, q, a, n)
  {
    assert forall p :: 0 <= p < i ==> SameSlot(t[p], u[p]);
  }

  lemma {:induction false} SameRoomFor<V, W>(t: seq<Slot<V>>, u: seq<Slot<W>>, i: nat, n: nat)
    requires SameKeys(t, u) && n > 0 && Stored(t, i) && RoomFor(t, i, n)
    ensures Stored(u, i) && RoomFor(u, i, n)
  {
    assert SameSlot(t[i], u[i]);
    var d: nat :| d < DELTA && Roomy(t, i, At(t[i].key, d, n), n);
    var q := At(t[i].key, d, n);
    forall a: nat | a < n
      ensures |Crowd(u, i, q, a, n)| <= a
    {
      SameCrowd(t, u, i, q, a, n);
    }
    assert Roomy(u, i, q, n);
  }

  lemma {:induction false} SameKeepsAll<V, W>(t: seq<Slot<V>>, u: seq<Slot<W>>, n: nat)
    requires SameKeys(t, u) && n > 0 && KeepsAll(t, n)
    ensures KeepsAll(u, n)
  {
    forall i: nat | Stored(u, i)
      ensures RoomFor(u, i, n)
    {
      assert SameSlot(t[i], u[i]);
      SameRoomFor(t, u, i, n);
    }
  }

  lemma {:induction false} SameKeepsUntilFit<V, W>(t: seq<Slot<V>>, u: seq<Slot<W>>, key: JString)
    requires SameKeys(t, u) && |t| > 0 && KeepsUntilFit(t, key)
    ensures KeepsUntilFit(u, key)
    decreases if |t| > MAX_SLOTS then 0 else MAX_SLOTS + 1 - |t|
  {
    SameProbe(t, u, key, 0);
    if Probe(t, key, 0) == DELTA && 4 * |t| <= MAX_SLOTS {
      SameKeepsAll(t, u, 4 * |t|);
      SameGrow(t, u);
      SameKeepsUntilFit(Grow(t), Grow(u), key);
    }
  }

  lemma {:induction false} SameNoHole<V, W>(t: seq<Slot<V>>, u: seq<Slot<W>>, key: JString)
    requires SameKeys(t, u) && NoHoleBefore(t, key)
    ensures NoHoleBefore(u, key)
  {
    forall p | 0 <= p < |u| && u[p].Used? && u[p].key == key
      ensures PathFull(u, key, p)
    {
      assert SameSlot(t[p], u[p]);
      assert PathFull(t, key, p);
      assert forall q :: 0 <= q < |t| ==> SameSlot(t[q], u[q]);
    }
  }

  lemma {:induction false} SameWf<V, W>(t: seq<Slot<V>>, u: seq<Slot<W>>)
    requires SameKeys(t, u) && Wf(t)
    ensures Wf(u)
  {
    assert forall q :: 0 <= q < |t| ==> SameSlot(t[q], u[q]);
  }

  ghost predicate SameMap<V, W>(m: MapState<V>, n: MapState<W>) {
    m.hashed == n.hashed && SameKeys(m.slots, n.slots)
  }

  lemma {:induction false} SameWfMap<V, W>(m: MapState<V>, n: MapState<W>)
    requires SameMap(m, n) && WfMap(m)
    ensures WfMap(n)
  {
    assert forall q :: 0 <= q < |m.slots| ==> SameSlot(m.slots[q], n.slots[q]);
    if m.hashed { SameWf(m.slots, n.slots); }
  }

  lemma {:induction false} SameDictSlot<V, W>(t: seq<Slot<V>>, u: seq<Slot<W>>, key: JString, i: nat)
    requires SameKeys(t, u) && i <= |t|
    ensures DictSlot(t, key, i) == DictSlot(u, key, i)
    decreases |t| - i
  {
    if i < |t| {
      assert SameSlot(t[i], u[i]);
      SameDictSlot(t, u, key, i + 1);
    }
  }

  lemma {:induction false} SameSet<V, W>(m: MapState<V>, n: MapState<W>, key: JString, v: V, w: W)
    requires SameMap(m, n) && |m.slots| > 0
    ensures SameMap(SetMap(m, key, v).0, SetMap(n, key, w).0) && SetMap(m, key, v).1 == SetMap(n, key, w).1
  {
    if m.hashed {
      SameSetHash(m.slots, n.slots, key, v, w);
    } else {
      SameDictSlot(m.slots, n.slots, key, 0);
      var i := DictSlot(m.slots, key, 0);
      if i < |m.slots| {
        assert SameSlot(m.slots[i], n.slots[i]);
      } else {
        SameConvert(m.slots, n.slots);
        SameSetHash(Convert(m.slots), Convert(n.slots), key, v, w);
      }
    }
  }

  lemma {:induction false} SameReady<V, W>(m: MapState<V>, n: MapState<W>, key: JString, v: V, w: W)
    requires SameMap(m, n) && WfMap(m) && Ready(m, Set(key, v))
    ensures WfMap(n) && Ready(n, Set(key, w))
  {
    SameWfMap(m, n);
    SameSet(m, n, key, v, w);
    if m.hashed {
      SameNoHole(m.slots, n.slots, key);
      SameKeepsUntilFit(m.slots, n.slots, key);
    }
  }

  // ---------------------------------------------------------------- the fields

  ghost predicate SameRaw<V, W>(r: Raw<V>, s: Raw<W>) {
    && r.RawHash? == s.RawHash? && r.used == s.used && SameKeys(r.slots, s.slots)
    && (r.RawDict? ==> r.words == s.words)
  }

  lemma {:induction false} SameLive<V, W>(t: seq<Slot<V>>, u: seq<Slot<W>>)
    requires SameKeys(t, u)
    ensures SameKeys(Live(t), Live(u))
  {
    assert forall p :: 0 <= p < |t| ==> SameSlot(t[p], u[p]);
  }

  lemma {:induction false} SameCount<V, W>(t: seq<Slot<V>>, u: seq<Slot<W>>)
    requires SameKeys(t, u)
    ensures UsedCount(t) == UsedCount(u)
  {
    if t != [] {
      var n := |t| - 1;
      assert forall p :: 0 <= p < |t| ==> SameSlot(t[p], u[p]);
      SameCount(t[..n], u[..n]);
    }
  }

  lemma {:induction false} SameRawPlace<V, W>(t: seq<Slot<V>>, u: seq<Slot<W>>, key: JString, v: V, w: W)
    requires SameKeys(t, u) && |t| > 0
    ensures SameKeys(RawPlace(t, key, v).0, RawPlace(u, key, w).0) && RawPlace(t, key, v).1 == RawPlace(u, key, w).1
  {
    SameLive(t, u);
    SameProbe(Live(t), Live(u), key, 0);
    var i := Probe(Live(t), key, 0);
    if i < DELTA { assert SameSlot(t[At(key, i, |t|)], u[At(key, i, |t|)]); }
  }

  lemma {:induction false} SameRawSetHash<V, W>(t: seq<Slot<V>>, u: seq<Slot<W>>, used: nat, key: JString, v: V, w: W)
    requires SameKeys(t, u) && |t| > 0
    ensures SameRaw(RawSetHash(t, used, key, v).0, RawSetHash(u, used, key, w).0)
    ensures RawSetHash(t, used, key, v).1 == RawSetHash(u, used, key, w).1
    decreases if |t| > MAX_SLOTS then 0 else MAX_SLOTS + 1 - |t|
  {
    SameRawPlace(t, u, key, v, w);
    if RawPlace(t, key, v).1 == Failed && 4 * |t| <= MAX_SLOTS {
      SameLive(t, u);
      SameGrow(Live(t), Live(u));
      SameCount(Grow(Live(t)), Grow(Live(u)));
      SameRawSetHash(Grow(Live(t)), Grow(Live(u)), UsedCount(Grow(Live(t))), key, v, w);
    }
  }

  lemma {:induction false} SameRawSetDict<V, W>(r: Raw<V>, s: Raw<W>, key: JString, v: V, w: W, i: nat)
    requires SameRaw(r, s) && r.RawDict? && Shape(r) && i <= DICTMAP_THRESHOLD
    ensures Shape(s) && SameRaw(RawSetDict(r, key, v, i).0, RawSetDict(s, key, w, i).0)
    ensures RawSetDict(r, key, v, i).1 == RawSetDict(s, key, w, i).1
    decreases DICTMAP_THRESHOLD - i
  {
    if i == DICTMAP_THRESHOLD {
      SameLive(r.slots, s.slots);
      SameConvert(Live(r.slots), Live(s.slots));
      SameCount(Convert(Live(r.slots)), Convert(Live(s.slots)));
      SameRawSetHash(Convert(Live(r.slots)), Convert(Live(s.slots)), UsedCount(Convert(Live(r.slots))), key, v, w);
    } else {
      assert SameSlot(r.slots[i], s.slots[i]);
      SameRawSetDict(r, s, key, v, w, i + 1);
    }
  }

  lemma {:induction false} SameRawSet<V, W>(r: Raw<V>, s: Raw<W>, key: JString, v: V, w: W)
    requires SameRaw(r, s) && Shape(r)
    ensures Shape(s) && SameRaw(RawSet(r, key, v).0, RawSet(s, key, w).0)
    ensures RawSet(r, key, v).1 == RawSet(s, key, w).1
  {
    if r.RawHash? {
      SameRawSetHash(r.slots, s.slots, r.used, key, v, w);
    } else {
      SameRawSetDict(r, s, key, v, w, 0);
    }
  }

  lemma {:induction false} SameLift<V, W>(m: MapState<V>, n: MapState<W>)
    requires SameMap(m, n)
    ensures SameRaw(Lift(m), Lift(n))
  {
    SameCount(m.slots, n.slots);
    assert forall p :: 0 <= p < |m.slots| ==> SameSlot(m.slots[p], n.slots[p]);
  }

  // ---------------------------------------------------------------- runs

  /** Two runs of sets of the same keys. */
  ghost predicate SameSets<V, W>(a: seq<Op<V>>, b: seq<Op<W>>) {
    |a| == |b| && forall i :: 0 <= i < |a| ==> a[i].Set? && b[i].Set? && a[i].key == b[i].key
  }

  lemma {:induction false} SameRunReady<V, W>(m: MapState<V>, n: MapState<W>, a: seq<Op<V>>, b: seq<Op<W>>)
    requires SameMap(m, n) && SameSets(a, b) && RunReady(m, a)
    ensures RunReady(n, b)
    decreases |a|
  {
    if a != [] {
      var key := a[0].key;
      SameReady(m, n, key, a[0].val, b[0].val);
      SameSet(m, n, key, a[0].val, b[0].val);
      SameRunReady(Step(m, a[0]), Step(n, b[0]), a[1..], b[1..]);
    }
  }

  /** The sets of these keys, the last one first, in a map made for as many keys. */
  function KeySets(keys: seq<JString>): (r: seq<Op<bool>>)
    ensures |r| == |keys| && forall i :: 0 <= i < |r| ==> r[i] == Set(keys[|keys| - 1 - i], true)
  {
    seq(|keys|, i requires 0 <= i < |keys| => Set(keys[|keys| - 1 - i], true))
  }

  /** Whether a map made for these keys keeps them all when they are set, the last one first. */
  ghost predicate KeysReady(keys: seq<JString>) {
    RunReady(InitMap<bool>(|keys|), KeySets(keys))
  }

  lemma {:induction false} KeysReadyRuns<V>(keys: seq<JString>, ops: seq<Op<V>>)
    requires KeysReady(keys) && SameSets(KeySets(keys), ops)
    ensures RunReady(InitMap<V>(|keys|), ops)
  {
    SameRunReady(InitMap<bool>(|keys|), InitMap<V>(|keys|), KeySets(keys), ops);
  }
}
