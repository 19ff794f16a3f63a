/**
 What removing a stored key does to a map in its dictionary form: the record loses its key but its hash
 stays in hash_list, so that the three words no longer tell which records are in use.
 */
module DictRemoval {
  import opened Table
  import opened Growth
  import opened ObjectMap
  import opened RawMap

  /** A dictionary with a record in slot p. */
  ghost predicate Holds<V>(m: MapState<V>, p: nat) {
    WfMap(m) && Clean(m) && !m.hashed && p < DICTMAP_THRESHOLD && m.slots[p].Used?
  }

  /** The dictionary after the removal of the key in slot p. */
  function Removed<V>(m: MapState<V>, p: nat): (r: Raw<V>)
    requires !m.hashed && p < |m.slots| == DICTMAP_THRESHOLD && UsedCount(m.slots) > 0
    ensures Shape(r) && r.RawDict?
  {
    RawRemove(Lift(m), p)
  }

  lemma {:induction false} HasRecords<V>(m: MapState<V>, p: nat)
    requires Holds(m, p)
    ensures p < UsedCount(m.slots) <= DICTMAP_THRESHOLD && NonZero(m.slots)
  {
    FreeLastCount(m.slots);
    CleanIsLive(m.slots);
  }

  // ---------------------------------------------------------------- lookups

  lemma {:induction false} ScanAfterRemove<V>(m: MapState<V>, p: nat, key: JString, i: nat)
    requires Holds(m, p) && UsedCount(m.slots) > 0 && NonZero(m.slots) && key.hash != 0 && i <= DICTMAP_THRESHOLD
    ensures RawScan(Removed(m, p), key, i) ==
      var q := DictFind(m.slots, key, i);
      if key.hash == m.slots[p].key.hash && i <= p <= q then BadPointer
      else if q == DICTMAP_THRESHOLD then Missing else Found(q)
    decreases DICTMAP_THRESHOLD - i
  {
    if i < DICTMAP_THRESHOLD { ScanAfterRemove(m, p, key, i + 1); }
  }

  /**
   After the removal a lookup follows a null pointer exactly when the key has the hash of the removed one
   and is not stored before it; every other lookup is answered as before.
   */
  lemma {:induction false} LookupAfterRemove<V>(m: MapState<V>, p: nat, key: JString)
    requires Holds(m, p) && key.hash != 0
    ensures UsedCount(m.slots) > 0
    ensures var q, a := DictFind(m.slots, key, 0), RawFind(Removed(m, p), key);
      && (a == BadPointer <==> key.hash == m.slots[p].key.hash && p <= q)
      && (a != BadPointer ==> a == RawFind(Lift(m), key))
  {
    HasRecords(m, p);
    ScanAfterRemove(m, p, key, 0);
    ScanLifts(m, key, 0);
  }

  /** In particular the lookup of the removed key does. */
  lemma {:induction false} RemovedIsNotMissing<V>(m: MapState<V>, p: nat)
    requires Holds(m, p)
    ensures UsedCount(m.slots) > 0 && RawFind(Removed(m, p), m.slots[p].key) == BadPointer
  {
    var key := m.slots[p].key;
    assert key in Keys(m.slots);
    LookupAfterRemove(m, p, key);
    assert DictFind(m.slots, key, 0) == p;
  }

  // ---------------------------------------------------------------- iteration

  /** The records from slot 0 up to used_size are those that are left exactly when the last one was removed. */
  lemma {:induction false} IterateAfterRemove<V>(m: MapState<V>, p: nat)
    requires Holds(m, p)
    ensures UsedCount(m.slots) > 0
    ensures Iterable(Removed(m, p)) <==> p == UsedCount(m.slots) - 1
  {
    FreeLastCount(m.slots);
    var r := Removed(m, p);
    assert r.slots[p].Free?;
    if p < UsedCount(m.slots) - 1 {
      assert p < r.used;
    }
  }

  // ---------------------------------------------------------------- sets

  lemma {:induction false} SetScans<V>(m: MapState<V>, p: nat, key: JString, val: V, i: nat)
    requires Holds(m, p) && UsedCount(m.slots) > 0 && NonZero(m.slots) && key.hash != 0
    requires i <= DictSlot(m.slots, key, 0) && !(key.hash == m.slots[p].key.hash && p < i)
    ensures var q, r := DictSlot(m.slots, key, 0), Removed(m, p);
      RawSetDict(r, key, val, i) ==
        if key.hash == m.slots[p].key.hash && p <= q then (r, Crashed) else RawSetDict(r, key, val, q)
    decreases DICTMAP_THRESHOLD - i
  {
    var q := DictSlot(m.slots, key, 0);
    if i < q && !(key.hash == m.slots[p].key.hash && p == i) {
      SetScans(m, p, key, val, i + 1);
    }
  }

  lemma {:induction false} SetCommutes<V>(m: MapState<V>, p: nat, key: JString, val: V)
    requires Holds(m, p) && UsedCount(m.slots) > 0 && NonZero(m.slots) && key.hash != 0
    requires DictSlot(m.slots, key, 0) < DICTMAP_THRESHOLD && DictSlot(m.slots, key, 0) != p
    ensures var (u, st) := SetMap(m, key, val);
      && !u.hashed && UsedCount(u.slots) > 0
      && RawSetDict(Removed(m, p), key, val, DictSlot(m.slots, key, 0)) == (Removed(u, p), st)
  {
    var q := DictSlot(m.slots, key, 0);
    var u := SetMap(m, key, val).0;
    UsedCountWrite(m.slots, q, Used(key, val));
    assert u.slots[p := Free] == m.slots[p := Free][q := Used(key, val)];
    assert WordsOf(u.slots) == WordsOf(m.slots)[q := key.hash];
    assert m.slots[q].Used? ==> WordsOf(u.slots) == WordsOf(m.slots);
  }

  /** A set that finds no word for its key turns the dictionary into a table without the removed record. */
  lemma {:induction false} SetConverts<V>(m: MapState<V>, p: nat, key: JString, val: V)
    requires Holds(m, p) && NonZero(m.slots) && key.hash != 0 && DictSlot(m.slots, key, 0) == DICTMAP_THRESHOLD
    ensures UsedCount(m.slots) > 0
    ensures var (u, st) := RawSetDict(Removed(m, p), key, val, DICTMAP_THRESHOLD);
      && u.RawHash? && Wf(u.slots) && u.used == UsedCount(u.slots) && st == Added
      && View(u.slots) == (View(m.slots) - {m.slots[p].key})[key := val]
  {
    HasRecords(m, p);
    var slots := m.slots[p := Free];
    EraseKeys(m.slots, p);
    EraseView(m.slots, p);
    CleanIsLive(slots);
    ConvertKeeps(slots);
    var t := Convert(slots);
    assert Keys(t) == View(t).Keys == View(slots).Keys == Keys(slots);
    assert key !in Keys(m.slots);
    SetHashLifts(t, key, val);
    FewFitAtOnce(t, key, val);
    FewLeaveRoom(t, key);
    SetStores(t, key, val);
  }

  /**
   After the removal a set follows a null pointer exactly when its key has the hash of the removed one and is
   not stored before it. Any other set finds the record its key has or the first free one, as if the removed
   record were still there, unless there is none: then it makes a table, and all is well again.
   */
  lemma {:induction false} SetAfterRemove<V>(m: MapState<V>, p: nat, key: JString, val: V)
    requires Holds(m, p) && key.hash != 0
    ensures UsedCount(m.slots) > 0
    ensures var q := DictSlot(m.slots, key, 0); var (u, st) := RawSet(Removed(m, p), key, val);
      && (st == Crashed <==> key.hash == m.slots[p].key.hash && p <= q)
      && (st != Crashed && q < DICTMAP_THRESHOLD ==>
            var (n, s) := SetMap(m, key, val); !n.hashed && UsedCount(n.slots) > 0 && (u, st) == (Removed(n, p), s))
      && (st != Crashed && q == DICTMAP_THRESHOLD ==>
            u.RawHash? && Wf(u.slots) && u.used == UsedCount(u.slots) && st == Added
            && View(u.slots) == (View(m.slots) - {m.slots[p].key})[key := val])
  {
    HasRecords(m, p);
    SetScans(m, p, key, val, 0);
    var q := DictSlot(m.slots, key, 0);
    if !(key.hash == m.slots[p].key.hash && p <= q) {
      if q < DICTMAP_THRESHOLD {
        assert p != q;
        SetCommutes(m, p, key, val);
      } else {
        SetConverts(m, p, key, val);
      }
    }
  }
}
