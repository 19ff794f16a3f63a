/** Exactly when the retry loop of hashmap_set ends, told from the stored hashes alone. */
module Ending {
  import opened Table
  import opened Rehash
  import opened Load
  import opened Growth
  import opened ObjectMap

  /** The keys whose home, in n slots, is among the a + 1 slots that end at q. */
  ghost function Near(keys: set<JString>, q: nat, a: nat, n: nat): set<JString>
    requires q < n
  {
    set k | k in keys && Dist(k, q, n) <= a
  }

  /** No stretch of slots ending at q is overcrowded by these keys. */
  ghost predicate RoomyFor(keys: set<JString>, q: nat, n: nat)
    requires q < n
  {
    forall a: nat :: a < n ==> |Near(keys, q, a, n)| <= a
  }

  /** In n slots that hold these keys, some slot of the key's window is left. */
  ghost predicate RoomIn(keys: set<JString>, key: JString, n: nat)
    requires n > 0
  {
    exists d: nat :: d < DELTA && RoomyFor(keys, At(key, d, n), n)
  }

  lemma {:induction false} MovedItself<V>(t: seq<Slot<V>>)
    requires Wf(t) && Dense(t)
    ensures Moved(t, |t|, t)
  {
    assert t[..|t|] == t;
  }

  lemma {:induction false} RoomyIsFree<V>(t: seq<Slot<V>>, q: nat)
    requires Wf(t) && Dense(t) && q < |t|
    ensures RoomyFor(Keys(t), q, |t|) <==> t[q].Free?
  {
    MovedItself(t);
    forall a: nat | a < |t|
      ensures Near(Keys(t), q, a, |t|) == Crowd(t, |t|, q, a, |t|)
    {
      CrowdIsHere(t, |t|, t, q, a);
    }
    if t[q].Free? { FreeIsRoomy(t, |t|, t, q); } else { UsedIsCrowded(t, |t|, t, q); }
  }

  /**
   In a table without holes in its chains, a new key finds room exactly when its window is not overcrowded
   throughout.
   */
  lemma {:induction false} ProbeEndsIff<V>(t: seq<Slot<V>>, key: JString)
    requires Wf(t) && Dense(t) && key !in Keys(t)
    ensures Probe(t, key, 0) < DELTA <==> RoomIn(Keys(t), key, |t|)
  {
    assert forall q :: 0 <= q < |t| && t[q].Used? ==> t[q].key in Keys(t);
    forall d: nat | d < DELTA
      ensures t[At(key, d, |t|)].Free? <==> RoomyFor(Keys(t), At(key, d, |t|), |t|)
    {
      RoomyIsFree(t, At(key, d, |t|));
    }
  }

  /** At one of the sizes the loop goes through after its first resize, the key has room among these keys. */
  ghost predicate RoomLater(keys: set<JString>, key: JString, m: nat) {
    exists n: nat :: m > 0 && Reaches(4 * m, n) && n <= MAX_SLOTS && RoomIn(keys, key, n)
  }

  lemma {:induction false} RoomLaterStep(keys: set<JString>, key: JString, m: nat)
    requires m > 0
    ensures RoomLater(keys, key, m) <==>
      4 * m <= MAX_SLOTS && (RoomIn(keys, key, 4 * m) || RoomLater(keys, key, 4 * m))
  {
    if RoomLater(keys, key, m) {
      var n: nat :| Reaches(4 * m, n) && n <= MAX_SLOTS && RoomIn(keys, key, n);
      ReachesUp(4 * m, n);
      assert n == 4 * m || Reaches(4 * (4 * m), n);
    }
    if 4 * m <= MAX_SLOTS && RoomIn(keys, key, 4 * m) {
      assert Reaches(4 * m, 4 * m);
    }
    if RoomLater(keys, key, 4 * m) {
      var n: nat :| Reaches(4 * (4 * m), n) && n <= MAX_SLOTS && RoomIn(keys, key, n);
      ReachesUp(4 * (4 * m), n);
      assert Reaches(4 * m, n);
    }
  }

  lemma {:induction false} ReachesUp(m: nat, n: nat)
    requires Reaches(m, n)
    ensures m <= n
  {}

  /**
   If the resizes on the way lose no record, the loop ends if and only if the key's window has room in
   the table as it is or, judged by the hashes of the stored keys, at some later size.
   */
  lemma {:induction false} SetEndsIff<V>(t: seq<Slot<V>>, key: JString, val: V)
    requires Wf(t) && KeepsUntilFit(t, key)
    ensures SetHash(t, key, val).1 != Exhausted <==>
      Probe(t, key, 0) < DELTA || RoomLater(Keys(t), key, |t|)
    decreases if |t| > MAX_SLOTS then 0 else MAX_SLOTS + 1 - |t|
  {
    RetryStep(t, key, val);
    RoomLaterStep(Keys(t), key, |t|);
    if Probe(t, key, 0) == DELTA && 4 * |t| <= MAX_SLOTS {
      var u := Grow(t);
      FailedIsNew(t, key);
      GrowKeepsIff(t);
      ProbeEndsIff(u, key);
      SetEndsIff(u, key, val);
    }
  }

  /** For a table without holes in its chains the hashes alone tell, and a stored key always fits. */
  lemma {:induction false} SetEndsByHashesIff<V>(t: seq<Slot<V>>, key: JString, val: V)
    requires Wf(t) && Dense(t) && KeepsUntilFit(t, key)
    ensures SetHash(t, key, val).1 != Exhausted <==>
      key in Keys(t) || RoomIn(Keys(t), key, |t|) || RoomLater(Keys(t), key, |t|)
  {
    SetEndsIff(t, key, val);
    if key in Keys(t) {
      var p :| 0 <= p < |t| && t[p].Used? && t[p].key == key;
      ProbeFindsStored(t, key, p);
    } else {
      ProbeEndsIff(t, key);
    }
  }

  // ---------------------------------------------------------------- lossy resizes

  lemma {:induction false} ReinsertDense<V>(src: seq<Slot<V>>, i: nat, t: seq<Slot<V>>)
    requires i <= |src| && Wf(t) && Dense(t)
    ensures Wf(Reinsert(src, i, t)) && Dense(Reinsert(src, i, t))
    decreases |src| - i
  {
    if i < |src| {
      if src[i].Used? && Probe(t, src[i].key, 0) < DELTA {
        PlaceStores(t, src[i].key, src[i].val);
      }
      ReinsertDense(src, i + 1, Advance(src, i, t));
    }
  }

  /** Even a resize that drops records leaves a sound table without holes in its chains, and no new key. */
  lemma {:induction false} GrowDense<V>(t: seq<Slot<V>>)
    requires |t| > 0
    ensures Wf(Grow(t)) && Dense(Grow(t)) && Keys(Grow(t)) <= Keys(t)
  {
    ReinsertDense(t, 0, Fresh<V>(4 * |t|));
    ReinsertKeys(t, 0, Fresh<V>(4 * |t|));
  }

  /** Whatever is lost on the way, a set leaves a sound table. */
  lemma {:induction false} SetHashSound<V>(t: seq<Slot<V>>, key: JString, val: V)
    requires Wf(t) && Dense(t)
    ensures Wf(SetHash(t, key, val).0) && Dense(SetHash(t, key, val).0)
    decreases if |t| > MAX_SLOTS then 0 else MAX_SLOTS + 1 - |t|
  {
    RetryStep(t, key, val);
    if Probe(t, key, 0) < DELTA {
      PlaceStores(t, key, val);
    } else if 4 * |t| <= MAX_SLOTS {
      GrowDense(t);
      SetHashSound(Grow(t), key, val);
    }
  }

  lemma {:induction false} SetMapSound<V>(m: MapState<V>, key: JString, val: V)
    requires WfMap(m) && (m.hashed ==> Dense(m.slots))
    ensures var u := SetMap(m, key, val).0; WfMap(u) && (u.hashed ==> Dense(u.slots))
  {
    if m.hashed {
      SetHashSound(m.slots, key, val);
      SetKeepsSize(m.slots, key, val);
    } else if DictSlot(m.slots, key, 0) < |m.slots| {
      SetMapStores(m, key, val);
    } else {
      ConvertKeeps(m.slots);
      SetHashSound(Convert(m.slots), key, val);
      SetKeepsSize(Convert(m.slots), key, val);
    }
  }

  lemma {:induction false} FewerKeysLeaveRoom(fewer: set<JString>, keys: set<JString>, key: JString, n: nat)
    requires fewer <= keys && n > 0 && RoomIn(keys, key, n)
    ensures RoomIn(fewer, key, n)
  {
    var d: nat :| d < DELTA && RoomyFor(keys, At(key, d, n), n);
    var q := At(key, d, n);
    forall a: nat | a < n
      ensures |Near(fewer, q, a, n)| <= a
    {
      SubsetSize(Near(fewer, q, a, n), Near(keys, q, a, n));
    }
  }

  lemma {:induction false} FewerKeysLeaveRoomLater(fewer: set<JString>, keys: set<JString>, key: JString, m: nat)
    requires fewer <= keys && RoomLater(keys, key, m)
    ensures RoomLater(fewer, key, m)
  {
    var n: nat :| Reaches(4 * m, n) && n <= MAX_SLOTS && RoomIn(keys, key, n);
    ReachesUp(4 * m, n);
    FewerKeysLeaveRoom(fewer, keys, key, n);
  }

  /** Room for all the keys at some size is enough whatever the resizes on the way lose. */
  lemma {:induction false} RoomEnds<V>(t: seq<Slot<V>>, key: JString, val: V)
    requires |t| > 0 && RoomLater(Keys(t), key, |t|)
    ensures SetHash(t, key, val).1 != Exhausted
    decreases if |t| > MAX_SLOTS then 0 else MAX_SLOTS + 1 - |t|
  {
    RetryStep(t, key, val);
    RoomLaterStep(Keys(t), key, |t|);
    if Probe(t, key, 0) == DELTA {
      var u := Grow(t);
      GrowDense(t);
      RetryStep(u, key, val);
      if RoomIn(Keys(t), key, |u|) {
        FewerKeysLeaveRoom(Keys(u), Keys(t), key, |u|);
        if key in Keys(u) {
          var p :| 0 <= p < |u| && u[p].Used? && u[p].key == key;
          ProbeFindsStored(u, key, p);
        } else {
          ProbeEndsIff(u, key);
        }
      } else {
        FewerKeysLeaveRoomLater(Keys(u), Keys(t), key, |u|);
        RoomEnds(u, key, val);
      }
    }
  }

  // ---------------------------------------------------------------- keys of one hash

  ghost function SameHash(keys: set<JString>, hash: nat): set<JString> {
    set k | k in keys && k.hash == hash
  }

  /** Sixteen keys of one hash overcrowd that hash's window at every size. */
  lemma {:induction false} EqualHashesCrowd(keys: set<JString>, key: JString, n: nat)
    requires |SameHash(keys, key.hash)| >= DELTA && n >= DELTA
    ensures !RoomIn(keys, key, n)
  {
    forall d: nat | d < DELTA
      ensures !RoomyFor(keys, At(key, d, n), n)
    {
      DistAt(key, d, n);
      forall k | k in SameHash(keys, key.hash)
        ensures k in Near(keys, At(key, d, n), d, n)
      {
        assert Dist(k, At(key, d, n), n) == Dist(key, At(key, d, n), n);
      }
      SubsetSize(SameHash(keys, key.hash), Near(keys, At(key, d, n), d, n));
    }
  }

  lemma {:induction false} KeysFit<V>(t: seq<Slot<V>>)
    requires Unique(t)
    ensures |Keys(t)| <= |t|
  {
    UsedCountIsKeys(t);
    UsedCountBound(t);
  }

  /** The keys in the first m slots of a window: at most one per slot in use. */
  lemma {:induction false} WindowHolds<V>(t: seq<Slot<V>>, key: JString, m: nat) returns (held: set<JString>)
    requires |t| > 0
    ensures forall j: nat :: j < m && t[At(key, j, |t|)].Used? ==> t[At(key, j, |t|)].key in held
    ensures |held| <= m
    ensures (exists j: nat :: j < m && t[At(key, j, |t|)].Free?) ==> |held| < m
  {
    held := {};
    if m > 0 {
      var before := WindowHolds(t, key, m - 1);
      var s := t[At(key, m - 1, |t|)];
      held := if s.Used? then before + {s.key} else before;
    }
  }

  /** Sixteen stored keys of one hash fill their window. */
  lemma {:induction false} EqualHashesFill<V>(t: seq<Slot<V>>, key: JString)
    requires Wf(t) && |SameHash(Keys(t), key.hash)| >= DELTA && key !in Keys(t)
    ensures Probe(t, key, 0) == DELTA
  {
    var same := SameHash(Keys(t), key.hash);
    var held := WindowHolds(t, key, DELTA);
    forall k | k in same
      ensures k in held
    {
      var p :| 0 <= p < |t| && t[p].Used? && t[p].key == k;
      var d := Dist(key, p, |t|);
      assert At(key, d, |t|) == p;
      assert Dist(k, p, |t|) == d;
    }
    SubsetSize(same, held);
    assert forall p :: 0 <= p < |t| && t[p].Used? ==> t[p].key in Keys(t);
  }

  /**
   Once sixteen keys of a hash are stored, whatever other keys there are, a new one is never placed unless a
   resize drops a record.
   */
  lemma {:induction false} EqualHashesExhaust<V>(t: seq<Slot<V>>, key: JString, val: V)
    requires Wf(t) && KeepsUntilFit(t, key) && key !in Keys(t)
    requires |SameHash(Keys(t), key.hash)| >= DELTA
    ensures SetHash(t, key, val).1 == Exhausted
  {
    EqualHashesFill(t, key);
    KeysFit(t);
    SubsetSize(SameHash(Keys(t), key.hash), Keys(t));
    SetEndsIff(t, key, val);
    if RoomLater(Keys(t), key, |t|) {
      var n: nat :| Reaches(4 * |t|, n) && n <= MAX_SLOTS && RoomIn(Keys(t), key, n);
      ReachesUp(4 * |t|, n);
      EqualHashesCrowd(Keys(t), key, n);
      assert false;
    }
  }
}
