/** What growing keeps, when it loses a record, and when the retry loop of hashmap_set stops. */
module Growth {
  import opened Table
  import opened Rehash
  import opened Load

  /** The condition under which growing is lossless: no record has wrapped, or there are few of them. */
  ghost predicate SafeToGrow<V>(t: seq<Slot<V>>) {
    NoWrap(t) || |Keys(t)| <= DELTA
  }

  lemma {:induction false} GrowMoves<V>(t: seq<Slot<V>>)
    requires Wf(t) && |t| >= 4 && SafeToGrow(t)
    ensures Moved(t, |t|, Grow(t))
    ensures NoWrap(t) ==> NoWrap(Grow(t))
  {
    var empty := Fresh<V>(4 * |t|);
    FreshMoved(t, 4 * |t|);
    if NoWrap(t) {
      ReinsertUnwrapped(t, 0, empty);
    } else {
      ReinsertFew(t, 0, empty);
    }
  }

  /** A safe rehash loses no record, changes no value, restores every probe chain and stays safe. */
  lemma {:induction false} GrowKeeps<V>(t: seq<Slot<V>>)
    requires Wf(t) && |t| >= 4 && SafeToGrow(t)
    ensures View(Grow(t)) == View(t) && Keys(Grow(t)) == Keys(t)
    ensures Wf(Grow(t)) && Dense(Grow(t)) && SafeToGrow(Grow(t))
  {
    GrowMoves(t);
    MovedAll(t, Grow(t));
  }

  /** No record of a safe rehash ends up further from its home than it was, if none had wrapped. */
  lemma {:induction false} GrowNeverFurther<V>(t: seq<Slot<V>>, q: nat)
    requires Wf(t) && NoWrap(t) && Stored(Grow(t), q)
    ensures exists p: nat :: (
      Stored(t, p) && t[p] == Grow(t)[q] && Dist(t[p].key, q, 4 * |t|) <= Dist(t[p].key, p, |t|))
  {
    FreshMoved(t, 4 * |t|);
    ReinsertUnwrapped(t, 0, Fresh<V>(4 * |t|));
    var u := Grow(t);
    var p: nat :| p < |t| && t[p] == u[q] && Home(u[q].key, |u|) <= q <= Limit(t, p);
    assert Stored(t, p);
  }

  /** Every resize the retry loop makes before the key fits has room for every record. */
  ghost predicate KeepsUntilFit<V>(t: seq<Slot<V>>, key: JString)
    requires |t| > 0
    decreases if |t| > MAX_SLOTS then 0 else MAX_SLOTS + 1 - |t|
  {
    || Probe(t, key, 0) < DELTA
    || 4 * |t| > MAX_SLOTS
    || (KeepsAll(t, 4 * |t|) && KeepsUntilFit(Grow(t), key))
  }

  /** The two conditions that are easy to check rule out a loss however often the table grows. */
  lemma {:induction false} SafeKeepsUntilFit<V>(t: seq<Slot<V>>, key: JString)
    requires Wf(t) && |t| >= 4 && SafeToGrow(t)
    ensures KeepsUntilFit(t, key)
    decreases if |t| > MAX_SLOTS then 0 else MAX_SLOTS + 1 - |t|
  {
    if Probe(t, key, 0) == DELTA && 4 * |t| <= MAX_SLOTS {
      GrowKeeps(t);
      GrowKeepsIff(t);
      SafeKeepsUntilFit(Grow(t), key);
    }
  }

  /** hashmap_set stores exactly the new pair, whatever number of resizes it takes. */
  lemma {:induction false} SetStores<V>(t: seq<Slot<V>>, key: JString, val: V)
    requires Wf(t) && NoHoleBefore(t, key) && KeepsUntilFit(t, key)
    ensures var (u, s) := SetHash(t, key, val); s != Exhausted ==>
      && Wf(u) && View(u) == View(t)[key := val]
      && s == (if key in View(t) then Update else Added)
      && (Dense(t) ==> Dense(u))
    decreases if |t| > MAX_SLOTS then 0 else MAX_SLOTS + 1 - |t|
  {
    if Probe(t, key, 0) < DELTA {
      PlaceStores(t, key, val);
    } else if 4 * |t| <= MAX_SLOTS {
      GrowKeepsIff(t);
      SetStores(Grow(t), key, val);
    }
  }

  lemma {:induction false} SetHashKeys<V>(t: seq<Slot<V>>, key: JString, val: V)
    requires |t| > 0
    ensures Keys(SetHash(t, key, val).0) <= Keys(t) + {key}
    decreases if |t| > MAX_SLOTS then 0 else MAX_SLOTS + 1 - |t|
  {
    if Probe(t, key, 0) == DELTA && 4 * |t| <= MAX_SLOTS {
      ReinsertKeys(t, 0, Fresh<V>(4 * |t|));
      SetHashKeys(Grow(t), key, val);
    }
  }

  lemma {:induction false} SetLoses<V>(t: seq<Slot<V>>, key: JString, val: V)
    requires Wf(t) && NoHoleBefore(t, key) && !KeepsUntilFit(t, key)
    ensures !(Keys(t) <= Keys(SetHash(t, key, val).0))
    decreases if |t| > MAX_SLOTS then 0 else MAX_SLOTS + 1 - |t|
  {
    GrowKeepsIff(t);
    if KeepsAll(t, 4 * |t|) {
      SetLoses(Grow(t), key, val);
    } else {
      SetHashKeys(Grow(t), key, val);
      FailedIsNew(t, key);
    }
  }

  /** A window full of other keys means that the key is not stored at all. */
  lemma {:induction false} FailedIsNew<V>(t: seq<Slot<V>>, key: JString)
    requires Wf(t) && Probe(t, key, 0) == DELTA
    ensures key !in Keys(t) && NoHoleBefore(t, key)
  {
    forall p | 0 <= p < |t| && t[p].Used?
      ensures t[p].key != key
    {
      assert At(t[p].key, Dist(t[p].key, p, |t|), |t|) == p;
    }
  }

  lemma {:induction false} LossShows<V>(t: seq<Slot<V>>, u: seq<Slot<V>>, key: JString, val: V)
    requires Unique(t) && !(Keys(t) <= Keys(u))
    ensures View(u) != View(t)[key := val]
  {
    assert View(u).Keys == Keys(u) && View(t)[key := val].Keys == Keys(t) + {key};
  }

  /**
   A set that ends agrees with the finite map, and keeps keys unique, exactly when no hole that a
   removal left lies before the stored key and every resize on the way has room for every record.
   */
  lemma {:induction false} SetAgreesIff<V>(t: seq<Slot<V>>, key: JString, val: V)
    requires Wf(t) && SetHash(t, key, val).1 != Exhausted
    ensures var u := SetHash(t, key, val).0;
      (Unique(u) && View(u) == View(t)[key := val]) <==> NoHoleBefore(t, key) && KeepsUntilFit(t, key)
  {
    var u := SetHash(t, key, val).0;
    RetryStep(t, key, val);
    if Probe(t, key, 0) < DELTA {
      PlaceAgreesIff(t, key, val);
    } else {
      FailedIsNew(t, key);
      if KeepsUntilFit(t, key) {
        SetStores(t, key, val);
      } else {
        SetLoses(t, key, val);
        LossShows(t, u, key, val);
      }
    }
  }

  // ---------------------------------------------------------------- when the retry loop stops

  lemma {:induction false} FewLeaveRoom<V>(t: seq<Slot<V>>, key: JString)
    requires Unique(t) && |t| >= DELTA && |Keys(t)| < DELTA
    ensures Probe(t, key, 0) < DELTA
  {
    if Probe(t, key, 0) == DELTA {
      FullWindowCount(t, key);
      SubsetSize(Keys(t) - {key}, Keys(t));
    }
  }

  lemma {:induction false} FewFitGrown<V>(t: seq<Slot<V>>, key: JString)
    requires Wf(t) && |t| >= 4 && |Keys(t)| < DELTA
    ensures Probe(Grow(t), key, 0) < DELTA
    ensures Probe(t, key, 0) == DELTA ==> |t| < DELTA
  {
    GrowKeeps(t);
    FewLeaveRoom(Grow(t), key);
    if |t| >= DELTA { FewLeaveRoom(t, key); }
  }

  lemma {:induction false} SetFits<V>(t: seq<Slot<V>>, key: JString, val: V)
    requires |t| > 0 && Probe(t, key, 0) < DELTA
    ensures SetHash(t, key, val).1 != Exhausted && |SetHash(t, key, val).0| == |t|
  {
    RetryStep(t, key, val);
  }

  lemma {:induction false} SetResizes<V>(t: seq<Slot<V>>, key: JString, val: V)
    requires |t| > 0 && 4 * |t| <= MAX_SLOTS && Probe(t, key, 0) == DELTA
    ensures SetHash(t, key, val) == SetHash(Grow(t), key, val)
  {
    RetryStep(t, key, val);
  }

  /** With fewer than DELTA records one resize is always enough. */
  lemma {:induction false} FewFitAtOnce<V>(t: seq<Slot<V>>, key: JString, val: V)
    requires Wf(t) && |t| >= 4 && |Keys(t)| < DELTA
    ensures SetHash(t, key, val).1 != Exhausted
    ensures |SetHash(t, key, val).0| <= 4 * |t|
  {
    FewFitGrown(t, key);
    SetFits(Grow(t), key, val);
    if Probe(t, key, 0) < DELTA {
      SetFits(t, key, val);
    } else {
      SetResizes(t, key, val);
    }
  }

  /** n is a size reached from m by quadrupling. */
  ghost predicate Reaches(m: nat, n: nat)
    decreases if m <= n then n - m else 0
  {
    m == n || (0 < m && 4 * m <= n && Reaches(4 * m, n))
  }

  /** The low bits that select a home in n slots differ for every two of these keys. */
  ghost predicate Spread(keys: set<JString>, n: nat)
    requires n > 0
  {
    forall a, b :: a in keys && b in keys && Home(a, n) == Home(b, n) ==> a == b
  }

  ghost predicate AllHome<V>(t: seq<Slot<V>>) {
    forall p :: 0 <= p < |t| && t[p].Used? ==> Home(t[p].key, |t|) == p
  }

  lemma {:induction false} ProbeAtHome<V>(t: seq<Slot<V>>, key: JString)
    requires |t| > 0 && AllHome(t) && Spread(Keys(t) + {key}, |t|)
    ensures Probe(t, key, 0) == 0 && At(key, 0, |t|) == Home(key, |t|)
  {
    var home := Home(key, |t|);
    WrapTwice(home, |t|);
    if t[home].Used? {
      assert t[home].key in Keys(t);
    }
  }

  lemma {:induction false} ReinsertHome<V>(src: seq<Slot<V>>, i: nat, t: seq<Slot<V>>)
    requires |t| > 0 && i <= |src|
    requires AllHome(t) && Keys(t) <= Keys(src) && Spread(Keys(src), |t|)
    ensures AllHome(Reinsert(src, i, t))
    decreases |src| - i
  {
    if i < |src| {
      if src[i].Used? {
        assert src[i].key in Keys(src);
        ProbeAtHome(t, src[i].key);
      }
      ReinsertHome(src, i + 1, Advance(src, i, t));
    }
  }

  lemma {:induction false} AdvanceKeys<V>(src: seq<Slot<V>>, i: nat, t: seq<Slot<V>>)
    requires |t| > 0 && i < |src| && Keys(t) <= Keys(src)
    ensures Keys(Advance(src, i, t)) <= Keys(src)
  {
    var u := Advance(src, i, t);
    forall k | k in Keys(u)
      ensures k in Keys(src)
    {
      var q :| 0 <= q < |u| && u[q].Used? && u[q].key == k;
      assert if u[q] == t[q] then k in Keys(t) else k == src[i].key;
    }
  }

  /** Growing never invents a key. */
  lemma {:induction false} ReinsertKeys<V>(src: seq<Slot<V>>, i: nat, t: seq<Slot<V>>)
    requires |t| > 0 && i <= |src| && Keys(t) <= Keys(src)
    ensures Keys(Reinsert(src, i, t)) <= Keys(src)
    decreases |src| - i
  {
    if i < |src| {
      AdvanceKeys(src, i, t);
      ReinsertKeys(src, i + 1, Advance(src, i, t));
    }
  }

  lemma {:induction false} SpreadFits<V>(t: seq<Slot<V>>, key: JString)
    requires |t| > 0 && Spread(Keys(t) + {key}, 4 * |t|)
    ensures Probe(Grow(t), key, 0) < DELTA
  {
    ReinsertKeys(t, 0, Fresh<V>(4 * |t|));
    ReinsertHome(t, 0, Fresh<V>(4 * |t|));
    ProbeAtHome(Grow(t), key);
  }

  /**
   The retry loop stops no later than the first size, after at least one resize, at which the low
   bits of all stored hashes and of the new one differ: there every record sits at its home.
   */
  lemma {:induction false} SpreadStops<V>(t: seq<Slot<V>>, key: JString, val: V, n: nat)
    requires |t| > 0 && Reaches(4 * |t|, n) && n <= MAX_SLOTS
    requires Spread(Keys(t) + {key}, n)
    ensures SetHash(t, key, val).1 != Exhausted && |SetHash(t, key, val).0| <= n
    decreases n - |t|
  {
    if Probe(t, key, 0) == DELTA {
      RetryStep(t, key, val);
      RetryStep(Grow(t), key, val);
      if 4 * |t| == n {
        SpreadFits(t, key);
      } else {
        ReinsertKeys(t, 0, Fresh<V>(4 * |t|));
        SpreadStops(Grow(t), key, val, n);
      }
    }
  }
}
