/**
 Growing a table: every record is put again, in slot order, into a fresh table (kjson/kmap.c:72-98).
 A record whose window is full in the new table is dropped.
 */
module Rehash {
  import opened Table

  /** A table of more slots than this has a byte size that no longer fits C's 32-bit alloc_size (24 bytes a record). */
  const MAX_SLOTS := 0x800_0000

  function Fresh<V>(n: nat): (t: seq<Slot<V>>)
    ensures |t| == n && forall p :: 0 <= p < n ==> t[p].Free?
  {
    seq(n, _ => Free)
  }

  /** One turn of the loop of hashmap_record_resize: slot i is put again unless it is empty. */
  function Advance<V>(src: seq<Slot<V>>, i: nat, t: seq<Slot<V>>): (u: seq<Slot<V>>)
    requires i < |src| && |t| > 0
    ensures |u| == |t|
  {
    if src[i].Free? then t else Place(t, src[i].key, src[i].val).0
  }

  /** The loop of hashmap_record_resize from slot i on. */
  function Reinsert<V>(src: seq<Slot<V>>, i: nat, t: seq<Slot<V>>): (u: seq<Slot<V>>)
    requires i <= |src| && |t| > 0
    ensures |u| == |t|
    decreases |src| - i
  {
    if i == |src| then t else Reinsert(src, i + 1, Advance(src, i, t))
  }

  /** hashmap_record_resize(m, 2 * size): four times as many slots. */
  function Grow<V>(t: seq<Slot<V>>): (u: seq<Slot<V>>)
    requires |t| > 0
    ensures |u| == 4 * |t|
  {
    Reinsert(t, 0, Fresh(4 * |t|))
  }

  /** hashmap_set: grow until the record fits. */
  function SetHash<V>(t: seq<Slot<V>>, key: JString, val: V): (r: (seq<Slot<V>>, Status))
    requires |t| > 0
    ensures r.1 != Failed && r.1 != Crashed && |r.0| > 0
    decreases if |t| > MAX_SLOTS then 0 else MAX_SLOTS + 1 - |t|
  {
    var (u, s) := Place(t, key, val);
    if s != Failed then (u, s)
    else if 4 * |t| > MAX_SLOTS then (t, Exhausted)
    else SetHash(Grow(t), key, val)
  }

  /** One round of the retry loop. */
  lemma {:induction false} RetryStep<V>(t: seq<Slot<V>>, key: JString, val: V)
    requires |t| > 0
    ensures SetHash(t, key, val) ==
      if Place(t, key, val).1 != Failed then Place(t, key, val)
      else if 4 * |t| > MAX_SLOTS then (t, Exhausted)
      else SetHash(Grow(t), key, val)
  {}

  // ---------------------------------------------------------------- what reinsertion keeps

  /** t holds exactly the records of the first i slots of src. */
  ghost predicate Moved<V>(src: seq<Slot<V>>, i: nat, t: seq<Slot<V>>)
    requires i <= |src|
  {
    && |t| > 0 && Wf(t) && Dense(t)
    && (forall p :: 0 <= p < i && src[p].Used? ==> src[p] in t)
    && (forall q :: 0 <= q < |t| && t[q].Used? ==> t[q] in src[..i])
  }

  lemma {:induction false} FreshMoved<V>(src: seq<Slot<V>>, n: nat)
    requires n > 0
    ensures Moved(src, 0, Fresh<V>(n))
  {}

  lemma {:induction false} NotYetMoved<V>(src: seq<Slot<V>>, i: nat, t: seq<Slot<V>>)
    requires Unique(src) && Stored(src, i) && Moved(src, i, t)
    ensures src[i].key !in Keys(t)
  {
    forall q | 0 <= q < |t| && t[q].Used?
      ensures t[q].key != src[i].key
    {
      var p :| 0 <= p < i && src[..i][p] == t[q];
      assert src[p] == t[q];
    }
  }

  /** One reinsertion that finds room keeps the correspondence. */
  lemma {:induction false} MoveOne<V>(src: seq<Slot<V>>, i: nat, t: seq<Slot<V>>)
    requires Unique(src) && i < |src| && Moved(src, i, t)
    requires src[i].Used? ==> Probe(t, src[i].key, 0) < DELTA
    ensures Moved(src, i + 1, Advance(src, i, t))
  {
    if src[i].Free? {
      assert src[..i + 1] == src[..i] + [src[i]];
    } else {
      var key, val := src[i].key, src[i].val;
      NotYetMoved(src, i, t);
      PlaceStores(t, key, val);
      MoveInto(src, i, t, At(key, Probe(t, key, 0), |t|));
    }
  }

  lemma {:induction false} MoveInto<V>(src: seq<Slot<V>>, i: nat, t: seq<Slot<V>>, at: nat)
    requires Stored(src, i) && Moved(src, i, t) && at < |t|
    requires src[i].key !in Keys(t) && (t[at].Used? ==> t[at].key == src[i].key)
    ensures var u := t[at := src[i]];
      && (forall p :: 0 <= p < i + 1 && src[p].Used? ==> src[p] in u)
      && (forall q :: 0 <= q < |u| && u[q].Used? ==> u[q] in src[..i + 1])
  {
    var u := t[at := src[i]];
    assert u[at] == src[i];
    forall p | 0 <= p < i && src[p].Used?
      ensures src[p] in u
    {
      var q :| 0 <= q < |t| && t[q] == src[p];
      assert t[q].key in Keys(t);
      assert u[q] == src[p];
    }
    assert src[..i + 1] == src[..i] + [src[i]];
  }

  lemma {:induction false} MovedAll<V>(src: seq<Slot<V>>, t: seq<Slot<V>>)
    requires Unique(src) && Moved(src, |src|, t)
    ensures View(t) == View(src) && Keys(t) == Keys(src)
  {
    forall key | key in Keys(t)
      ensures key in Keys(src)
    {
      var q :| 0 <= q < |t| && t[q].Used? && t[q].key == key;
      var p :| 0 <= p < |src| && src[..|src|][p] == t[q];
      assert src[p].Used? && src[p].key == key;
    }
    SameView(src, t);
    assert View(t).Keys == View(src).Keys;
  }

  // ---------------------------------------------------------------- few records

  lemma {:induction false} WindowDistinct<V>(t: seq<Slot<V>>, key: JString, i: nat, j: nat)
    requires Unique(t) && i < j < |t|
    requires t[At(key, i, |t|)].Used? && t[At(key, j, |t|)].Used?
    ensures t[At(key, i, |t|)].key != t[At(key, j, |t|)].key
  {
    DistAt(key, i, |t|);
    DistAt(key, j, |t|);
  }

  /** The keys met in the first m probe steps of a window without holes are m different keys. */
  lemma {:induction false} WindowKeys<V>(t: seq<Slot<V>>, key: JString, m: nat) returns (met: set<JString>)
    requires |t| >= DELTA >= m && Unique(t)
    requires forall j: nat :: j < m ==> t[At(key, j, |t|)].Used?
    ensures |met| == m && met <= Keys(t)
    ensures forall k :: k in met <==> exists j: nat :: j < m && t[At(key, j, |t|)].key == k
  {
    met := {};
    if m > 0 {
      var before := WindowKeys(t, key, m - 1);
      var last := t[At(key, m - 1, |t|)].key;
      forall j: nat | j < m - 1
        ensures t[At(key, j, |t|)].key != last
      {
        WindowDistinct(t, key, j, m - 1);
      }
      met := before + {last};
    }
  }

  /** A window is full of other keys only if at least DELTA other keys are stored. */
  lemma {:induction false} FullWindowCount<V>(t: seq<Slot<V>>, key: JString)
    requires |t| >= DELTA && Unique(t) && Probe(t, key, 0) == DELTA
    ensures |Keys(t) - {key}| >= DELTA
  {
    var met := WindowKeys(t, key, DELTA);
    forall k | k in met
      ensures k != key
    {
      var j: nat :| j < DELTA && t[At(key, j, |t|)].key == k;
    }
    SubsetSize(met, Keys(t) - {key});
  }

  lemma {:induction false} SubsetSize<T>(a: set<T>, b: set<T>)
    requires a <= b
    ensures |a| <= |b|
  {
    if a != {} {
      var x :| x in a;
      SubsetSize(a - {x}, b - {x});
    }
  }

  /** With at most DELTA records in all, the next one finds room. */
  lemma {:induction false} FewFit<V>(src: seq<Slot<V>>, i: nat, t: seq<Slot<V>>)
    requires Unique(src) && |Keys(src)| <= DELTA && i < |src| && src[i].Used?
    requires |t| >= DELTA && Moved(src, i, t)
    ensures Probe(t, src[i].key, 0) < DELTA
  {
    var key := src[i].key;
    forall k | k in Keys(t)
      ensures k in Keys(src)
    {
      var q :| 0 <= q < |t| && t[q].Used? && t[q].key == k;
      var p :| 0 <= p < i && src[..i][p] == t[q];
      assert src[p].Used? && src[p].key == k;
    }
    assert key in Keys(src);
    SubsetSize(Keys(t) - {key}, Keys(src) - {key});
    if Probe(t, key, 0) == DELTA {
      FullWindowCount(t, key);
    }
  }

  lemma {:induction false} ReinsertFew<V>(src: seq<Slot<V>>, i: nat, t: seq<Slot<V>>)
    requires Unique(src) && |Keys(src)| <= DELTA && i <= |src|
    requires |t| >= DELTA && Moved(src, i, t)
    ensures Moved(src, |src|, Reinsert(src, i, t))
    decreases |src| - i
  {
    if i < |src| {
      if src[i].Used? { FewFit(src, i, t); }
      MoveOne(src, i, t);
      ReinsertFew(src, i + 1, Advance(src, i, t));
    }
  }

  // ---------------------------------------------------------------- no record wrapped

  /** No record has wrapped past the last slot: none sits before its home. */
  ghost predicate NoWrap<V>(t: seq<Slot<V>>) {
    forall p :: 0 <= p < |t| && t[p].Used? ==> Home(t[p].key, |t|) <= p
  }

  /** Multiplying the number of slots by four moves a home by a multiple of the old number. */
  lemma {:induction false} HomeGrows(x: nat, n: nat)
    requires n > 0
    ensures var d := Wrap(x, 4 * n) - Wrap(x, n); d == 0 || d == n || d == 2 * n || d == 3 * n
    decreases x
  {
    if x >= 4 * n {
      HomeGrows(x - 4 * n, n);
      assert Wrap(x, n) == Wrap(x - n, n) == Wrap(x - 2 * n, n) == Wrap(x - 3 * n, n) == Wrap(x - 4 * n, n);
    } else if x >= n {
      HomeGrows(x - n, n);
    }
  }

  /** Where slot p's record may move to: the same distance behind its new home. */
  ghost function Limit<V>(src: seq<Slot<V>>, p: nat): int
    requires Stored(src, p)
  {
    p + Home(src[p].key, 4 * |src|) - Home(src[p].key, |src|)
  }

  /** Records that have moved sit between their new home and the limit set by their old displacement. */
  ghost predicate Settled<V>(src: seq<Slot<V>>, i: nat, t: seq<Slot<V>>)
    requires i <= |src| && |t| == 4 * |src|
  {
    forall q :: 0 <= q < |t| && t[q].Used? ==>
      exists p: nat :: p < i && src[p] == t[q] && Home(t[q].key, |t|) <= q <= Limit(src, p)
  }

  /** The limit slot of the next record is still empty. */
  lemma {:induction false} LimitIsFree<V>(src: seq<Slot<V>>, i: nat, t: seq<Slot<V>>)
    requires |src| > 0 && i < |src| && src[i].Used? && NoWrap(src)
    requires |t| == 4 * |src| && Settled(src, i, t)
    ensures 0 <= Limit(src, i) < |t| && t[Limit(src, i)].Free?
  {
    HomeGrows(src[i].key.hash, |src|);
    var q := Limit(src, i);
    if t[q].Used? {
      var p: nat :| p < i && src[p] == t[q] && Home(t[q].key, |t|) <= q <= Limit(src, p);
      HomeGrows(src[p].key.hash, |src|);
      assert false;
    }
  }

  /** The next record finds room, no further from its home than it was. */
  lemma {:induction false} SettlesBelowLimit<V>(src: seq<Slot<V>>, i: nat, t: seq<Slot<V>>)
    requires Wf(src) && NoWrap(src) && Stored(src, i)
    requires |t| == 4 * |src| && Settled(src, i, t)
    ensures Probe(t, src[i].key, 0) < DELTA
    ensures Home(src[i].key, |t|) <= At(src[i].key, Probe(t, src[i].key, 0), |t|) <= Limit(src, i)
  {
    var key := src[i].key;
    LimitIsFree(src, i, t);
    var d: nat := i - Home(key, |src|);
    assert d == Dist(key, i, |src|);
    WrapTwice(Limit(src, i), |t|);
    assert At(key, d, |t|) == Limit(src, i);
    assert Probe(t, key, 0) <= d;
    WrapTwice(Home(key, |t|) + Probe(t, key, 0), |t|);
  }

  lemma {:induction false} SettleOne<V>(src: seq<Slot<V>>, i: nat, t: seq<Slot<V>>)
    requires Wf(src) && NoWrap(src) && i < |src| && |t| == 4 * |src| && Settled(src, i, t)
    ensures src[i].Used? ==> Probe(t, src[i].key, 0) < DELTA
    ensures Settled(src, i + 1, Advance(src, i, t))
  {
    var u := Advance(src, i, t);
    if src[i].Used? { SettlesBelowLimit(src, i, t); }
    forall q | 0 <= q < |u| && u[q].Used?
      ensures exists p: nat :: p < i + 1 && src[p] == u[q] && Home(u[q].key, |u|) <= q <= Limit(src, p)
    {
      if t[q] == u[q] {
        var p: nat :| p < i && src[p] == t[q] && Home(t[q].key, |t|) <= q <= Limit(src, p);
      } else {
        assert src[i] == u[q];
      }
    }
  }

  lemma {:induction false} ReinsertUnwrapped<V>(src: seq<Slot<V>>, i: nat, t: seq<Slot<V>>)
    requires Wf(src) && NoWrap(src) && i <= |src|
    requires |t| == 4 * |src| && Moved(src, i, t) && Settled(src, i, t)
    ensures var u := Reinsert(src, i, t); Moved(src, |src|, u) && Settled(src, |src|, u)
    decreases |src| - i
  {
    if i < |src| {
      SettleOne(src, i, t);
      MoveOne(src, i, t);
      ReinsertUnwrapped(src, i + 1, Advance(src, i, t));
    }
  }
}
