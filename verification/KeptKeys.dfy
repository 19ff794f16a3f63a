/** Exactly which keys a rehash keeps, told from the hashes of the keys in slot order. */
module KeptKeys {
  import opened Table
  import opened Rehash
  import opened Ending
  import opened RawMap

  /** A key is kept if those kept before it leave it room. */
  ghost function KeptNext<V>(s: Slot<V>, kept: set<JString>, n: nat): set<JString>
    requires n > 0
  {
    if s.Used? && RoomIn(kept, s.key, n) then kept + {s.key} else kept
  }

  /** The keys kept in the end, going on from slot i with these. */
  ghost function Kept<V>(src: seq<Slot<V>>, i: nat, kept: set<JString>, n: nat): set<JString>
    requires i <= |src| && n > 0
    decreases |src| - i
  {
    if i == |src| then kept else Kept(src, i + 1, KeptNext(src[i], kept, n), n)
  }

  /** The keys of t come from the first i slots of src. */
  ghost predicate Before<V>(src: seq<Slot<V>>, i: nat, t: seq<Slot<V>>)
    requires i <= |src|
  {
    forall k :: k in Keys(t) ==> exists p :: 0 <= p < i && src[p].Used? && src[p].key == k
  }

  lemma {:induction false} PlaceKeeps<V>(t: seq<Slot<V>>, key: JString, val: V)
    requires Wf(t) && Dense(t) && key !in Keys(t)
    ensures var u := Place(t, key, val).0;
      Wf(u) && Dense(u) && Keys(u) == KeptNext(Used(key, val), Keys(t), |t|)
  {
    ProbeEndsIff(t, key);
    if Probe(t, key, 0) < DELTA {
      PlaceStores(t, key, val);
      assert View(Place(t, key, val).0).Keys == Keys(Place(t, key, val).0) && View(t).Keys == Keys(t);
    }
  }

  lemma {:induction false} AdvanceKeeps<V>(src: seq<Slot<V>>, i: nat, t: seq<Slot<V>>)
    requires Unique(src) && i < |src| && Wf(t) && Dense(t) && Before(src, i, t)
    ensures var u := Advance(src, i, t);
      Wf(u) && Dense(u) && Before(src, i + 1, u) && Keys(u) == KeptNext(src[i], Keys(t), |t|)
  {
    if src[i].Used? {
      assert src[i].key !in Keys(t);
      PlaceKeeps(t, src[i].key, src[i].val);
    }
  }

  lemma {:induction false} ReinsertKeeps<V>(src: seq<Slot<V>>, i: nat, t: seq<Slot<V>>)
    requires Unique(src) && i <= |src| && Wf(t) && Dense(t) && Before(src, i, t)
    ensures Keys(Reinsert(src, i, t)) == Kept(src, i, Keys(t), |t|) && Wf(Reinsert(src, i, t))
    decreases |src| - i
  {
    if i < |src| {
      AdvanceKeeps(src, i, t);
      ReinsertKeeps(src, i + 1, Advance(src, i, t));
    }
  }

  /** A rehash keeps exactly these keys, each with its value. */
  lemma {:induction false} GrowKeepsExactly<V>(t: seq<Slot<V>>)
    requires Wf(t)
    ensures var kept := Kept(t, 0, {}, 4 * |t|);
      && Keys(Grow(t)) == kept && kept <= Keys(t)
      && forall k :: k in kept ==> View(Grow(t))[k] == View(t)[k]
  {
    var start := Fresh<V>(4 * |t|);
    assert Keys(start) == {};
    ReinsertKeeps(t, 0, start);
    ReinsertRecs(t, 0, start);
    forall k | k in Keys(Grow(t))
      ensures k in Keys(t) && View(Grow(t))[k] == View(t)[k]
    {
      var q :| 0 <= q < |Grow(t)| && Grow(t)[q].Used? && Grow(t)[q].key == k;
      assert Grow(t)[q] in Recs(Grow(t)) && Recs(start) == {};
      var p :| 0 <= p < |t| && t[p] == Grow(t)[q];
      ViewAt(t, p);
      ViewAt(Grow(t), q);
    }
  }
}
