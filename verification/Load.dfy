/**
 Exactly when a rehash loses a record, told from the stored hashes alone. A slot is still empty
 when its turn comes just in case no stretch of slots ending there is the home of more records
 than the slots before it can take.
 */
module Load {
  import opened Table
  import opened Rehash

  /** The records in slots below i of src whose home, in n slots, is among the a + 1 slots that end at q. */
  ghost function Crowd<V>(src: seq<Slot<V>>, i: nat, q: nat, a: nat, n: nat): set<JString>
    requires i <= |src| && q < n
  {
    set p | 0 <= p < i && src[p].Used? && Dist(src[p].key, q, n) <= a :: src[p].key
  }

  /** No stretch of slots ending at q is overcrowded. */
  ghost predicate Roomy<V>(src: seq<Slot<V>>, i: nat, q: nat, n: nat)
    requires i <= |src| && q < n
  {
    forall a: nat :: a < n ==> |Crowd(src, i, q, a, n)| <= a
  }

  /** The slot b places before q, going round the start. */
  function Behind(q: nat, b: nat, n: nat): (r: nat)
    requires q < n && b <= n
    ensures r < n
  {
    if b <= q then q - b else q + n - b
  }

  lemma {:induction false} DistBehind(key: JString, q: nat, b: nat, n: nat)
    requires q < n && b <= Dist(key, q, n)
    ensures Dist(key, Behind(q, b, n), n) == Dist(key, q, n) - b
  {}

  lemma {:induction false} CrowdIsHere<V>(src: seq<Slot<V>>, i: nat, t: seq<Slot<V>>, q: nat, a: nat)
    requires i <= |src| && Moved(src, i, t) && q < |t|
    ensures Crowd(src, i, q, a, |t|) == set k | k in Keys(t) && Dist(k, q, |t|) <= a
  {
    forall p | 0 <= p < i && src[p].Used?
      ensures src[p].key in Keys(t)
    {
      var s :| 0 <= s < |t| && t[s] == src[p];
    }
    forall k | k in Keys(t)
      ensures exists p :: 0 <= p < i && src[p].Used? && src[p].key == k
    {
      var s :| 0 <= s < |t| && t[s].Used? && t[s].key == k;
      var p :| 0 <= p < i && src[..i][p] == t[s];
      assert src[p].Used? && src[p].key == k;
    }
  }

  /** The keys in the a slots before q. */
  lemma {:induction false} HeldBehind<V>(t: seq<Slot<V>>, q: nat, a: nat) returns (held: set<JString>)
    requires q < |t| && a < |t|
    ensures forall b :: 1 <= b <= a && t[Behind(q, b, |t|)].Used? ==> t[Behind(q, b, |t|)].key in held
    ensures |held| <= a
  {
    held := {};
    if a > 0 {
      var before := HeldBehind(t, q, a - 1);
      var s := t[Behind(q, a, |t|)];
      held := if s.Used? then before + {s.key} else before;
    }
  }

  /** A record whose home is before an empty slot also sits before it. */
  lemma {:induction false} FreeIsRoomy<V>(src: seq<Slot<V>>, i: nat, t: seq<Slot<V>>, q: nat)
    requires i <= |src| && Moved(src, i, t) && q < |t| && t[q].Free?
    ensures Roomy(src, i, q, |t|)
  {
    var n := |t|;
    forall a: nat | a < n
      ensures |Crowd(src, i, q, a, n)| <= a
    {
      CrowdIsHere(src, i, t, q, a);
      var held := HeldBehind(t, q, a);
      forall k | k in Crowd(src, i, q, a, n)
        ensures k in held
      {
        var s :| 0 <= s < n && t[s].Used? && t[s].key == k;
        assert PathFull(t, k, s);
        assert At(k, Dist(k, q, n), n) == q;
        assert At(k, Dist(k, s, n), n) == s;
        assert Dist(k, s, n) < Dist(k, q, n);
        assert Behind(q, Dist(k, q, n) - Dist(k, s, n), n) == s;
      }
      SubsetSize(Crowd(src, i, q, a, n), held);
    }
  }

  /** The run of used slots that ends at q, as far back as it goes. */
  lemma {:induction false} UsedRun<V>(t: seq<Slot<V>>, q: nat, from: nat) returns (a: nat)
    requires q < |t| && from < |t| && forall b: nat :: b <= from ==> t[Behind(q, b, |t|)].Used?
    ensures a < |t| && forall b: nat :: b <= a ==> t[Behind(q, b, |t|)].Used?
    ensures a + 1 == |t| || t[Behind(q, a + 1, |t|)].Free?
    decreases |t| - from
  {
    a := from;
    if from + 1 < |t| && t[Behind(q, from + 1, |t|)].Used? {
      a := UsedRun(t, q, from + 1);
    }
  }

  lemma {:induction false} RunKeys<V>(t: seq<Slot<V>>, q: nat, a: nat) returns (run: set<JString>)
    requires Unique(t) && q < |t| && a < |t| && forall b: nat :: b <= a ==> t[Behind(q, b, |t|)].Used?
    ensures |run| == a + 1
    ensures forall k :: k in run ==> exists b: nat :: b <= a && t[Behind(q, b, |t|)].key == k
  {
    assert Behind(q, 0, |t|) == q;
    run := {t[q].key};
    if a > 0 {
      var before := RunKeys(t, q, a - 1);
      var last := t[Behind(q, a, |t|)].key;
      assert last !in before;
      run := before + {last};
    }
  }

  /** All records of the run of used slots around q have their home in that run. */
  lemma {:induction false} UsedIsCrowded<V>(src: seq<Slot<V>>, i: nat, t: seq<Slot<V>>, q: nat)
    requires i <= |src| && Moved(src, i, t) && q < |t| && t[q].Used?
    ensures !Roomy(src, i, q, |t|)
  {
    var n := |t|;
    assert forall b: nat :: b <= 0 ==> Behind(q, b, n) == q;
    var a := UsedRun(t, q, 0);
    var run := RunKeys(t, q, a);
    CrowdIsHere(src, i, t, q, a);
    forall k | k in run
      ensures k in Crowd(src, i, q, a, n)
    {
      var b: nat :| b <= a && t[Behind(q, b, n)].key == k;
      var s := Behind(q, b, n);
      assert k in Keys(t);
      assert PathFull(t, k, s);
      if Dist(k, q, n) > a {
        DistBehind(k, q, b, n);
        DistBehind(k, q, a + 1, n);
        assert false;
      }
    }
    SubsetSize(run, Crowd(src, i, q, a, n));
  }

  // ---------------------------------------------------------------- lossless rehashing

  /** Record i, at its turn, has a slot in its window that the records before it do not overcrowd. */
  ghost predicate RoomFor<V>(src: seq<Slot<V>>, i: nat, n: nat)
    requires n > 0 && Stored(src, i)
  {
    exists d: nat :: d < DELTA && Roomy(src, i, At(src[i].key, d, n), n)
  }

  ghost predicate KeepsFrom<V>(src: seq<Slot<V>>, i: nat, n: nat)
    requires n > 0
  {
    forall j: nat :: i <= j && Stored(src, j) ==> RoomFor(src, j, n)
  }

  /** Every record has room at its turn. */
  ghost predicate KeepsAll<V>(src: seq<Slot<V>>, n: nat)
    requires n > 0
  {
    KeepsFrom(src, 0, n)
  }

  lemma {:induction false} FitsIff<V>(src: seq<Slot<V>>, i: nat, t: seq<Slot<V>>)
    requires Unique(src) && Stored(src, i) && Moved(src, i, t)
    ensures Probe(t, src[i].key, 0) < DELTA <==> RoomFor(src, i, |t|)
  {
    var key := src[i].key;
    NotYetMoved(src, i, t);
    assert forall q :: 0 <= q < |t| && t[q].Used? ==> t[q].key in Keys(t);
    forall d: nat | d < DELTA
      ensures t[At(key, d, |t|)].Free? <==> Roomy(src, i, At(key, d, |t|), |t|)
    {
      var q := At(key, d, |t|);
      if t[q].Free? { FreeIsRoomy(src, i, t, q); } else { UsedIsCrowded(src, i, t, q); }
    }
  }

  lemma {:induction false} NeverReturns<V>(src: seq<Slot<V>>, i: nat, t: seq<Slot<V>>, key: JString)
    requires i <= |src| && |t| > 0 && key !in Keys(t)
    requires forall p :: i <= p < |src| && src[p].Used? ==> src[p].key != key
    ensures key !in Keys(Reinsert(src, i, t))
    decreases |src| - i
  {
    if i < |src| {
      NeverReturns(src, i + 1, Advance(src, i, t), key);
    }
  }

  lemma {:induction false} ReinsertAllIff<V>(src: seq<Slot<V>>, i: nat, t: seq<Slot<V>>)
    requires Unique(src) && i <= |src| && Moved(src, i, t)
    ensures KeepsFrom(src, i, |t|) ==> Moved(src, |src|, Reinsert(src, i, t))
    ensures !KeepsFrom(src, i, |t|) ==> !(Keys(src) <= Keys(Reinsert(src, i, t)))
    decreases |src| - i
  {
    if i < |src| {
      if src[i].Used? { FitsIff(src, i, t); }
      if src[i].Used? && Probe(t, src[i].key, 0) == DELTA {
        NotYetMoved(src, i, t);
        Dropped(src, i, t);
      } else {
        MoveOne(src, i, t);
        ReinsertAllIff(src, i + 1, Advance(src, i, t));
        assert KeepsFrom(src, i, |t|) <==> KeepsFrom(src, i + 1, |t|);
      }
    }
  }

  lemma {:induction false} Dropped<V>(src: seq<Slot<V>>, i: nat, t: seq<Slot<V>>)
    requires Unique(src) && Stored(src, i) && |t| > 0
    requires src[i].key !in Keys(t) && Probe(t, src[i].key, 0) == DELTA
    ensures !(Keys(src) <= Keys(Reinsert(src, i, t)))
  {
    NeverReturns(src, i + 1, t, src[i].key);
    assert src[i].key in Keys(src);
  }

  /** Growing keeps the map exactly when no record, at its turn, faces an overcrowded window. */
  lemma {:induction false} GrowKeepsIff<V>(t: seq<Slot<V>>)
    requires Wf(t)
    ensures View(Grow(t)) == View(t) <==> KeepsAll(t, 4 * |t|)
    ensures KeepsAll(t, 4 * |t|) ==> Wf(Grow(t)) && Dense(Grow(t)) && Keys(Grow(t)) == Keys(t)
    ensures !KeepsAll(t, 4 * |t|) ==> !(Keys(t) <= Keys(Grow(t)))
  {
    FreshMoved(t, 4 * |t|);
    ReinsertAllIff(t, 0, Fresh<V>(4 * |t|));
    if KeepsAll(t, 4 * |t|) {
      MovedAll(t, Grow(t));
    } else {
      assert View(Grow(t)).Keys == Keys(Grow(t)) && View(t).Keys == Keys(t);
    }
  }
}
