/**
 The open-addressed table of kjson/kmap.c as operations on a sequence of slots: bounded linear
 probing, insertion, lookup over the whole window, and deletion that leaves no tombstone.
 */
module Table {
  import opened Basics
  import opened Bits

  /** A key string together with its cached hash code. */
  datatype JString = JString(text: bytes, hash: nat)

  /** A record whose hash is 0 marks an empty slot; stored keys have a non-zero hash. */
  datatype Slot<+V> = Free | Used(key: JString, val: V)

  /** What a set returns, or that it grows the table without end, or compares a record without a key. */
  datatype Status = Failed | Update | Added | Exhausted | Crashed

  /** How many slots a probe looks at. */
  const DELTA := 16

  // ---------------------------------------------------------------- positions

  /** x reduced to 0..n-1, by repeated subtraction so that proofs stay linear. */
  function Wrap(x: nat, n: nat): (r: nat)
    requires n > 0
    ensures r < n
  {
    if x < n then x else Wrap(x - n, n)
  }

  lemma {:induction false} WrapIsModulo(x: nat, n: nat)
    requires n > 0
    ensures Wrap(x, n) == x % n
  {
    if x < n {
      DivModUnique(x, n, 0, x);
    } else {
      WrapIsModulo(x - n, n);
      DivModUnique(x, n, (x - n) / n + 1, (x - n) % n);
    }
  }

  lemma {:induction false} WrapStep(x: nat, n: nat)
    requires n > 0
    ensures Wrap(x + 1, n) == (if Wrap(x, n) + 1 == n then 0 else Wrap(x, n) + 1)
    decreases x
  {
    if x >= n {
      WrapStep(x - n, n);
    }
  }

  lemma {:induction false} WrapTwice(p: nat, n: nat)
    requires p < n
    ensures Wrap(p, n) == p && Wrap(p + n, n) == p
  {
    assert Wrap(p + n, n) == Wrap(p, n);
  }

  function Home(key: JString, n: nat): (r: nat)
    requires n > 0
    ensures r < n
  {
    Wrap(key.hash, n)
  }

  /** The slot looked at in the i-th probe step. */
  function At(key: JString, i: nat, n: nat): (r: nat)
    requires n > 0
    ensures r < n
  {
    Wrap(Home(key, n) + i, n)
  }

  /** How far slot p lies behind the home of a key, going round the end. */
  function Dist(key: JString, p: nat, n: nat): (r: nat)
    requires p < n
    ensures r < n
    ensures At(key, r, n) == p
  {
    var home := Home(key, n);
    WrapTwice(p, n);
    if p >= home then p - home else p + n - home
  }

  lemma {:induction false} DistAt(key: JString, i: nat, n: nat)
    requires n > 0
    ensures Dist(key, At(key, i, n), n) <= i
    ensures i < n ==> Dist(key, At(key, i, n), n) == i
    decreases i
  {
    var home := Home(key, n);
    if i >= n {
      DistAt(key, i - n, n);
      assert At(key, i, n) == At(key, i - n, n);
    } else if home + i < n {
      WrapTwice(home + i, n);
    } else {
      WrapTwice(home + i - n, n);
    }
  }

  // ---------------------------------------------------------------- contents

  ghost predicate Stored<V>(t: seq<Slot<V>>, p: nat) {
    p < |t| && t[p].Used?
  }

  ghost function Keys<V>(t: seq<Slot<V>>): set<JString> {
    set p | 0 <= p < |t| && t[p].Used? :: t[p].key
  }

  /** No key is stored twice. */
  ghost predicate Unique<V>(t: seq<Slot<V>>) {
    forall p, q :: 0 <= p < |t| && 0 <= q < |t| && t[p].Used? && t[q].Used? && t[p].key == t[q].key ==> p == q
  }

  ghost function Lookup<V>(t: seq<Slot<V>>, key: JString): V
    requires key in Keys(t)
  {
    var p :| 0 <= p < |t| && t[p].Used? && t[p].key == key;
    t[p].val
  }

  /** The finite map a table stands for. */
  ghost function View<V>(t: seq<Slot<V>>): map<JString, V> {
    map key | key in Keys(t) :: Lookup(t, key)
  }

  lemma {:induction false} ViewAt<V>(t: seq<Slot<V>>, p: nat)
    requires Unique(t) && Stored(t, p)
    ensures t[p].key in View(t) && View(t)[t[p].key] == t[p].val
  {}

  /** Two tables stand for the same map when they hold the same records, in whatever order. */
  lemma {:induction false} SameView<V>(t: seq<Slot<V>>, u: seq<Slot<V>>)
    requires Unique(t) && Unique(u)
    requires forall p :: 0 <= p < |t| && t[p].Used? ==> t[p] in u
    requires Keys(u) <= Keys(t)
    ensures View(t) == View(u)
  {
    assert Keys(t) == Keys(u);
    forall key | key in Keys(t)
      ensures View(t)[key] == View(u)[key]
    {
      var p :| 0 <= p < |t| && t[p].Used? && t[p].key == key;
      var q :| 0 <= q < |u| && u[q] == t[p];
      ViewAt(t, p);
      ViewAt(u, q);
    }
  }

  function UsedCount<V>(t: seq<Slot<V>>): nat {
    if t == [] then 0 else UsedCount(t[..|t| - 1]) + (if t[|t| - 1].Used? then 1 else 0)
  }

  lemma {:induction false} UsedCountWrite<V>(t: seq<Slot<V>>, p: nat, s: Slot<V>)
    requires p < |t|
    ensures UsedCount(t[p := s]) == UsedCount(t) - (if t[p].Used? then 1 else 0) + (if s.Used? then 1 else 0)
  {
    var u, n := t[p := s], |t| - 1;
    if p == n {
      assert u[..n] == t[..n];
    } else {
      UsedCountWrite(t[..n], p, s);
      assert u[..n] == t[..n][p := s];
    }
  }

  lemma {:induction false} UsedCountIsKeys<V>(t: seq<Slot<V>>)
    requires Unique(t)
    ensures UsedCount(t) == |Keys(t)|
  {
    if t != [] {
      var u, last := t[..|t| - 1], t[|t| - 1];
      assert forall p :: 0 <= p < |u| ==> u[p] == t[p];
      UsedCountIsKeys(u);
      if last.Used? {
        assert Keys(t) == Keys(u) + {last.key};
      } else {
        assert Keys(t) == Keys(u);
      }
    }
  }

  // ---------------------------------------------------------------- probing

  /** The hash field of a record; 0 marks an empty slot. */
  function HashOf<V>(s: Slot<V>): nat {
    if s.Free? then 0 else s.key.hash
  }

  ghost predicate NonZero<V>(slots: seq<Slot<V>>) {
    forall p :: 0 <= p < |slots| && slots[p].Used? ==> slots[p].key.hash != 0
  }

  /** The first probe step from i on whose slot is free or holds the key; DELTA if there is none. */
  function Probe<V>(t: seq<Slot<V>>, key: JString, i: nat): (r: nat)
    requires |t| > 0 && i <= DELTA
    ensures i <= r <= DELTA
    ensures forall j: nat :: i <= j < r ==> t[At(key, j, |t|)].Used? && t[At(key, j, |t|)].key != key
    ensures r < DELTA ==> t[At(key, r, |t|)].Free? || t[At(key, r, |t|)].key == key
    decreases DELTA - i
  {
    if i == DELTA then i
    else
      var s := t[At(key, i, |t|)];
      if s.Free? || s.key == key then i else Probe(t, key, i + 1)
  }

  /** hashmap_set_no_resize. */
  function Place<V>(t: seq<Slot<V>>, key: JString, val: V): (r: (seq<Slot<V>>, Status))
    requires |t| > 0
    ensures |r.0| == |t|
  {
    var i := Probe(t, key, 0);
    if i == DELTA then (t, Failed)
    else
      var p := At(key, i, |t|);
      (t[p := Used(key, val)], if t[p].Free? then Added else Update)
  }

  /** hashmap_get: the first probe step whose slot holds the key, looking past holes; DELTA if none. */
  function Search<V>(t: seq<Slot<V>>, key: JString, i: nat): (r: nat)
    requires |t| > 0 && i <= DELTA
    ensures i <= r <= DELTA
    ensures forall j: nat :: i <= j < r ==> t[At(key, j, |t|)].Free? || t[At(key, j, |t|)].key != key
    ensures r < DELTA ==> t[At(key, r, |t|)].Used? && t[At(key, r, |t|)].key == key
    decreases DELTA - i
  {
    if i == DELTA then i
    else
      var s := t[At(key, i, |t|)];
      if s.Used? && s.key == key then i else Search(t, key, i + 1)
  }

  // ---------------------------------------------------------------- invariants

  /** Every record sits less than DELTA slots behind its home. */
  ghost predicate InWindow<V>(t: seq<Slot<V>>) {
    forall p :: 0 <= p < |t| && t[p].Used? ==> Dist(t[p].key, p, |t|) < DELTA
  }

  /** No hole lies between slot p and the home of key. */
  ghost predicate PathFull<V>(t: seq<Slot<V>>, key: JString, p: nat)
    requires p < |t|
  {
    forall d: nat :: d < Dist(key, p, |t|) ==> t[At(key, d, |t|)].Used?
  }

  /** The probe-chain invariant: no hole between any record and its home. */
  ghost predicate Dense<V>(t: seq<Slot<V>>) {
    forall p :: 0 <= p < |t| && t[p].Used? ==> PathFull(t, t[p].key, p)
  }

  ghost predicate Wf<V>(t: seq<Slot<V>>) {
    |t| > 0 && Unique(t) && InWindow(t)
  }

  /** If the key is stored at all, an insertion probe meets no hole before it. */
  ghost predicate NoHoleBefore<V>(t: seq<Slot<V>>, key: JString) {
    forall p :: 0 <= p < |t| && t[p].Used? && t[p].key == key ==> PathFull(t, key, p)
  }

  lemma {:induction false} SearchFinds<V>(t: seq<Slot<V>>, key: JString)
    requires Wf(t)
    ensures (Search(t, key, 0) < DELTA) <==> key in View(t)
    ensures Search(t, key, 0) < DELTA ==> t[At(key, Search(t, key, 0), |t|)].val == View(t)[key]
  {
    var r := Search(t, key, 0);
    if key in Keys(t) {
      var p :| 0 <= p < |t| && t[p].Used? && t[p].key == key;
      var d := Dist(key, p, |t|);
      assert r <= d;
    }
    if r < DELTA {
      ViewAt(t, At(key, r, |t|));
    }
  }

  /** When the key is stored and no hole precedes it, the insertion probe stops at its slot. */
  lemma {:induction false} ProbeFindsStored<V>(t: seq<Slot<V>>, key: JString, p: nat)
    requires Wf(t) && Stored(t, p) && t[p].key == key && PathFull(t, key, p)
    ensures Probe(t, key, 0) < DELTA && At(key, Probe(t, key, 0), |t|) == p
  {
    var d, r := Dist(key, p, |t|), Probe(t, key, 0);
    assert t[At(key, d, |t|)].key == key;
    assert r <= d;
    var q := At(key, r, |t|);
    assert r < d ==> t[q].Used?;
    assert t[q].Used? && t[q].key == key;
  }

  lemma {:induction false} WriteView<V>(t: seq<Slot<V>>, p: nat, key: JString, val: V)
    requires Unique(t) && p < |t|
    requires if t[p].Used? then t[p].key == key else key !in Keys(t)
    ensures Unique(t[p := Used(key, val)])
    ensures View(t[p := Used(key, val)]) == View(t)[key := val]
  {
    var u := t[p := Used(key, val)];
    assert u[p].key in Keys(u);
    assert Keys(u) == Keys(t) + {key} by {
      forall k | k in Keys(t)
        ensures k in Keys(u)
      {
        var q :| 0 <= q < |t| && t[q].Used? && t[q].key == k;
        assert u[q].Used? && u[q].key == k;
      }
    }
    forall k | k in Keys(u)
      ensures View(u)[k] == View(t)[key := val][k]
    {
      var q :| 0 <= q < |u| && u[q].Used? && u[q].key == k;
      ViewAt(u, q);
      if q != p {
        ViewAt(t, q);
      }
    }
  }

  /**
   A successful placement stores exactly the new pair, says whether the key was new, and keeps
   every invariant, provided no hole precedes the key.
   */
  lemma {:induction false} PlaceStores<V>(t: seq<Slot<V>>, key: JString, val: V)
    requires Wf(t) && NoHoleBefore(t, key) && Probe(t, key, 0) < DELTA
    ensures var (u, s) := Place(t, key, val);
      && Wf(u) && View(u) == View(t)[key := val]
      && s == (if key in View(t) then Update else Added)
      && (Dense(t) ==> Dense(u))
  {
    var r := Probe(t, key, 0);
    var p := At(key, r, |t|);
    var u := t[p := Used(key, val)];
    DistAt(key, r, |t|);
    if t[p].Free? && key in Keys(t) {
      var q :| 0 <= q < |t| && t[q].Used? && t[q].key == key;
      ProbeFindsStored(t, key, q);
      assert false;
    }
    WriteView(t, p, key, val);
    if Dense(t) {
      forall q | 0 <= q < |u| && u[q].Used?
        ensures PathFull(u, u[q].key, q)
      {
        if q != p {
          assert PathFull(t, t[q].key, q);
        }
      }
    }
  }

  /** An insertion that finds room agrees with the finite map exactly when no hole precedes its key. */
  lemma {:induction false} PlaceAgreesIff<V>(t: seq<Slot<V>>, key: JString, val: V)
    requires Wf(t) && Probe(t, key, 0) < DELTA
    ensures var u := Place(t, key, val).0;
      (Unique(u) && View(u) == View(t)[key := val]) <==> NoHoleBefore(t, key)
  {
    var u, q := Place(t, key, val).0, At(key, Probe(t, key, 0), |t|);
    if NoHoleBefore(t, key) {
      PlaceStores(t, key, val);
    } else {
      var p :| 0 <= p < |t| && t[p].Used? && t[p].key == key && !PathFull(t, key, p);
      var d: nat :| d < Dist(key, p, |t|) && t[At(key, d, |t|)].Free?;
      DistAt(key, d, |t|);
      assert Probe(t, key, 0) <= d;
      DistAt(key, Probe(t, key, 0), |t|);
      assert u[p].Used? && u[q].Used? && u[p].key == u[q].key;
    }
  }

  // ---------------------------------------------------------------- deletion

  /** hashmap_api_remove: the slot found is cleared and nothing else moves. */
  function Erase<V>(t: seq<Slot<V>>, key: JString): (u: seq<Slot<V>>)
    requires |t| > 0
    ensures |u| == |t|
  {
    var i := Search(t, key, 0);
    if i == DELTA then t else t[At(key, i, |t|) := Free]
  }

  lemma {:induction false} EraseKeys<V>(t: seq<Slot<V>>, p: nat)
    requires Unique(t) && Stored(t, p)
    ensures Keys(t[p := Free]) == Keys(t) - {t[p].key}
  {
    var u := t[p := Free];
    forall k | k in Keys(t) && k != t[p].key
      ensures k in Keys(u)
    {
      var q :| 0 <= q < |t| && t[q].Used? && t[q].key == k;
      assert u[q].Used? && u[q].key == k;
    }
  }

  lemma {:induction false} EraseView<V>(t: seq<Slot<V>>, p: nat)
    requires Unique(t) && Stored(t, p)
    ensures View(t[p := Free]) == View(t) - {t[p].key}
  {
    var u := t[p := Free];
    EraseKeys(t, p);
    forall k | k in Keys(u)
      ensures View(u)[k] == View(t)[k]
    {
      var q :| 0 <= q < |u| && u[q].Used? && u[q].key == k;
      ViewAt(u, q);
      ViewAt(t, q);
    }
  }

  lemma {:induction false} EraseWf<V>(t: seq<Slot<V>>, p: nat)
    requires Wf(t) && p < |t|
    ensures Wf(t[p := Free])
  {
    var u := t[p := Free];
    assert forall q :: 0 <= q < |u| && u[q].Used? ==> u[q] == t[q];
  }

  /** Deletion keeps lookups right although it breaks probe chains: lookup never stops at a hole. */
  lemma {:induction false} EraseRemoves<V>(t: seq<Slot<V>>, key: JString)
    requires Wf(t)
    ensures Wf(Erase(t, key)) && View(Erase(t, key)) == View(t) - {key}
  {
    SearchFinds(t, key);
    var i := Search(t, key, 0);
    if i < DELTA {
      EraseView(t, At(key, i, |t|));
      EraseWf(t, At(key, i, |t|));
    }
  }
}
