/** Runs of sets and gets agree with the finite map exactly when they are ready. */
module RunConverse {
  import opened Table
  import opened Rehash
  import opened Growth
  import opened ObjectMap
  import opened ObjectKeys

  /** The state after an operation, ready or not. */
  function Apply<V>(m: MapState<V>, op: Op<V>): (u: MapState<V>)
    requires |m.slots| > 0 && !op.Remove?
    ensures |u.slots| > 0
  {
    if op.Set? then SetMap(m, op.key, op.val).0 else m
  }

  /** The state after a run, and what its operations returned. */
  function ApplyAll<V>(m: MapState<V>, ops: seq<Op<V>>): (r: (MapState<V>, seq<Reply<V>>))
    requires |m.slots| > 0 && SetsAndGets(ops)
    ensures |r.0.slots| > 0
    decreases |ops|
  {
    if ops == [] then (m, [])
    else
      var (u, replies) := ApplyAll(Apply(m, ops[0]), ops[1..]);
      (u, Replies(m, ops[0]) + replies)
  }

  /** Every set ends. */
  ghost predicate AllEnd<V>(m: MapState<V>, ops: seq<Op<V>>)
    requires |m.slots| > 0 && SetsAndGets(ops)
    decreases |ops|
  {
    ops == [] ||
    ((ops[0].Set? ==> SetMap(m, ops[0].key, ops[0].val).1 != Exhausted) && AllEnd(Apply(m, ops[0]), ops[1..]))
  }

  /** The run returns what it returns on the finite map f, and ends in a map that stands for the same. */
  ghost predicate AgreesWith<V>(m: MapState<V>, f: map<JString, V>, ops: seq<Op<V>>)
    requires |m.slots| > 0 && SetsAndGets(ops)
  {
    var (u, replies) := ApplyAll(m, ops);
    (MapView(u), replies) == AbstractRun(f, ops)
  }

  lemma {:induction false} AgreesStep<V>(m: MapState<V>, f: map<JString, V>, ops: seq<Op<V>>)
    requires |m.slots| > 0 && SetsAndGets(ops) && ops != []
    ensures AgreesWith(m, f, ops) <==>
      Replies(m, ops[0]) == AbstractReplies(f, ops[0])
      && AgreesWith(Apply(m, ops[0]), AbstractStep(f, ops[0]), ops[1..])
  {
    var (u, replies) := ApplyAll(Apply(m, ops[0]), ops[1..]);
    var (g, others) := AbstractRun(AbstractStep(f, ops[0]), ops[1..]);
    var a, b := Replies(m, ops[0]), AbstractReplies(f, ops[0]);
    assert |a| == |b| == 1;
    assert (a + replies)[0] == a[0] && (b + others)[0] == b[0];
    assert (a + replies)[1..] == replies && (b + others)[1..] == others;
  }

  // ---------------------------------------------------------------- a lost key shows

  lemma {:induction false} NewIsAddedHash<V>(t: seq<Slot<V>>, key: JString, val: V)
    requires |t| > 0 && key !in Keys(t)
    ensures SetHash(t, key, val).1 != Update
    decreases if |t| > MAX_SLOTS then 0 else MAX_SLOTS + 1 - |t|
  {
    RetryStep(t, key, val);
    var i := Probe(t, key, 0);
    if i == DELTA && 4 * |t| <= MAX_SLOTS {
      ReinsertKeys(t, 0, Fresh<V>(4 * |t|));
      NewIsAddedHash(Grow(t), key, val);
    }
  }

  /** A key that is not stored is not updated. */
  lemma {:induction false} NewIsAdded<V>(m: MapState<V>, key: JString, val: V)
    requires |m.slots| > 0 && key !in Keys(m.slots)
    ensures SetMap(m, key, val).1 != Update
  {
    if m.hashed {
      NewIsAddedHash(m.slots, key, val);
    } else {
      var i := DictSlot(m.slots, key, 0);
      if i == |m.slots| {
        ReinsertKeys(m.slots, 0, Fresh<V>(2 * DELTA));
        NewIsAddedHash(Convert(m.slots), key, val);
      }
    }
  }

  /** A key that the map has lost is missing at the end, or a set of it is answered as if it were new. */
  lemma {:induction false} LostShows<V>(m: MapState<V>, f: map<JString, V>, ops: seq<Op<V>>, lost: JString)
    requires |m.slots| > 0 && SetsAndGets(ops) && lost in f && lost !in Keys(m.slots)
    ensures !AgreesWith(m, f, ops)
    decreases |ops|
  {
    if ops == [] {
      assert MapView(m).Keys == Keys(m.slots);
    } else {
      var rest := ops[1..];
      assert forall i :: 0 <= i < |rest| ==> rest[i] == ops[i + 1];
      AgreesStep(m, f, ops);
      if ops[0].Set? {
        SetMapKeys(m, ops[0].key, ops[0].val);
        if ops[0].key == lost { NewIsAdded(m, lost, ops[0].val); }
      }
      if !(ops[0].Set? && ops[0].key == lost) {
        LostShows(Apply(m, ops[0]), AbstractStep(f, ops[0]), rest, lost);
      }
    }
  }

  lemma {:induction false} UnreadyLoses<V>(m: MapState<V>, key: JString, val: V) returns (lost: JString)
    requires WfMap(m) && (m.hashed ==> Dense(m.slots)) && !SetReady(m, key)
    ensures lost in MapView(m) && lost !in Keys(SetMap(m, key, val).0.slots)
  {
    SetLoses(m.slots, key, val);
    lost :| lost in Keys(m.slots) && lost !in Keys(SetMap(m, key, val).0.slots);
    assert MapView(m).Keys == Keys(m.slots);
  }

  lemma {:induction false} LossShows<V>(m: MapState<V>, ops: seq<Op<V>>)
    requires WfMap(m) && (m.hashed ==> Dense(m.slots)) && SetsAndGets(ops)
    requires ops != [] && ops[0].Set? && !SetReady(m, ops[0].key)
    ensures !AgreesWith(m, MapView(m), ops)
  {
    assert forall i :: 0 <= i < |ops| - 1 ==> ops[1..][i] == ops[i + 1];
    var lost := UnreadyLoses(m, ops[0].key, ops[0].val);
    AgreesStep(m, MapView(m), ops);
    LostShows(Apply(m, ops[0]), AbstractStep(MapView(m), ops[0]), ops[1..], lost);
  }

  /** In a map without holes in its chains a set or get that is ready does what it does on the finite map. */
  lemma {:induction false} ReadyStep<V>(m: MapState<V>, op: Op<V>)
    requires WfMap(m) && (m.hashed ==> Dense(m.slots)) && !op.Remove? && Ready(m, op)
    ensures var u := Apply(m, op);
      WfMap(u) && (u.hashed ==> Dense(u.slots)) && MapView(u) == AbstractStep(MapView(m), op)
  {
    if op.Set? {
      SetMapStores(m, op.key, op.val);
      SetMapDense(m, op.key, op.val);
    }
  }

  lemma {:induction false} UnreadyShows<V>(m: MapState<V>, ops: seq<Op<V>>)
    requires WfMap(m) && (m.hashed ==> Dense(m.slots)) && SetsAndGets(ops) && AllEnd(m, ops) && !RunReady(m, ops)
    ensures !AgreesWith(m, MapView(m), ops)
    decreases |ops|
  {
    if Ready(m, ops[0]) {
      assert forall i :: 0 <= i < |ops| - 1 ==> ops[1..][i] == ops[i + 1];
      ReadyStep(m, ops[0]);
      AgreesStep(m, MapView(m), ops);
      UnreadyShows(Apply(m, ops[0]), ops[1..]);
    } else {
      LossShows(m, ops);
    }
  }

  lemma {:induction false} ReadyApplies<V>(m: MapState<V>, ops: seq<Op<V>>)
    requires |m.slots| > 0 && SetsAndGets(ops) && RunReady(m, ops)
    ensures ApplyAll(m, ops) == Run(m, ops)
    decreases |ops|
  {
    if ops != [] {
      assert forall i :: 0 <= i < |ops| - 1 ==> ops[1..][i] == ops[i + 1];
      ReadyApplies(Apply(m, ops[0]), ops[1..]);
    }
  }

  /**
   A run of sets and gets of which every set ends agrees with the finite map, in what it returns and in what it
   leaves, if and only if it is ready. It may start from any map without holes in its chains.
   */
  lemma {:induction false} RunAgreesFromIff<V>(m: MapState<V>, ops: seq<Op<V>>)
    requires WfMap(m) && (m.hashed ==> Dense(m.slots)) && SetsAndGets(ops) && AllEnd(m, ops)
    ensures AgreesWith(m, MapView(m), ops) <==> RunReady(m, ops)
  {
    if RunReady(m, ops) {
      ReadyApplies(m, ops);
      RunRefines(m, ops);
    } else {
      UnreadyShows(m, ops);
    }
  }

  /** In particular from kmap_init. */
  lemma {:induction false} RunAgreesIff<V>(size: nat, ops: seq<Op<V>>)
    requires SetsAndGets(ops) && AllEnd(InitMap(size), ops)
    ensures AgreesWith(InitMap(size), map[], ops) <==> RunReady(InitMap(size), ops)
  {
    InitEmpty<V>(size);
    RunAgreesFromIff(InitMap<V>(size), ops);
  }
}
