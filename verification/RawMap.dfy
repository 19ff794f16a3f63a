/**
 kmap_t with its fields as the code leaves them, for every key and after every removal. A record whose hash
 is 0 counts as empty although it is there; a word of hash_list can outlive its record; and used_size can
 differ from the number of records. On maps in which none of this has happened the operations are those of
 ObjectMap.
 */
module RawMap {
  import opened Basics
  import opened Table
  import opened Rehash
  import opened Growth
  import opened ObjectMap

  /** The two members of union kmap_t. A free slot stands for a record without a key. */
  datatype Raw<+V> =
    | RawDict(words: seq<nat>, slots: seq<Slot<V>>, used: nat)
    | RawHash(slots: seq<Slot<V>>, used: nat)

  predicate Shape<V>(r: Raw<V>) {
    |r.slots| > 0 && (r.RawDict? ==> |r.words| == |r.slots| == DICTMAP_THRESHOLD)
  }

  /** The table as everything but the lookup of a key of hash 0 sees it: records whose hash is 0 are not there. */
  function Live<V>(slots: seq<Slot<V>>): (r: seq<Slot<V>>)
    ensures |r| == |slots|
    ensures forall p :: 0 <= p < |r| ==> r[p] == if HashOf(slots[p]) == 0 then Free else slots[p]
  {
    seq(|slots|, p requires 0 <= p < |slots| => if HashOf(slots[p]) == 0 then Free else slots[p])
  }

  // ---------------------------------------------------------------- kmap_set

  /** hashmap_set_no_resize. */
  function RawPlace<V>(t: seq<Slot<V>>, key: JString, val: V): (r: (seq<Slot<V>>, Status))
    requires |t| > 0
    ensures |r.0| == |t|
  {
    var i := Probe(Live(t), key, 0);
    if i == DELTA then (t, Failed)
    else
      var p := At(key, i, |t|);
      (t[p := Used(key, val)], if HashOf(t[p]) == 0 then Added else Update)
  }

  /** hashmap_set. A resize moves the records that count and counts them anew. */
  function RawSetHash<V>(t: seq<Slot<V>>, used: nat, key: JString, val: V): (r: (Raw<V>, Status))
    requires |t| > 0
    ensures r.0.RawHash? && Shape(r.0)
    decreases if |t| > MAX_SLOTS then 0 else MAX_SLOTS + 1 - |t|
  {
    var (u, st) := RawPlace(t, key, val);
    if st != Failed then (RawHash(u, if st == Added then used + 1 else used), st)
    else if 4 * |t| > MAX_SLOTS then (RawHash(t, used), Exhausted)
    else
      var g := Grow(Live(t));
      RawSetHash(g, UsedCount(g), key, val)
  }

  /** dictmap_set from word i on. */
  function RawSetDict<V>(d: Raw<V>, key: JString, val: V, i: nat): (r: (Raw<V>, Status))
    requires d.RawDict? && Shape(d) && i <= DICTMAP_THRESHOLD
    ensures Shape(r.0)
    decreases DICTMAP_THRESHOLD - i
  {
    if i == DICTMAP_THRESHOLD then
      var t := Convert(Live(d.slots));
      RawSetHash(t, UsedCount(t), key, val)
    else if d.words[i] == 0 then
      (RawDict(d.words[i := key.hash], d.slots[i := Used(key, val)], d.used + 1), Added)
    else if d.words[i] != key.hash then RawSetDict(d, key, val, i + 1)
    else if d.slots[i].Free? then (d, Crashed)
    else if d.slots[i].key == key then (d.(slots := d.slots[i := Used(key, val)]), Update)
    else RawSetDict(d, key, val, i + 1)
  }

  /** kmap_set. */
  function RawSet<V>(r: Raw<V>, key: JString, val: V): (u: (Raw<V>, Status))
    requires Shape(r)
    ensures Shape(u.0)
  {
    if r.RawHash? then RawSetHash(r.slots, r.used, key, val) else RawSetDict(r, key, val, 0)
  }

  // ---------------------------------------------------------------- kmap_get, kmap_remove, kmap_next

  /** A lookup ends with a record, without one, or by following a pointer that is not there. */
  datatype Answer = Found(slot: nat) | Missing | BadPointer

  /** hashmap_get from probe step i on. */
  function RawSearch<V>(t: seq<Slot<V>>, key: JString, i: nat): (a: Answer)
    requires |t| > 0 && i <= DELTA
    ensures a.Found? ==> a.slot < |t| && t[a.slot].Used? && t[a.slot].key == key
    decreases DELTA - i
  {
    if i == DELTA then Missing
    else
      var p := At(key, i, |t|);
      if HashOf(t[p]) != key.hash then RawSearch(t, key, i + 1)
      else if t[p].Free? then BadPointer
      else if t[p].key == key then Found(p)
      else RawSearch(t, key, i + 1)
  }

  /** dictmap_get from word i on. */
  function RawScan<V>(d: Raw<V>, key: JString, i: nat): (a: Answer)
    requires d.RawDict? && Shape(d) && i <= DICTMAP_THRESHOLD
    ensures a.Found? ==> a.slot < |d.slots| && d.slots[a.slot].Used? && d.slots[a.slot].key == key
    decreases DICTMAP_THRESHOLD - i
  {
    if i == DICTMAP_THRESHOLD then Missing
    else if d.words[i] != key.hash then RawScan(d, key, i + 1)
    else if d.slots[i].Free? then BadPointer
    else if d.slots[i].key == key then Found(i)
    else RawScan(d, key, i + 1)
  }

  /** The record kmap_get returns. */
  function RawFind<V>(r: Raw<V>, key: JString): (a: Answer)
    requires Shape(r)
    ensures a.Found? ==> a.slot < |r.slots| && r.slots[a.slot].Used? && r.slots[a.slot].key == key
  {
    if r.RawHash? then RawSearch(r.slots, key, 0) else RawScan(r, key, 0)
  }

  /** kmap_remove once it has found the record in slot p: its hash and key are cleared, the words stay. */
  function RawRemove<V>(r: Raw<V>, p: nat): (u: Raw<V>)
    requires Shape(r) && p < |r.slots| && r.used > 0
    ensures Shape(u)
  {
    r.(slots := r.slots[p := Free], used := r.used - 1)
  }

  /** The slot kmap_next returns for iterator index i; a dictionary is not looked at but counted. */
  function RawNext<V>(r: Raw<V>, i: nat): (p: Option<nat>)
    requires r.RawHash? ==> i <= |r.slots|
    ensures p.Some? ==> i <= p.value && (r.RawHash? ==> p.value < |r.slots|)
  {
    if r.RawDict? then (if i < r.used then Some(i) else None)
    else
      var q := NextUsed(Live(r.slots), i);
      if q == |r.slots| then None else Some(q)
  }

  /** Iteration meets exactly the records of the map. In a dictionary it counts up to used_size. */
  predicate Iterable<V>(r: Raw<V>) {
    r.RawDict? ==> r.used <= |r.slots| && forall i :: 0 <= i < |r.slots| ==> (r.slots[i].Used? <==> i < r.used)
  }

  /** No more records than used_size says. */
  predicate Counted<V>(r: Raw<V>) {
    UsedCount(r.slots) <= r.used
  }

  // ---------------------------------------------------------------- no record comes from nowhere

  ghost function Recs<V>(slots: seq<Slot<V>>): set<Slot<V>> {
    set s | s in slots && s.Used?
  }

  lemma {:induction false} WriteRecs<V>(t: seq<Slot<V>>, p: nat, s: Slot<V>)
    requires p < |t|
    ensures Recs(t[p := s]) <= Recs(t) + {s}
  {
    var u := t[p := s];
    forall r | r in Recs(u)
      ensures r in Recs(t) || r == s
    {
      var q :| 0 <= q < |u| && u[q] == r;
      assert q != p ==> t[q] == r;
    }
  }

  lemma {:induction false} PlaceRecs<V>(t: seq<Slot<V>>, key: JString, val: V)
    requires |t| > 0
    ensures Recs(Place(t, key, val).0) <= Recs(t) + {Used(key, val)}
  {
    var i := Probe(t, key, 0);
    if i < DELTA { WriteRecs(t, At(key, i, |t|), Used(key, val)); }
  }

  lemma {:induction false} AdvanceRecs<V>(src: seq<Slot<V>>, i: nat, t: seq<Slot<V>>)
    requires |t| > 0 && i < |src|
    ensures Recs(Advance(src, i, t)) <= Recs(t) + Recs(src)
  {
    if src[i].Used? {
      PlaceRecs(t, src[i].key, src[i].val);
      assert src[i] in Recs(src);
    }
  }

  lemma {:induction false} ReinsertRecs<V>(src: seq<Slot<V>>, i: nat, t: seq<Slot<V>>)
    requires |t| > 0 && i <= |src|
    ensures Recs(Reinsert(src, i, t)) <= Recs(t) + Recs(src)
    decreases |src| - i
  {
    if i < |src| {
      AdvanceRecs(src, i, t);
      ReinsertRecs(src, i + 1, Advance(src, i, t));
    }
  }

  lemma {:induction false} LiveRecs<V>(t: seq<Slot<V>>)
    ensures Recs(Live(t)) <= Recs(t)
  {
    forall r | r in Recs(Live(t))
      ensures r in Recs(t)
    {
      var q :| 0 <= q < |t| && Live(t)[q] == r;
      assert t[q] == r;
    }
  }

  lemma {:induction false} SetHashRecs<V>(t: seq<Slot<V>>, used: nat, key: JString, val: V)
    requires |t| > 0
    ensures Recs(RawSetHash(t, used, key, val).0.slots) <= Recs(t) + {Used(key, val)}
    decreases if |t| > MAX_SLOTS then 0 else MAX_SLOTS + 1 - |t|
  {
    var i := Probe(Live(t), key, 0);
    if i < DELTA {
      WriteRecs(t, At(key, i, |t|), Used(key, val));
    } else if 4 * |t| <= MAX_SLOTS {
      var g := Grow(Live(t));
      LiveRecs(t);
      ReinsertRecs(Live(t), 0, Fresh<V>(4 * |t|));
      assert Recs(Fresh<V>(4 * |t|)) == {};
      SetHashRecs(g, UsedCount(g), key, val);
    }
  }

  lemma {:induction false} SetDictRecs<V>(d: Raw<V>, key: JString, val: V, i: nat)
    requires d.RawDict? && Shape(d) && i <= DICTMAP_THRESHOLD
    ensures Recs(RawSetDict(d, key, val, i).0.slots) <= Recs(d.slots) + {Used(key, val)}
    decreases DICTMAP_THRESHOLD - i
  {
    if i == DICTMAP_THRESHOLD {
      var t := Convert(Live(d.slots));
      LiveRecs(d.slots);
      ReinsertRecs(Live(d.slots), 0, Fresh<V>(2 * DELTA));
      assert Recs(Fresh<V>(2 * DELTA)) == {};
      SetHashRecs(t, UsedCount(t), key, val);
    } else {
      WriteRecs(d.slots, i, Used(key, val));
      SetDictRecs(d, key, val, i + 1);
    }
  }

  /** Every record that a set leaves was there before or is the one it sets. */
  lemma {:induction false} SetRecs<V>(r: Raw<V>, key: JString, val: V)
    requires Shape(r)
    ensures Recs(RawSet(r, key, val).0.slots) <= Recs(r.slots) + {Used(key, val)}
  {
    if r.RawHash? { SetHashRecs(r.slots, r.used, key, val); } else { SetDictRecs(r, key, val, 0); }
  }

  // ---------------------------------------------------------------- maps in which nothing has gone wrong

  function WordsOf<V>(slots: seq<Slot<V>>): (words: seq<nat>)
    ensures |words| == |slots| && forall i :: 0 <= i < |words| ==> words[i] == HashOf(slots[i])
  {
    seq(|slots|, i requires 0 <= i < |slots| => HashOf(slots[i]))
  }

  /** The fields of a map as ObjectMap has it. */
  function Lift<V>(m: MapState<V>): (r: Raw<V>)
    ensures r.slots == m.slots
  {
    if m.hashed then RawHash(m.slots, UsedCount(m.slots)) else RawDict(WordsOf(m.slots), m.slots, UsedCount(m.slots))
  }

  /** No stored key has hash 0. */
  ghost predicate Clean<V>(m: MapState<V>) {
    && |m.slots| > 0 && (!m.hashed ==> |m.slots| == DICTMAP_THRESHOLD)
    && forall k :: k in Keys(m.slots) ==> k.hash != 0
  }

  lemma {:induction false} CleanIsLive<V>(slots: seq<Slot<V>>)
    requires forall k :: k in Keys(slots) ==> k.hash != 0
    ensures Live(slots) == slots && NonZero(slots)
  {
    forall p | 0 <= p < |slots| && slots[p].Used?
      ensures slots[p].key.hash != 0
    {
      assert slots[p].key in Keys(slots);
    }
  }

  lemma {:induction false} PlaceLifts<V>(t: seq<Slot<V>>, key: JString, val: V)
    requires |t| > 0 && Live(t) == t && NonZero(t) && key.hash != 0
    ensures RawPlace(t, key, val) == Place(t, key, val)
    ensures var (u, st) := Place(t, key, val);
      UsedCount(u) == UsedCount(t) + if st == Added then 1 else 0
  {
    var i := Probe(t, key, 0);
    if i < DELTA {
      UsedCountWrite(t, At(key, i, |t|), Used(key, val));
    }
  }

  lemma {:induction false} SetHashLifts<V>(t: seq<Slot<V>>, key: JString, val: V)
    requires |t| > 0 && key.hash != 0 && forall k :: k in Keys(t) ==> k.hash != 0
    ensures var (u, st) := SetHash(t, key, val);
      RawSetHash(t, UsedCount(t), key, val) == (RawHash(u, UsedCount(u)), st)
    decreases if |t| > MAX_SLOTS then 0 else MAX_SLOTS + 1 - |t|
  {
    CleanIsLive(t);
    PlaceLifts(t, key, val);
    RetryStep(t, key, val);
    if Place(t, key, val).1 == Failed && 4 * |t| <= MAX_SLOTS {
      ReinsertKeys(t, 0, Fresh<V>(4 * |t|));
      SetHashLifts(Grow(t), key, val);
    }
  }

  lemma {:induction false} SetDictLifts<V>(m: MapState<V>, key: JString, val: V, i: nat)
    requires Clean(m) && !m.hashed && key.hash != 0 && i <= DictSlot(m.slots, key, 0)
    ensures RawSetDict(Lift(m), key, val, i) == (Lift(SetMap(m, key, val).0), SetMap(m, key, val).1)
    decreases DICTMAP_THRESHOLD - i
  {
    var slots, stop := m.slots, DictSlot(m.slots, key, 0);
    CleanIsLive(slots);
    if i == DICTMAP_THRESHOLD {
      ReinsertKeys(slots, 0, Fresh<V>(2 * DELTA));
      SetHashLifts(Convert(slots), key, val);
    } else if i < stop {
      SetDictLifts(m, key, val, i + 1);
    } else {
      var written := slots[i := Used(key, val)];
      UsedCountWrite(slots, i, Used(key, val));
      assert WordsOf(written) == WordsOf(slots)[i := key.hash];
      assert slots[i].Used? ==> WordsOf(slots)[i := key.hash] == WordsOf(slots);
    }
  }

  /** A set of a key whose hash is not 0 does to the fields what ObjectMap says, and the map stays clean. */
  lemma {:induction false} SetLifts<V>(m: MapState<V>, key: JString, val: V)
    requires Clean(m) && key.hash != 0
    ensures RawSet(Lift(m), key, val) == (Lift(SetMap(m, key, val).0), SetMap(m, key, val).1)
    ensures Clean(SetMap(m, key, val).0)
  {
    SetMapKeys(m, key, val);
    if m.hashed {
      SetHashLifts(m.slots, key, val);
    } else {
      SetDictLifts(m, key, val, 0);
    }
  }

  lemma {:induction false} SearchLifts<V>(t: seq<Slot<V>>, key: JString, i: nat)
    requires |t| > 0 && NonZero(t) && key.hash != 0 && i <= DELTA
    ensures var j := Search(t, key, i); RawSearch(t, key, i) == if j == DELTA then Missing else Found(At(key, j, |t|))
    decreases DELTA - i
  {
    if i < DELTA { SearchLifts(t, key, i + 1); }
  }

  lemma {:induction false} ScanLifts<V>(m: MapState<V>, key: JString, i: nat)
    requires Clean(m) && !m.hashed && key.hash != 0 && i <= DICTMAP_THRESHOLD
    ensures var p := DictFind(m.slots, key, i);
      RawScan(Lift(m), key, i) == if p == DICTMAP_THRESHOLD then Missing else Found(p)
    decreases DICTMAP_THRESHOLD - i
  {
    CleanIsLive(m.slots);
    if i < DICTMAP_THRESHOLD { ScanLifts(m, key, i + 1); }
  }

  /** A lookup of a key whose hash is not 0 meets no bad pointer and finds what ObjectMap says. */
  lemma {:induction false} FindLifts<V>(m: MapState<V>, key: JString)
    requires Clean(m) && key.hash != 0
    ensures var p := FindMap(m, key); RawFind(Lift(m), key) == if p == |m.slots| then Missing else Found(p)
  {
    CleanIsLive(m.slots);
    if m.hashed { SearchLifts(m.slots, key, 0); } else { ScanLifts(m, key, 0); }
  }

  lemma {:induction false} LiftIsSound<V>(m: MapState<V>)
    requires Clean(m) && (!m.hashed ==> FreeLast(m.slots))
    ensures Shape(Lift(m)) && Iterable(Lift(m)) && Counted(Lift(m))
  {
    if !m.hashed { FreeLastCount(m.slots); }
  }

  /** The next record is the one ObjectMap says. */
  lemma {:induction false} NextLifts<V>(m: MapState<V>, i: nat)
    requires Clean(m) && i <= |m.slots|
    ensures RawNext(Lift(m), i) == NextMap(m, i)
  {
    CleanIsLive(m.slots);
  }

  /** The first record from i on: in a table one whose hash is not 0, in a dictionary any. */
  function NextRecord<V>(r: Raw<V>, i: nat): Option<nat>
    requires i <= |r.slots|
  {
    var p := NextUsed(if r.RawHash? then Live(r.slots) else r.slots, i);
    if p == |r.slots| then None else Some(p)
  }

  /** Iteration is right exactly when kmap_next answers the next record at every index. */
  lemma {:induction false} IterableIff<V>(r: Raw<V>)
    requires Shape(r)
    ensures Iterable(r) <==> forall i: nat :: i <= |r.slots| ==> RawNext(r, i) == NextRecord(r, i)
  {
    if r.RawDict? && forall i: nat :: i <= |r.slots| ==> RawNext(r, i) == NextRecord(r, i) {
      assert RawNext(r, |r.slots|) == NextRecord(r, |r.slots|);
      forall i | 0 <= i < |r.slots|
        ensures r.slots[i].Used? <==> i < r.used
      {
        assert RawNext(r, i) == NextRecord(r, i);
      }
    }
  }

  /** A removal from a hash table does to the fields what ObjectMap says. */
  lemma {:induction false} RemoveLifts<V>(m: MapState<V>, key: JString)
    requires Clean(m) && m.hashed && FindMap(m, key) < |m.slots|
    ensures UsedCount(m.slots) > 0 && RawRemove(Lift(m), FindMap(m, key)) == Lift(RemoveMap(m, key))
    ensures Clean(RemoveMap(m, key))
  {
    var p := FindMap(m, key);
    UsedCountWrite(m.slots, p, Free);
    var u := m.slots[p := Free];
    forall k | k in Keys(u)
      ensures k in Keys(m.slots)
    {
      var q :| 0 <= q < |u| && u[q].Used? && u[q].key == k;
      assert m.slots[q] == u[q];
    }
  }

  // ---------------------------------------------------------------- tables in which some key had hash 0

  /** A set of a key of hash 0 makes room for it, and leaves what it writes to be overwritten. */
  function Room<V>(t: seq<Slot<V>>, key: JString): (u: seq<Slot<V>>)
    requires |t| > 0
    ensures |u| > 0
    decreases if |t| > MAX_SLOTS then 0 else MAX_SLOTS + 1 - |t|
  {
    if Probe(t, key, 0) < DELTA || 4 * |t| > MAX_SLOTS then t else Room(Grow(t), key)
  }

  lemma {:induction false} PlaceLive<V>(t: seq<Slot<V>>, key: JString, val: V)
    requires |t| > 0
    ensures RawPlace(t, key, val).1 == Place(Live(t), key, val).1
    ensures Live(RawPlace(t, key, val).0) == if key.hash == 0 then Live(t) else Place(Live(t), key, val).0
  {
    var i := Probe(Live(t), key, 0);
    if i < DELTA {
      var p := At(key, i, |t|);
      var u := t[p := Used(key, val)];
      assert Live(u) == Live(t)[p := if key.hash == 0 then Free else Used(key, val)];
      assert key.hash == 0 ==> Live(t)[p].Free?;
    }
  }

  lemma {:induction false} LiveIsClean<V>(t: seq<Slot<V>>)
    ensures forall k :: k in Keys(Live(t)) ==> k.hash != 0
    ensures Keys(Live(t)) <= Keys(t)
  {
    forall k | k in Keys(Live(t))
      ensures k.hash != 0 && k in Keys(t)
    {
      var p :| 0 <= p < |t| && Live(t)[p].Used? && Live(t)[p].key == k;
      assert t[p] == Live(t)[p];
    }
  }

  /** Apart from records whose hash is 0, a set does to any table what it does to a clean one. */
  lemma {:induction false} SetHashLive<V>(t: seq<Slot<V>>, used: nat, key: JString, val: V)
    requires |t| > 0
    ensures var (u, st) := RawSetHash(t, used, key, val);
      && st == SetHash(Live(t), key, val).1
      && Live(u.slots) == if key.hash == 0 then Room(Live(t), key) else SetHash(Live(t), key, val).0
    decreases if |t| > MAX_SLOTS then 0 else MAX_SLOTS + 1 - |t|
  {
    PlaceLive(t, key, val);
    RetryStep(Live(t), key, val);
    if Place(Live(t), key, val).1 == Failed && 4 * |t| <= MAX_SLOTS {
      var g := Grow(Live(t));
      LiveIsClean(t);
      ReinsertKeys(Live(t), 0, Fresh<V>(4 * |t|));
      CleanIsLive(g);
      SetHashLive(g, UsedCount(g), key, val);
    }
  }

  lemma {:induction false} RoomKeeps<V>(t: seq<Slot<V>>, key: JString)
    requires Wf(t) && Dense(t) && |t| >= 4 && SafeToGrow(t)
    ensures var u := Room(t, key); Wf(u) && Dense(u) && |u| >= 4 && Keys(u) == Keys(t)
    decreases if |t| > MAX_SLOTS then 0 else MAX_SLOTS + 1 - |t|
  {
    if Probe(t, key, 0) == DELTA && 4 * |t| <= MAX_SLOTS {
      GrowKeeps(t);
      RoomKeeps(Grow(t), key);
    }
  }
}
