/** kmap_t with its fields updated in place, proved against the operations of RawMap for every key. */
module KMap {
  import opened Basics
  import opened Bits
  import opened Table
  import opened Rehash
  import opened ObjectMap
  import opened RawMap

  lemma {:induction false} MaskedIndex(x: nat, k: nat)
    ensures And(x, Pow2(k) - 1) == Wrap(x, Pow2(k))
  {
    AndMask(x, k);
    WrapIsModulo(x, Pow2(k));
  }

  lemma {:induction false} NextIndex(key: JString, i: nat, k: nat)
    ensures And(At(key, i, Pow2(k)) + 1, Pow2(k) - 1) == At(key, i + 1, Pow2(k))
  {
    var n := Pow2(k);
    MaskedIndex(At(key, i, n) + 1, k);
    WrapStep(Home(key, n) + i, n);
    WrapStep(At(key, i, n), n);
    WrapTwice(At(key, i, n), n);
  }

  lemma {:induction false} HomeIsMasked(key: JString, k: nat)
    ensures And(key.hash, Pow2(k) - 1) == At(key, 0, Pow2(k))
  {
    MaskedIndex(key.hash, k);
    WrapTwice(Home(key, Pow2(k)), Pow2(k));
  }

  /** One turn of the loop of hashmap_set_no_resize. */
  lemma {:induction false} ProbeStep<V>(t: seq<Slot<V>>, key: JString, i: nat)
    requires |t| > 0 && i < DELTA
    ensures var s := t[At(key, i, |t|)];
      Probe(Live(t), key, i) ==
        if HashOf(s) == 0 || (HashOf(s) == key.hash && s.key == key) then i else Probe(Live(t), key, i + 1)
  {}

  lemma {:induction false} StoredIsCounted<V>(t: seq<Slot<V>>, p: nat)
    requires Stored(t, p)
    ensures UsedCount(t) > 0
  {
    UsedCountWrite(t, p, Free);
  }

  lemma {:induction false} ReinsertStep<V>(src: seq<Slot<V>>, i: nat, t: seq<Slot<V>>)
    requires i < |src| && |t| > 0
    ensures Reinsert(src, i, t) ==
      Reinsert(src, i + 1, if src[i].Used? then Place(t, src[i].key, src[i].val).0 else t)
  {}

  lemma {:induction false} Pow2Grows(k: nat)
    ensures k < Pow2(k)
  {
    if k > 0 { Pow2Grows(k - 1); }
  }

  class KMap<V> {
    var hashed: bool           // the dispatch pointer: HASH_API or DICT_API
    var records: array<Slot<V>>
    var used: nat
    var word: seq<nat>         // hash_list of a dictionary; word[0] doubles as record_size_mask

    /** The part of the invariant that a table under construction keeps; k is its number of index bits. */
    ghost predicate Shaped(k: nat)
      reads this, records
    {
      && records.Length == Pow2(k) && |word| == DICTMAP_THRESHOLD && word[0] == records.Length - 1
      && UsedCount(records[..]) <= used
    }

    ghost predicate Valid()
      reads this, records
    {
      if hashed then exists k: nat :: Shaped(k)
      else records.Length == |word| == DICTMAP_THRESHOLD && UsedCount(records[..]) <= used
    }

    /** Right after a resize no record has hash 0 and used_size counts the records. */
    ghost predicate Tidy()
      reads this, records
    {
      NonZero(records[..]) && used == UsedCount(records[..])
    }

    ghost function State(): (r: Raw<V>)
      reads this, records
      ensures Valid() ==> Shape(r)
    {
      if hashed then RawHash(records[..], used) else RawDict(word, records[..], used)
    }

    constructor (size: nat)
      ensures Valid() && fresh(records)
      ensures State() == Lift(InitMap(size))
    {
      var n := if size > DICTMAP_THRESHOLD then Pow2(Log2(size)) else DICTMAP_THRESHOLD;
      hashed := size > DICTMAP_THRESHOLD;
      records := new Slot<V>[n](_ => Free);
      used := 0;
      word := if size > DICTMAP_THRESHOLD then [n - 1, 0, 0] else [0, 0, 0];
      new;
      assert records[..] == Fresh<V>(n);
      UsedCountFresh<V>(n);
      assert size > DICTMAP_THRESHOLD ==> Shaped(Log2(size));
    }

    /** map_record_copy. */
    method Write(p: nat, s: Slot<V>)
      requires p < records.Length && s.Used?
      modifies records
      ensures records[..] == old(records[..])[p := s]
      ensures UsedCount(records[..]) == UsedCount(old(records[..])) + (if old(records[p]).Free? then 1 else 0)
    {
      UsedCountWrite(records[..], p, s);
      records[p] := s;
    }

    /** The probe loop of hashmap_set_no_resize: the step it stops at and the slot it then looks at. */
    method FindRoom(key: JString, ghost k: nat) returns (i: nat, idx: nat)
      requires Shaped(k)
      ensures i == Probe(Live(records[..]), key, 0) && idx == At(key, i, records.Length)
    {
      ghost var t := records[..];
      idx, i := And(key.hash, word[0]), 0;
      HomeIsMasked(key, k);
      while i < DELTA
        invariant i <= DELTA && idx == At(key, i, |t|) && Probe(Live(t), key, 0) == Probe(Live(t), key, i)
      {
        var r := records[idx];
        assert r == t[idx];
        ProbeStep(t, key, i);
        if HashOf(r) == 0 || (HashOf(r) == key.hash && r.key == key) {
          return;
        }
        NextIndex(key, i, k);
        idx, i := And(idx + 1, word[0]), i + 1;
      }
    }

    /** hashmap_set_no_resize. */
    method SetNoResize(key: JString, val: V, ghost k: nat) returns (st: Status)
      requires Shaped(k)
      modifies `used, records
      ensures Shaped(k)
      ensures (records[..], st) == RawPlace(old(records[..]), key, val)
      ensures used == if st == Added then old(used) + 1 else old(used)
    {
      var i, idx := FindRoom(key, k);
      if i == DELTA {
        return Failed;
      }
      st := if HashOf(records[idx]) == 0 then Added else Update;
      Write(idx, Used(key, val));
      used := if st == Added then used + 1 else used;
    }

    /** One record of the old table in hashmap_record_resize; the result of placing it is not looked at. */
    method MoveIn(r: Slot<V>, ghost k: nat)
      requires Shaped(k) && Tidy()
      modifies `used, records
      ensures Shaped(k) && Tidy()
      ensures records[..] == if HashOf(r) != 0 then Place(old(records[..]), r.key, r.val).0 else old(records[..])
    {
      if HashOf(r) != 0 {
        ghost var t := records[..];
        assert Live(t) == t;
        PlaceLifts(t, r.key, r.val);
        var st := SetNoResize(r.key, r.val, k);
      }
    }

    /** The loop of hashmap_record_resize. */
    method MoveAll(head: array<Slot<V>>, oldsize: nat, ghost k: nat)
      requires Shaped(k) && Tidy() && head != records && oldsize == head.Length
      modifies `used, records
      ensures Shaped(k) && Tidy() && records[..] == Reinsert(Live(head[..]), 0, old(records[..]))
    {
      ghost var src, start := Live(head[..]), records[..];
      var i: nat := 0;
      while i < oldsize
        invariant i <= oldsize && Live(head[..]) == src && Shaped(k) && Tidy()
        invariant Reinsert(src, 0, start) == Reinsert(src, i, records[..])
      {
        ReinsertStep(src, i, records[..]);
        assert src[i] == if HashOf(head[i]) == 0 then Free else head[i];
        MoveIn(head[i], k);
        i := i + 1;
      }
    }

    /** hashmap_record_resize, which doubles the size it is given. */
    method Resize(size: nat, ghost k: nat)
      requires word != [] && word[0] + 1 == records.Length && |word| == DICTMAP_THRESHOLD && 2 * size == Pow2(k)
      modifies this
      ensures hashed == old(hashed) && fresh(records) && Shaped(k) && Tidy()
      ensures records[..] == Reinsert(Live(old(records[..])), 0, Fresh(2 * size))
    {
      var oldsize, head := word[0] + 1, records;
      var newsize := size * 2;
      used := 0;
      word := word[0 := newsize - 1];
      records := new Slot<V>[newsize](_ => Free);
      assert records[..] == Fresh<V>(newsize);
      UsedCountFresh<V>(newsize);
      MoveAll(head, oldsize, k);
    }

    /** The resize of hashmap_set after a failed placement: four times as many slots. */
    method Enlarge(ghost k: nat)
      requires hashed && Shaped(k)
      modifies this
      ensures hashed && fresh(records) && Shaped(k + 2) && Tidy()
      ensures records[..] == Grow(Live(old(records[..])))
    {
      assert Pow2(k + 2) == 2 * Pow2(k + 1) == 4 * Pow2(k);
      Resize((word[0] + 1) * 2, k + 2);
    }

    /** One round of the retry loop: place, or fail and leave four times as many slots. */
    method Round(key: JString, val: V, ghost k: nat) returns (st: Status)
      requires hashed && Shaped(k)
      modifies this, records
      ensures hashed && (records == old(records) || fresh(records))
      ensures st != Failed ==> Shaped(k) && (State(), st) == RawSetHash(old(records[..]), old(used), key, val)
      ensures st == Failed ==> Shaped(k + 2) && 4 * old(records.Length) <= MAX_SLOTS
      ensures st == Failed ==>
        RawSetHash(records[..], used, key, val) == RawSetHash(old(records[..]), old(used), key, val)
    {
      st := SetNoResize(key, val, k);
      if st == Failed {
        if 4 * records.Length > MAX_SLOTS {
          st := Exhausted;
        } else {
          Enlarge(k);
        }
      }
    }

    /** hashmap_set. It gives up where C's 32-bit table size would overflow. */
    method HashSet(key: JString, val: V, ghost bits: nat) returns (st: Status)
      requires hashed && Shaped(bits)
      modifies this, records
      ensures hashed && Valid() && (records == old(records) || fresh(records))
      ensures (State(), st) == RawSetHash(old(records[..]), old(used), key, val)
    {
      ghost var k: nat := bits;
      st := Failed;
      while st == Failed
        invariant hashed && Shaped(k) && (records == old(records) || fresh(records))
        invariant if st == Failed
                  then RawSetHash(old(records[..]), old(used), key, val) == RawSetHash(records[..], used, key, val)
                  else (State(), st) == RawSetHash(old(records[..]), old(used), key, val)
        decreases st == Failed, if st == Failed then MAX_SLOTS + 1 - k else 0
      {
        assert k < Pow2(k) by { Pow2Grows(k); }
        st := Round(key, val, k);
        k := if st == Failed then k + 2 else k;
      }
    }

    /** dictmap_convert2hashmap. */
    method ConvertToHash()
      requires !hashed && Valid()
      modifies this
      ensures hashed && fresh(records) && Shaped(5) && Tidy()
      ensures records[..] == Convert(Live(old(records[..])))
    {
      hashed := true;
      word := word[0 := DICTMAP_THRESHOLD - 1];
      assert Pow2(5) == 2 * Pow2(4) && Pow2(4) == 4 * Pow2(2) && Pow2(2) == 4;
      Resize(DELTA, 5);
    }

    /** A record of the dictionary is written, and the word that goes with it. */
    method DictWrite(i: nat, key: JString, val: V, ghost d: Raw<V>) returns (st: Status)
      requires !hashed && Valid() && i < DICTMAP_THRESHOLD && State() == d
      requires word[i] == 0 || (word[i] == key.hash && records[i].Used? && records[i].key == key)
      modifies this, records
      ensures Valid() && records == old(records) && (State(), st) == RawSetDict(d, key, val, i)
    {
      st := if word[i] == 0 then Added else Update;
      Write(i, Used(key, val));
      if st == Added {
        word, used := word[i := key.hash], used + 1;
      }
    }

    /** dictmap_set. A record without a key that is to be compared ends it. */
    method DictSet(key: JString, val: V) returns (st: Status)
      requires !hashed && Valid()
      modifies this, records
      ensures Valid() && (records == old(records) || fresh(records))
      ensures (State(), st) == RawSetDict(old(State()), key, val, 0)
    {
      ghost var d := State();
      var i := 0;
      while i < DICTMAP_THRESHOLD
        invariant i <= DICTMAP_THRESHOLD && !hashed && Valid() && State() == d && records == old(records)
        invariant RawSetDict(d, key, val, 0) == RawSetDict(d, key, val, i)
      {
        var hash, r := word[i], records[i];
        assert r == d.slots[i];
        if hash != 0 && hash == key.hash && r.Free? {
          return Crashed;
        } else if hash == 0 || (hash == key.hash && r.key == key) {
          st := DictWrite(i, key, val, d);
          return;
        }
        i := i + 1;
      }
      ConvertToHash();
      st := HashSet(key, val, 5);
    }

    /** kmap_set, by the dispatch pointer. */
    method Set(key: JString, val: V) returns (st: Status)
      requires Valid()
      modifies this, records
      ensures Valid() && (records == old(records) || fresh(records))
      ensures (State(), st) == RawSet(old(State()), key, val)
    {
      if hashed {
        ghost var k: nat :| Shaped(k);
        st := HashSet(key, val, k);
      } else {
        st := DictSet(key, val);
      }
    }

    /** hashmap_get. */
    method HashFind(key: JString) returns (a: Answer)
      requires hashed && Valid()
      ensures a == RawFind(State(), key)
    {
      ghost var k: nat :| Shaped(k);
      ghost var t := records[..];
      var idx, i := And(key.hash, word[0]), 0;
      HomeIsMasked(key, k);
      while i < DELTA
        invariant i <= DELTA && idx == At(key, i, |t|) && RawSearch(t, key, 0) == RawSearch(t, key, i)
      {
        var r := records[idx];
        assert r == t[idx];
        if HashOf(r) == key.hash {
          if r.Free? {
            return BadPointer;
          } else if r.key == key {
            return Found(idx);
          }
        }
        NextIndex(key, i, k);
        idx, i := And(idx + 1, word[0]), i + 1;
      }
      return Missing;
    }

    /** dictmap_get. */
    method DictLookup(key: JString) returns (a: Answer)
      requires !hashed && Valid()
      ensures a == RawFind(State(), key)
    {
      ghost var d := State();
      var i := 0;
      while i < DICTMAP_THRESHOLD
        invariant i <= DICTMAP_THRESHOLD && RawScan(d, key, 0) == RawScan(d, key, i)
      {
        if key.hash == word[i] {
          var r := records[i];
          assert r == d.slots[i];
          if r.Free? {
            return BadPointer;
          } else if r.key == key {
            return Found(i);
          }
        }
        i := i + 1;
      }
      return Missing;
    }

    /** kmap_get. */
    method Find(key: JString) returns (a: Answer)
      requires Valid()
      ensures a == RawFind(State(), key)
    {
      if hashed {
        a := HashFind(key);
      } else {
        a := DictLookup(key);
      }
    }

    /** kmap_get followed by the read of the record's value. */
    method Get(key: JString) returns (a: Answer, val: Option<V>)
      requires Valid()
      ensures a == RawFind(State(), key)
      ensures val == if a.Found? then Some(State().slots[a.slot].val) else None
    {
      a := Find(key);
      val := if a.Found? then Some(records[a.slot].val) else None;
    }

    /** kmap_remove. */
    method Remove(key: JString) returns (a: Answer)
      requires Valid()
      modifies `used, records
      ensures Valid()
      ensures a == RawFind(old(State()), key)
      ensures a.Found? ==> old(used) > 0 && State() == RawRemove(old(State()), a.slot)
      ensures !a.Found? ==> State() == old(State())
    {
      ghost var k: nat := 0;
      if hashed {
        k :| Shaped(k);
      }
      a := Find(key);
      if a.Found? {
        ghost var t := records[..];
        StoredIsCounted(t, a.slot);
        UsedCountWrite(t, a.slot, Free);
        records[a.slot] := Free;
        used := used - 1;
        assert records[..] == t[a.slot := Free];
        assert hashed ==> Shaped(k);
      }
    }

    /** kmap_next at iterator index i: the index of the record returned, None for NULL. */
    method Next(i: nat) returns (r: Option<nat>)
      requires Valid() && (hashed ==> i <= records.Length)
      ensures r == RawNext(State(), i)
    {
      if !hashed {
        return if i < used then Some(i) else None;
      }
      ghost var t := Live(records[..]);
      var p := i;
      while p < records.Length
        invariant i <= p <= records.Length
        invariant NextUsed(t, i) == NextUsed(t, p)
      {
        if HashOf(records[p]) != 0 {
          return Some(p);
        }
        p := p + 1;
      }
      return None;
    }

    /** kmap_size. */
    method Size() returns (n: nat)
      requires Valid()
      ensures n == State().used
      ensures forall m: MapState<V> :: WfMap(m) && State() == Lift(m) ==> n == |MapView(m)|
    {
      n := used;
      forall m: MapState<V> | WfMap(m) && State() == Lift(m)
        ensures n == |MapView(m)|
      {
        UsedCountIsKeys(m.slots);
        assert MapView(m).Keys == Keys(m.slots);
      }
    }
  }
}
