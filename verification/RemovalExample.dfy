/** Setting a key again after another one in its chain was removed stores it twice. */
module RemovalExample {
  import opened Basics
  import opened Table
  import opened Rehash
  import opened ObjectMap
  import opened Hash
  import opened LowHash

  lemma {:induction false} HomeIsFirst(key: JString)
    requires key.hash % 4 == 0
    ensures At(key, 0, 4) == 0 && At(key, 1, 4) == 1
  {
    WrapIsModulo(key.hash, 4);
    WrapTwice(0, 4);
    WrapTwice(1, 4);
  }

  lemma {:induction false} FirstSet<V>(a: JString, v: V)
    requires a.hash % 4 == 0
    ensures SetHash<V>([Free, Free, Free, Free], a, v) == ([Used(a, v), Free, Free, Free], Added)
  {
    var t: seq<Slot<V>> := [Free, Free, Free, Free];
    HomeIsFirst(a);
    assert Probe(t, a, 0) == 0;
    assert t[0 := Used(a, v)] == [Used(a, v), Free, Free, Free];
  }

  lemma {:induction false} SecondSet<V>(a: JString, v: V, b: JString, w: V)
    requires a.hash % 4 == 0 && b.hash % 4 == 0 && a != b
    ensures SetHash([Used(a, v), Free, Free, Free], b, w) == ([Used(a, v), Used(b, w), Free, Free], Added)
  {
    var t := [Used(a, v), Free, Free, Free];
    HomeIsFirst(b);
    assert Probe(t, b, 0) == Probe(t, b, 1) == 1;
    assert t[1 := Used(b, w)] == [Used(a, v), Used(b, w), Free, Free];
  }

  lemma {:induction false} FirstRemoved<V>(a: JString, v: V, b: JString, w: V)
    requires a.hash % 4 == 0 && a != b
    ensures Erase([Used(a, v), Used(b, w), Free, Free], a) == [Free, Used(b, w), Free, Free]
  {
    var t := [Used(a, v), Used(b, w), Free, Free];
    HomeIsFirst(a);
    assert Search(t, a, 0) == 0;
    assert t[0 := Free] == [Free, Used(b, w), Free, Free];
  }

  lemma {:induction false} SecondAgain<V>(b: JString, w: V, x: V)
    requires b.hash % 4 == 0
    ensures SetHash([Free, Used(b, w), Free, Free], b, x) == ([Used(b, x), Used(b, w), Free, Free], Added)
    ensures Erase([Used(b, x), Used(b, w), Free, Free], b) == [Free, Used(b, w), Free, Free]
  {
    var t, u := [Free, Used(b, w), Free, Free], [Used(b, x), Used(b, w), Free, Free];
    HomeIsFirst(b);
    assert Probe(t, b, 0) == 0 && Search(u, b, 0) == 0;
    assert t[0 := Used(b, x)] == u && u[0 := Free] == t;
  }

  lemma {:induction false} FourSlots<V>()
    ensures InitMap<V>(4) == MapState(true, [Free, Free, Free, Free])
  {
    assert Fresh<V>(4) == [Free, Free, Free, Free];
  }

  /** set a, set b, remove a, set b in a new map for four records. */
  function SetTwice<V>(a: JString, v: V, b: JString, w: V, x: V): (m: MapState<V>)
    ensures |m.slots| > 0 && m.hashed
  {
    var m := InitMap<V>(4);
    SetMap(RemoveMap(SetMap(SetMap(m, a, v).0, b, w).0, a), b, x).0
  }

  /** Two records hold b, the size counts both, and when b is removed its old value is there again. */
  lemma {:induction false} SetAfterRemove<V>(a: JString, v: V, b: JString, w: V, x: V)
    requires a.hash % 4 == 0 && b.hash % 4 == 0 && a != b
    ensures var m := SetTwice(a, v, b, w, x);
      && m.slots == [Used(b, x), Used(b, w), Free, Free] && !Unique(m.slots) && UsedCount(m.slots) == 2
      && GetMap(RemoveMap(m, b), b) == Some(w)
  {
    FourSlots<V>();
    FirstSet(a, v);
    var m1 := MapState(true, [Used(a, v), Free, Free, Free]);
    assert SetMap(InitMap<V>(4), a, v).0 == m1;
    SecondSet(a, v, b, w);
    var m2 := MapState(true, [Used(a, v), Used(b, w), Free, Free]);
    assert SetMap(m1, b, w).0 == m2;
    FirstRemoved(a, v, b, w);
    var m3 := MapState(true, [Free, Used(b, w), Free, Free]);
    assert RemoveMap(m2, a) == m3;
    SecondAgain(b, w, x);
    var m4 := MapState(true, [Used(b, x), Used(b, w), Free, Free]);
    assert SetMap(m3, b, x).0 == m4 && RemoveMap(m4, b) == m3;
    OldIsFound(b, w);
    TwoUsed(b, w, x);
  }

  lemma {:induction false} TwoUsed<V>(b: JString, w: V, x: V)
    ensures var t := [Used(b, x), Used(b, w), Free, Free]; UsedCount(t) == 2 && !Unique(t)
  {
    var t := [Used(b, x), Used(b, w), Free, Free];
    assert t[0].key == t[1].key;
    var u := [Used(b, x), Used(b, w), Free];
    var v := [Used(b, x), Used(b, w)];
    assert t[..3] == u && u[..2] == v && v[..1] == [Used(b, x)];
    assert UsedCount([Used(b, x)]) == 1;
    assert UsedCount(v) == 2;
    assert UsedCount(u) == 2;
  }

  lemma {:induction false} OldIsFound<V>(b: JString, w: V)
    requires b.hash % 4 == 0
    ensures GetMap(MapState(true, [Free, Used(b, w), Free, Free]), b) == Some(w)
  {
    var t := [Free, Used(b, w), Free, Free];
    HomeIsFirst(b);
    assert Search(t, b, 0) == Search(t, b, 1) == 1;
  }

  lemma {:induction false} QuarterOf(h: nat, low: nat)
    requires h % 128 == low && low % 4 == 0
    ensures h % 4 == 0
  {}

  /** The name a. */
  lemma {:induction false} NameA() returns (a: bytes)
    ensures |a| == 1 && 0 < a[0] < 98 && Fnv1a(a) % 4 == 0
  {
    a := OneLetterName(97, 44);
    QuarterOf(Fnv1a(a), 44);
  }

  /** The name e. */
  lemma {:induction false} NameE() returns (e: bytes)
    ensures |e| == 1 && e[0] > 100 && Fnv1a(e) % 4 == 0
  {
    e := OneLetterName(101, 96);
    QuarterOf(Fnv1a(e), 96);
  }

  /** The names a and e have such keys. */
  lemma {:induction false} SuchKeys() returns (a: bytes, e: bytes)
    ensures MakeKey(a).hash % 4 == 0 && MakeKey(e).hash % 4 == 0 && MakeKey(a) != MakeKey(e)
  {
    a := NameA();
    e := NameE();
    PlainKeys(a, e);
  }
}
