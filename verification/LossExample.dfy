/**
 A JSON object of which the parser drops a member: sixteen names whose home is the last of 32 slots and
 stays at slot 31 of 128, then one whose home is slot 0, later slot 32, then one more for the last slot,
 which makes the table grow. Fifteen of the sixteen have wrapped to the front, so the rehash meets them
 before the record at slot 31.
 */
module LossExample {
  import opened Basics
  import opened Bits
  import opened Table
  import opened Rehash
  import opened Load
  import opened Growth
  import opened Ending
  import opened ObjectMap
  import opened RawMap
  import opened Hash
  import opened LowHash
  import opened EqualNames
  import opened Json
  import opened ParserSpec
  import opened Objects
  import opened ObjectKeys

  // ---------------------------------------------------------------- the table, in the order the names are set

  /** The home of name i among 128 slots. */
  function HomeOf(i: nat): nat {
    if i < DELTA then 31 else if i == DELTA then 32 else 127
  }

  /** Eighteen different names that have these homes. */
  ghost predicate Crowding(names: seq<bytes>) {
    && |names| == 18
    && (forall i: nat :: i < 18 ==> names[i] != [] && 0 !in names[i] && Fnv1a(names[i]) % 128 == HomeOf(i))
    && (forall i, j :: 0 <= i < j < 18 ==> names[i] != names[j])
  }

  function KeyOf(names: seq<bytes>, i: nat): JString
    requires i < |names|
  {
    MakeKey(names[i])
  }

  lemma {:induction false} KeysDiffer(names: seq<bytes>, i: nat, j: nat)
    requires Crowding(names) && i < 18 && j < 18 && i != j
    ensures KeyOf(names, i) != KeyOf(names, j)
  {
    PlainKeys(names[i], names[j]);
  }

  /** The 32 slots after the first m of the names of home 31. */
  function Filled<V>(names: seq<bytes>, vals: seq<V>, m: nat): (t: seq<Slot<V>>)
    requires |names| == |vals| == 18 && m <= DELTA
    ensures |t| == 32
  {
    seq(32, p requires 0 <= p < 32 =>
      if p == 31 && m > 0 then Used(KeyOf(names, 0), vals[0])
      else if p + 1 < m then Used(KeyOf(names, p + 1), vals[p + 1]) else Free)
  }

  /** And after the one of home 0. */
  function Packed<V>(names: seq<bytes>, vals: seq<V>): (t: seq<Slot<V>>)
    requires |names| == |vals| == 18
    ensures |t| == 32
  {
    Filled(names, vals, DELTA)[15 := Used(KeyOf(names, DELTA), vals[DELTA])]
  }

  lemma {:induction false} Homes(names: seq<bytes>, i: nat)
    requires Crowding(names) && i < 18
    ensures Home(KeyOf(names, i), 128) == HomeOf(i)
    ensures Home(KeyOf(names, i), 32) == (if i == DELTA then 0 else 31)
    ensures Fnv1a(names[i]) != 0
  {
    var h := Fnv1a(names[i]);
    WrapIsModulo(h, 32);
    WrapIsModulo(h, 128);
    var q := h / 128;
    DivModUnique(h, 32, 4 * q + HomeOf(i) / 32, HomeOf(i) % 32);
  }

  lemma {:induction false} FromLast(key: JString, d: nat)
    requires d < DELTA && Home(key, 32) == 31
    ensures At(key, d, 32) == (if d == 0 then 31 else d - 1)
  {
    WrapTwice(if d == 0 then 31 else d - 1, 32);
  }

  lemma {:induction false} FromFirst(key: JString, d: nat)
    requires d < DELTA && Home(key, 32) == 0
    ensures At(key, d, 32) == d
  {
    WrapTwice(d, 32);
  }

  lemma {:induction false} FilledProbe<V>(names: seq<bytes>, vals: seq<V>, m: nat)
    requires Crowding(names) && |vals| == 18 && m < DELTA
    ensures Probe(Filled(names, vals, m), KeyOf(names, m), 0) == m
    ensures At(KeyOf(names, m), m, 32) == (if m == 0 then 31 else m - 1)
  {
    var t, key := Filled(names, vals, m), KeyOf(names, m);
    var r := Probe(t, key, 0);
    Homes(names, m);
    FromLast(key, m);
    assert t[At(key, m, 32)].Free?;
    forall j: nat | j < m
      ensures t[At(key, j, 32)] == Used(KeyOf(names, j), vals[j]) && KeyOf(names, j) != key
    {
      FromLast(key, j);
      KeysDiffer(names, j, m);
    }
  }

  /** Setting the names of home 31 one after the other in an empty table of 32 slots leads there. */
  lemma {:induction false} FilledStep<V>(names: seq<bytes>, vals: seq<V>, m: nat)
    requires Crowding(names) && |vals| == 18 && m < DELTA
    ensures Filled(names, vals, 0) == Fresh(32)
    ensures Place(Filled(names, vals, m), KeyOf(names, m), vals[m]) == (Filled(names, vals, m + 1), Added)
  {
    FilledProbe(names, vals, m);
    var t, key := Filled(names, vals, m), KeyOf(names, m);
    assert t[At(key, m, 32) := Used(key, vals[m])] == Filled(names, vals, m + 1);
  }

  lemma {:induction false} LateProbe<V>(names: seq<bytes>, vals: seq<V>)
    requires Crowding(names) && |vals| == 18
    ensures var t, key := Filled(names, vals, DELTA), KeyOf(names, DELTA);
      Probe(t, key, 0) == 15 && At(key, 15, 32) == 15 && t[15].Free?
  {
    var t, key := Filled(names, vals, DELTA), KeyOf(names, DELTA);
    Homes(names, DELTA);
    FromFirst(key, 15);
    assert t[At(key, 15, 32)].Free?;
    forall j: nat | j < 15
      ensures t[At(key, j, 32)] == Used(KeyOf(names, j + 1), vals[j + 1]) && KeyOf(names, j + 1) != key
    {
      FromFirst(key, j);
      KeysDiffer(names, j + 1, DELTA);
    }
  }

  lemma {:induction false} PackedStep<V>(names: seq<bytes>, vals: seq<V>)
    requires Crowding(names) && |vals| == 18
    ensures Place(Filled(names, vals, DELTA), KeyOf(names, DELTA), vals[DELTA]) == (Packed(names, vals), Added)
  {
    LateProbe(names, vals);
  }

  /** When the table is packed, slot p holds name Holder(p). */
  function Holder(p: nat): (i: nat)
    requires p < DELTA || p == 31
    ensures i <= DELTA
  {
    if p == 31 then 0 else p + 1
  }

  lemma {:induction false} PackedAt<V>(names: seq<bytes>, vals: seq<V>, p: nat)
    requires Crowding(names) && |vals| == 18 && p < 32
    ensures var s := Packed(names, vals)[p];
      if p < DELTA || p == 31 then s == Used(KeyOf(names, Holder(p)), vals[Holder(p)]) else s.Free?
  {}

  lemma {:induction false} PackedSound<V>(names: seq<bytes>, vals: seq<V>)
    requires Crowding(names) && |vals| == 18
    ensures var t := Packed(names, vals);
      Wf(t) && Dense(t) && KeyOf(names, 17) !in Keys(t) && Probe(t, KeyOf(names, 17), 0) == DELTA
  {
    var t, key := Packed(names, vals), KeyOf(names, 17);
    forall p: nat | p < 32
      ensures if p < DELTA || p == 31 then t[p] == Used(KeyOf(names, Holder(p)), vals[Holder(p)]) else t[p].Free?
    {
      PackedAt(names, vals, p);
    }
    forall i: nat | i < 18
      ensures Home(KeyOf(names, i), 32) == (if i == DELTA then 0 else 31)
      ensures i < 17 ==> KeyOf(names, i) != key
    {
      Homes(names, i);
      if i < 17 { KeysDiffer(names, i, 17); }
    }
    forall i: nat, j: nat | i < j < 18
      ensures KeyOf(names, i) != KeyOf(names, j)
    {
      KeysDiffer(names, i, j);
    }
    forall k: JString, d: nat | d < DELTA && Home(k, 32) == 31
      ensures At(k, d, 32) == (if d == 0 then 31 else d - 1)
    {
      FromLast(k, d);
    }
    forall k: JString, d: nat | d < DELTA && Home(k, 32) == 0
      ensures At(k, d, 32) == d
    {
      FromFirst(k, d);
    }
  }

  // ---------------------------------------------------------------- the loss

  /** The names in the first m slots, as a set of keys. */
  lemma {:induction false} WrappedKeys(names: seq<bytes>, m: nat) returns (s: set<JString>)
    requires Crowding(names) && m <= 15
    ensures |s| == m && forall k :: k in s <==> exists i: nat :: 1 <= i <= m && k == KeyOf(names, i)
  {
    s := {};
    if m > 0 {
      s := WrappedKeys(names, m - 1);
      forall i: nat | 1 <= i < m
        ensures KeyOf(names, i) != KeyOf(names, m)
      {
        KeysDiffer(names, i, m);
      }
      s := s + {KeyOf(names, m)};
    }
  }

  /** At the turn of the record in slot 31 every slot of its new window is overcrowded. */
  lemma {:induction false} Overcrowded<V>(names: seq<bytes>, vals: seq<V>, d: nat)
    requires Crowding(names) && |vals| == 18 && d < DELTA
    ensures !Roomy(Packed(names, vals), 31, 31 + d, 128)
  {
    var t, q := Packed(names, vals), 31 + d;
    var s := WrappedKeys(names, 15);
    var crowd := Crowd(t, 31, q, d, 128);
    forall k | k in s
      ensures k in crowd
    {
      var i: nat :| 1 <= i <= 15 && k == KeyOf(names, i);
      Homes(names, i);
      PackedAt(names, vals, i - 1);
      assert t[i - 1].key == k;
    }
    if d == 15 {
      var late := KeyOf(names, DELTA);
      Homes(names, DELTA);
      PackedAt(names, vals, 15);
      assert t[15].key == late && late in crowd;
      forall k | k in s
        ensures k != late
      {
        var i: nat :| 1 <= i <= 15 && k == KeyOf(names, i);
        KeysDiffer(names, i, DELTA);
      }
      SubsetSize(s + {late}, crowd);
    } else {
      SubsetSize(s, crowd);
    }
  }

  lemma {:induction false} PackedLoses<V>(names: seq<bytes>, vals: seq<V>)
    requires Crowding(names) && |vals| == 18
    ensures !KeepsAll(Packed(names, vals), 128)
  {
    var t := Packed(names, vals);
    Homes(names, 0);
    PackedAt(names, vals, 31);
    forall d: nat | d < DELTA
      ensures !Roomy(t, 31, At(t[31].key, d, 128), 128)
    {
      WrapTwice(31 + d, 128);
      Overcrowded(names, vals, d);
    }
    assert Stored(t, 31) && !RoomFor(t, 31, 128);
  }

  /** The last name finds its home among 128 slots, far from all the others. */
  lemma {:induction false} LastFits<V>(names: seq<bytes>, vals: seq<V>)
    requires Crowding(names) && |vals| == 18
    ensures SetHash(Packed(names, vals), KeyOf(names, 17), vals[17]).1 != Exhausted
  {
    var t, key := Packed(names, vals), KeyOf(names, 17);
    KeysFit(t) by { PackedSound(names, vals); }
    Homes(names, 17);
    forall k | k in Keys(t)
      ensures Dist(k, 127, 128) >= 95
    {
      var p: nat :| p < 32 && t[p].Used? && t[p].key == k;
      PackedAt(names, vals, p);
      Homes(names, Holder(p));
    }
    forall a: nat | a < 128
      ensures |Near(Keys(t), 127, a, 128)| <= a
    {
      if a < 95 {
        assert Near(Keys(t), 127, a, 128) == {};
      } else {
        SubsetSize(Near(Keys(t), 127, a, 128), Keys(t));
      }
    }
    assert At(key, 0, 128) == 127 by { WrapTwice(127, 128); }
    assert RoomyFor(Keys(t), At(key, 0, 128), 128);
    assert Reaches(4 * |t|, 128);
    RoomEnds(t, key, vals[17]);
  }

  /** So the set of the last name drops another one. */
  lemma {:induction false} LastSetLoses<V>(names: seq<bytes>, vals: seq<V>)
    requires Crowding(names) && |vals| == 18
    ensures var (u, s) := SetHash(Packed(names, vals), KeyOf(names, 17), vals[17]);
      s != Exhausted && !(Keys(Packed(names, vals)) <= Keys(u))
  {
    var t, key := Packed(names, vals), KeyOf(names, 17);
    PackedSound(names, vals);
    PackedLoses(names, vals);
    LastFits(names, vals);
    SetLoses(t, key, vals[17]);
  }

  // ---------------------------------------------------------------- the object

  /** The values as records of the object. */
  function Held(names: seq<bytes>, vals: seq<Json>): (members: seq<Member>)
    requires |names| == |vals| == 18
    ensures |members| == 18 && forall i :: 0 <= i < 18 ==> members[i] == Member(names[i], vals[i])
  {
    seq(18, i requires 0 <= i < 18 => Member(names[i], vals[i]))
  }

  /** One more pair, popped from the end of the list. */
  lemma {:induction false} BuildOne(t: seq<Slot<Member>>, u: seq<Slot<Member>>,
      names: seq<bytes>, vals: seq<Json>, pairs: seq<(bytes, Json)>, i: nat)
    requires Crowding(names) && |vals| == 18 && i < 18 && |t| > 0
    requires pairs != [] && pairs[|pairs| - 1] == (names[i], vals[i])
    requires var (slots, st) := SetHash(t, KeyOf(names, i), Held(names, vals)[i]); slots == u && st != Exhausted
    ensures Build(MapState(true, t), pairs) == Build(MapState(true, u), pairs[..|pairs| - 1])
  {}

  /** The pairs as they stand in the text: the name that is set first comes last. */
  function PairsOf(names: seq<bytes>, vals: seq<Json>, m: nat): (pairs: seq<(bytes, Json)>)
    requires |names| == |vals| == 18 && m <= 18
    ensures |pairs| == m && forall i :: 0 <= i < m ==> pairs[i] == (names[17 - i], vals[17 - i])
  {
    seq(m, i requires 0 <= i < m => (names[17 - i], vals[17 - i]))
  }

  /** One of the sixteen names of home 31. */
  lemma {:induction false} BuildFilledStep(names: seq<bytes>, vals: seq<Json>, m: nat)
    requires Crowding(names) && |vals| == 18 && m < DELTA
    ensures Build(MapState(true, Filled(names, Held(names, vals), m)), PairsOf(names, vals, 18 - m))
      == Build(MapState(true, Filled(names, Held(names, vals), m + 1)), PairsOf(names, vals, 17 - m))
  {
    var members, pairs := Held(names, vals), PairsOf(names, vals, 18 - m);
    var t := Filled(names, members, m);
    FilledStep(names, members, m);
    RetryStep(t, KeyOf(names, m), members[m]);
    BuildOne(t, Filled(names, members, m + 1), names, vals, pairs, m);
    assert pairs[..17 - m] == PairsOf(names, vals, 17 - m);
  }

  lemma {:induction false} BuildFilled(names: seq<bytes>, vals: seq<Json>, m: nat)
    requires Crowding(names) && |vals| == 18 && m <= DELTA
    ensures Build(MapState(true, Filled(names, Held(names, vals), 0)), PairsOf(names, vals, 18))
      == Build(MapState(true, Filled(names, Held(names, vals), m)), PairsOf(names, vals, 18 - m))
  {
    if m > 0 {
      BuildFilled(names, vals, m - 1);
      BuildFilledStep(names, vals, m - 1);
    }
  }

  lemma {:induction false} StartsEmpty()
    ensures InitMap<Member>(18) == MapState(true, Fresh(32))
  {
    assert BitLength(17) == 1 + BitLength(8) && BitLength(8) == 1 + BitLength(4) && BitLength(4) == 3;
    assert Pow2(5) == 2 * Pow2(4) && Pow2(4) == 16;
  }

  lemma {:induction false} BuildPacked(names: seq<bytes>, vals: seq<Json>)
    requires Crowding(names) && |vals| == 18
    ensures Build(MapState(true, Filled(names, Held(names, vals), DELTA)), PairsOf(names, vals, 2))
      == Build(MapState(true, Packed(names, Held(names, vals))), PairsOf(names, vals, 1))
  {
    var members := Held(names, vals);
    var t := Filled(names, members, DELTA);
    PackedStep(names, members);
    RetryStep(t, KeyOf(names, DELTA), members[DELTA]);
    BuildOne(t, Packed(names, members), names, vals, PairsOf(names, vals, 2), DELTA);
    assert PairsOf(names, vals, 2)[..1] == PairsOf(names, vals, 1);
  }

  lemma {:induction false} BuildLast(names: seq<bytes>, vals: seq<Json>)
    requires Crowding(names) && |vals| == 18
    ensures Build(MapState(true, Packed(names, Held(names, vals))), PairsOf(names, vals, 1))
      == Some(MapState(true, SetHash(Packed(names, Held(names, vals)), KeyOf(names, 17), Held(names, vals)[17]).0))
  {
    var members := Held(names, vals);
    var t := Packed(names, members);
    LastFits(names, members);
    BuildOne(t, SetHash(t, KeyOf(names, 17), members[17]).0, names, vals, PairsOf(names, vals, 1), 17);
    assert PairsOf(names, vals, 1)[..0] == [];
  }

  lemma {:induction false} AMemberIsLost<V>(names: seq<bytes>, vals: seq<V>) returns (i: nat)
    requires Crowding(names) && |vals| == 18
    ensures i < 18 && KeyOf(names, i) !in Keys(SetHash(Packed(names, vals), KeyOf(names, 17), vals[17]).0)
  {
    var t, u := Packed(names, vals), SetHash(Packed(names, vals), KeyOf(names, 17), vals[17]).0;
    LastSetLoses(names, vals);
    var lost :| lost in Keys(t) && lost !in Keys(u);
    var p: nat :| p < 32 && t[p].Used? && t[p].key == lost;
    PackedAt(names, vals, p);
    i := Holder(p);
  }

  lemma {:induction false} NoneIsZero(names: seq<bytes>, vals: seq<Json>)
    requires Crowding(names) && |vals| == 18
    ensures NoZero(Texts(PairsOf(names, vals, 18)))
  {
    forall i | 0 <= i < 18
      ensures Fnv1a(Texts(PairsOf(names, vals, 18))[i]) != 0
    {
      Homes(names, 17 - i);
    }
  }

  /** The parser builds the object of these eighteen members and leaves one of them out. */
  lemma {:induction false} ObjectLosesAMember(names: seq<bytes>, vals: seq<Json>)
    requires Crowding(names) && |vals| == 18
    ensures var o := Make(NewMap(18), PairsOf(names, vals, 18));
      o.Some? && exists i: nat :: i < 18 && names[i] !in MeaningSlots(o.value.slots, o.value.RawHash?)
  {
    var pairs := PairsOf(names, vals, 18);
    StartsEmpty();
    FilledStep(names, Held(names, vals), 0);
    BuildFilled(names, vals, DELTA);
    BuildPacked(names, vals);
    BuildLast(names, vals);
    NoneIsZero(names, vals);
    InitIsClean(18);
    MakeLifts(InitMap(18), pairs);
    var i := AMemberIsLost(names, Held(names, vals));
    var r := Make(NewMap(18), pairs).value;
    if names[i] in MeaningSlots(r.slots, r.RawHash?) {
      var p := NamesAreShown(r.slots, r.RawHash?, names[i]);
      var j := RecordIsMember(pairs, p);
    }
  }

  // ---------------------------------------------------------------- such names

  lemma {:induction false} WithEnd(name: bytes, end: bytes)
    requires Fnv1a(name) % 128 == LOW && IsAscii(end) && LowFold(end, LOW) == 31 && 0 !in name && 0 !in end
    ensures Fnv1a(name + end) % 128 == 31 && 0 !in name + end
  {
    FnvFoldAppend(name, end, FNV_BASIS);
    FoldLow(end, Fnv1a(name), LOW);
  }

  lemma {:induction false} SixteenNames() returns (names: seq<bytes>)
    ensures |names| == DELTA
    ensures forall i :: 0 <= i < DELTA ==> |names[i]| == 24 && 0 !in names[i] && Fnv1a(names[i]) % 128 == 31
    ensures forall i, j :: 0 <= i < j < DELTA ==> names[i] != names[j]
  {
    var same := EqualHashesExist(4);
    assert Pow2(4) == 16;
    var end := TwoLetterEnd(LOW, 100, 116, 49, 31);
    names := seq(DELTA, i requires 0 <= i < DELTA => same[i] + end);
    forall i | 0 <= i < DELTA
      ensures |names[i]| == 24 && 0 !in names[i] && Fnv1a(names[i]) % 128 == 31
    {
      WithEnd(same[i], end);
    }
    forall i, j | 0 <= i < j < DELTA
      ensures names[i] != names[j]
    {
      assert names[i][..22] == same[i] && names[j][..22] == same[j];
    }
  }

  lemma {:induction false} Joined(same: seq<bytes>, late: bytes, last: bytes)
    requires |same| == DELTA && |late| == |last| == 2 && late != last && 0 !in late && 0 !in last
    requires forall i :: 0 <= i < DELTA ==> |same[i]| == 24 && 0 !in same[i] && Fnv1a(same[i]) % 128 == 31
    requires forall i, j :: 0 <= i < j < DELTA ==> same[i] != same[j]
    requires Fnv1a(late) % 128 == 32 && Fnv1a(last) % 128 == 127
    ensures Crowding(same + [late, last])
  {
    var names := same + [late, last];
    assert forall i :: 0 <= i < DELTA ==> names[i] == same[i];
    assert names[DELTA] == late && names[17] == last;
  }

  lemma {:induction false} LateName() returns (name: bytes)
    ensures |name| == 2 && name[0] == 102 && 0 !in name && Fnv1a(name) % 128 == 32
  {
    name := TwoLetterName(102, 121, 25, 32);
  }

  lemma {:induction false} LastName() returns (name: bytes)
    ensures |name| == 2 && name[0] == 103 && 0 !in name && Fnv1a(name) % 128 == 127
  {
    name := TwoLetterName(103, 99, 6, 127);
  }

  /** Sixteen names of one hash with two letters more, dt; then fy and gc. */
  lemma {:induction false} CrowdingNames() returns (names: seq<bytes>)
    ensures Crowding(names)
  {
    var same := SixteenNames();
    var late := LateName();
    var last := LastName();
    Joined(same, late, last);
    names := same + [late, last];
  }
}
