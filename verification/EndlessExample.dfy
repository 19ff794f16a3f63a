/** JSON objects for which the retry loop of hashmap_set never ends: seventeen names of one hash. */
module EndlessExample {
  import opened Basics
  import opened Bits
  import opened Table
  import opened Growth
  import opened Ending
  import opened ObjectMap
  import opened RawMap
  import opened Hash
  import opened Json
  import opened ParserSpec
  import opened Objects
  import opened ObjectKeys
  import opened EqualNames

  lemma {:induction false} EqualHashesTellApart(texts: seq<bytes>)
    requires AllEqualHash(texts)
    ensures Distinguishable(texts) && NoZero(texts)
    ensures forall i, j :: 0 <= i < j < |texts| ==> MakeKey(texts[i]) != MakeKey(texts[j])
  {
    forall i, j | 0 <= i < |texts| && 0 <= j < |texts| && i != j
      ensures !Confusable(texts[i], texts[j]) && MakeKey(texts[i]) != MakeKey(texts[j])
    {
      PlainKeys(texts[i], texts[j]);
      ConfusableIff(texts[i], texts[j]);
    }
  }

  lemma {:induction false} AllKeys(pairs: seq<(bytes, Json)>)
    requires AllDifferent(pairs)
    ensures |KeysOf(pairs)| == |pairs|
    decreases |pairs|
  {
    if pairs != [] {
      KeysOfSnoc(pairs);
      AllKeys(pairs[..|pairs| - 1]);
    }
  }

  lemma {:induction false} RestHasEqualHash(pairs: seq<(bytes, Json)>)
    requires pairs != [] && AllEqualHash(Texts(pairs))
    ensures AllEqualHash(Texts(pairs[1..]))
  {
    var rest, texts := pairs[1..], Texts(pairs);
    assert forall i :: 0 <= i < |rest| ==> Texts(rest)[i] == texts[i + 1];
  }

  /** Sixteen such members are all stored. */
  lemma {:induction false} SixteenAreStored(size: nat, pairs: seq<(bytes, Json)>) returns (m: MapState<Member>)
    requires |pairs| == DELTA && AllEqualHash(Texts(pairs))
    ensures WfMap(m) && Clean(m) && Keys(m.slots) == KeysOf(pairs)
    ensures Make(Lift(InitMap(size)), pairs) == Some(Lift(m))
  {
    EqualHashesTellApart(Texts(pairs));
    DistinguishableEmptyOnce(Texts(pairs));
    FewSetsReady(size, pairs);
    ReadyHolds(size, pairs);
    InitIsClean(size);
    MakeLifts(InitMap(size), pairs);
    m := Build(InitMap(size), pairs).value;
    FirstsKeys(pairs);
    assert View(m.slots).Keys == Keys(m.slots);
  }

  /** And a seventeenth is never placed. */
  lemma {:induction false} SeventeenthNeverEnds<V>(m: MapState<V>, key: JString, val: V)
    requires WfMap(m) && |Keys(m.slots)| == DELTA && key !in Keys(m.slots)
    requires forall k :: k in Keys(m.slots) ==> k.hash == key.hash
    ensures SetMap(m, key, val).1 == Exhausted
  {
    KeysFit(m.slots);
    SafeKeepsUntilFit(m.slots, key);
    assert SameHash(Keys(m.slots), key.hash) == Keys(m.slots);
    EqualHashesExhaust(m.slots, key, val);
  }

  lemma {:induction false} FirstIsNew(pairs: seq<(bytes, Json)>)
    requires pairs != [] && AllEqualHash(Texts(pairs))
    ensures MakeKey(pairs[0].0) !in KeysOf(pairs[1..]) && AllDifferent(pairs[1..]) && pairs[0].0 != []
    ensures forall k :: k in KeysOf(pairs[1..]) ==> k.hash == MakeKey(pairs[0].0).hash
  {
    var rest, texts := pairs[1..], Texts(pairs);
    EqualHashesTellApart(texts);
    forall i | 0 <= i < |rest|
      ensures rest[i].0 == texts[i + 1] && MakeKey(rest[i].0).hash == MakeKey(texts[0]).hash
    {
      assert rest[i] == pairs[i + 1];
    }
  }

  /** The parser never finishes an object of seventeen different names of one hash. */
  lemma {:induction false} ObjectNeverEnds(pairs: seq<(bytes, Json)>, size: nat)
    requires |pairs| == DELTA + 1 && AllEqualHash(Texts(pairs))
    ensures var o := Make(Lift(InitMap(size)), pairs[1..]); var (text, val) := pairs[0];
      && o.Some? && !EmptyAgain(o.value.slots, text)
      && RawSet(o.value, MakeKey(text), Member(text, val)).1 == Exhausted
    ensures Make(Lift(InitMap(size)), pairs) == None
  {
    var rest, key, member := pairs[1..], MakeKey(pairs[0].0), Member(pairs[0].0, pairs[0].1);
    RestHasEqualHash(pairs);
    var m := SixteenAreStored(size, rest);
    FirstIsNew(pairs);
    AllKeys(rest);
    SeventeenthNeverEnds(m, key, member);
    SetLifts(m, key, member);
    MakeSplit(Lift(InitMap(size)), pairs, 1);
    MakeStep(Lift(m), pairs[..1]);
    assert pairs[..1][0] == pairs[0];
  }

  /** There are such names, of 27 letters. */
  lemma {:induction false} SeventeenNames() returns (names: seq<bytes>)
    ensures |names| == DELTA + 1 && AllEqualHash(names)
    ensures forall i :: 0 <= i < |names| ==> |names[i]| == 27
  {
    var all := EqualHashesExist(5);
    assert Pow2(5) == 2 * Pow2(4) && Pow2(4) == 16;
    names := all[..DELTA + 1];
  }
}
