/** Escaped surrogate pairs: where the library's string departs from section 2.5 of RFC 4627. */
module Surrogates {
  import opened Utf8
  import opened Grammar

  lemma {:induction false} PairsCostTwoBytes(cs: seq<Char>)
    requires CharsOk(cs)
    ensures |CharsValue(cs)| == |RfcValue(cs)| + 2 * SurrogatePairs(cs)
    ensures SurrogatePairs(cs) == 0 ==> CharsValue(cs) == RfcValue(cs)
  {
    if StartsPair(cs) {
      PairsCostTwoBytes(cs[2..]);
      assert cs[1..][1..] == cs[2..];
      assert CharsValue(cs) == CharValue(cs[0]) + (CharValue(cs[1]) + CharsValue(cs[2..]));
    } else if cs != [] {
      PairsCostTwoBytes(cs[1..]);
    }
  }

  /** The library's string is the one RFC 4627 gives exactly when no high surrogate escape is followed by a low one. */
  lemma {:induction false} StringMeaningIff(cs: seq<Char>)
    requires CharsOk(cs)
    ensures CharsValue(cs) == RfcValue(cs) <==> SurrogatePairs(cs) == 0
  {
    PairsCostTwoBytes(cs);
  }

  /** A pair anywhere counts: the scan cannot step over it, since a low surrogate starts no pair. */
  lemma {:induction false} PairsFound(cs: seq<Char>)
    ensures SurrogatePairs(cs) == 0 <==> forall i :: 0 <= i < |cs| ==> !StartsPair(cs[i..])
  {
    if cs != [] {
      assert cs[0..] == cs;
      if !StartsPair(cs) {
        PairsFound(cs[1..]);
        assert forall i :: 0 <= i < |cs| - 1 ==> cs[1..][i..] == cs[i + 1..];
        assert forall i :: 1 <= i < |cs| ==> cs[i..] == cs[1..][i - 1..];
      }
    }
  }

  /** The character U+1D11E, written as the escapes d834 and dd1e: six bytes are made of it, not four. */
  lemma {:induction false} ClefIsReadAsTwo() returns (cs: seq<Char>)
    ensures CharsOk(cs) && |cs| == 2 && cs[0].Unicode? && cs[1].Unicode?
    ensures CodeUnit(cs[0]) == 0xd834 && CodeUnit(cs[1]) == 0xdd1e
    ensures RfcValue(cs) == WriteUnicode(0x1d11e) && CharsValue(cs) != RfcValue(cs)
    ensures CharsValue(cs) == [0xed, 0xa0, 0xb4, 0xed, 0xb4, 0x9e]
  {
    cs := [Unicode(100, 56, 51, 52), Unicode(100, 100, 49, 101)];
    assert cs[2..] == [] && cs[1..][1..] == [];
    assert CodeUnit(cs[0]) == 0xd834 && CodeUnit(cs[1]) == 0xdd1e;
    assert StartsPair(cs);
    assert RfcValue(cs) == WriteUnicode(0x1d11e) + [];
    assert WriteUnicode(0xd834) == [0xed, 0xa0, 0xb4] && WriteUnicode(0xdd1e) == [0xed, 0xb4, 0x9e];
    assert CharsValue(cs) == WriteUnicode(0xd834) + (WriteUnicode(0xdd1e) + []);
  }

  /** Section 2.5 of RFC 4627: two escapes are a pair exactly when they are the UTF-16 form of a code above 0xFFFF. */
  lemma {:induction false} PairIff(cs: seq<Char>)
    requires |cs| > 1 && cs[0].Unicode? && cs[1].Unicode?
    ensures StartsPair(cs) <==> exists v :: IsPairFor(cs[0], cs[1], v)
  {
    if StartsPair(cs) {
      var v := 65536 + (CodeUnit(cs[0]) - 55296) * 1024 + (CodeUnit(cs[1]) - 56320);
      assert IsPairFor(cs[0], cs[1], v);
    }
  }

  predicate IsPairFor(c: Char, d: Char, v: int)
    requires c.Unicode? && d.Unicode?
  {
    && 65536 <= v <= 1114111
    && CodeUnit(c) == 55296 + (v - 65536) / 1024 && CodeUnit(d) == 56320 + (v - 65536) % 1024
  }

  /** Such a pair stands for that code. */
  lemma {:induction false} PairStandsFor(cs: seq<Char>, v: int)
    requires CharsOk(cs) && |cs| > 1 && cs[0].Unicode? && cs[1].Unicode? && IsPairFor(cs[0], cs[1], v)
    ensures RfcValue(cs) == WriteUnicode(v) + RfcValue(cs[2..])
  {
    var x := v - 65536;
    assert x / 1024 * 1024 + x % 1024 == x;
  }
}
