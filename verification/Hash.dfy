/** Key strings: the FNV-1a hash of kjson/khash.h and the comparison JSONString_equal. */
module Hash {
  import opened Basics
  import opened Bits
  import opened Table

  const FNV_BASIS := 0x811c9dc5
  const FNV_PRIME := 0x01000193
  const WORD := 0x1_0000_0000

  function FnvStep(hash: nat, b: byte): (r: nat)
    ensures r < WORD
  {
    (Xor(b, hash) * FNV_PRIME) % WORD
  }

  /** One byte at a time from a given hash. */
  function FnvFold(s: bytes, hash: nat): nat {
    if s == [] then hash else FnvFold(s[1..], FnvStep(hash, s[0]))
  }

  function Fnv1a(s: bytes): nat {
    FnvFold(s, FNV_BASIS)
  }

  lemma {:induction false} FnvFoldAppend(s: bytes, t: bytes, hash: nat)
    ensures FnvFold(s + t, hash) == FnvFold(t, FnvFold(s, hash))
  {
    if s == [] {
      assert s + t == t;
    } else {
      assert (s + t)[1..] == s[1..] + t;
      FnvFoldAppend(s[1..], t, FnvStep(hash, s[0]));
    }
  }

  lemma {:induction false} FnvFits(s: bytes, hash: nat)
    requires hash < WORD
    ensures FnvFold(s, hash) < WORD
  {
    if s != [] { FnvFits(s[1..], FnvStep(hash, s[0])); }
  }

  /** fnv1a_string over the len bytes from position from on. */
  method FnvString(s: bytes, from: nat, len: nat, basis: nat) returns (hash: nat)
    requires from + len <= |s|
    ensures hash == FnvFold(s[from..from + len], basis)
  {
    hash := basis;
    var i, end := from, from + len;
    while i < end
      invariant from <= i <= end
      invariant FnvFold(s[from..end], basis) == FnvFold(s[i..end], hash)
    {
      assert s[i..end][1..] == s[i + 1..end];
      hash, i := FnvStep(hash, s[i]), i + 1;
    }
  }

  /** fnv1a takes four bytes a round and the rest at the end; the result is the plain fold. */
  method FnvUnrolled(s: bytes) returns (hash: nat)
    ensures hash == Fnv1a(s)
  {
    hash := FNV_BASIS;
    var at: nat, len: nat := 0, |s|;
    while len >= 4
      invariant at + len == |s|
      invariant Fnv1a(s) == FnvFold(s[at..], hash)
    {
      ghost var before := hash;
      hash := FnvString(s, at, 4, hash);
      FnvFoldAppend(s[at..at + 4], s[at + 4..], before);
      assert s[at..] == s[at..at + 4] + s[at + 4..];
      at, len := at + 4, len - 4;
    }
    hash := FnvString(s, at, len, hash);
    assert s[at..at + len] == s[at..];
  }

  // ---------------------------------------------------------------- JSONString_equal

  /** strncmp(a, b, n) == 0 from byte i on, for strings of the same length n. */
  function SameUpToNul(a: bytes, b: bytes, i: nat): bool
    requires |a| == |b| && i <= |a|
    decreases |a| - i
  {
    i == |a| || (a[i] == b[i] && (a[i] == 0 || SameUpToNul(a, b, i + 1)))
  }

  /** JSONString_equal; it reads the first byte once lengths and hashes agree. */
  function KeysEqual(a: bytes, b: bytes): bool
    requires |a| == |b| && Fnv1a(a) == Fnv1a(b) ==> a != []
  {
    |a| == |b| && Fnv1a(a) == Fnv1a(b) && a[0] == b[0] && SameUpToNul(a, b, 0)
  }

  /** The bytes before the first NUL. */
  function UpToNul(s: bytes): bytes {
    if s == [] || s[0] == 0 then [] else [s[0]] + UpToNul(s[1..])
  }

  lemma {:induction false} SameUpToNulIff(a: bytes, b: bytes, i: nat)
    requires |a| == |b| && i <= |a|
    ensures SameUpToNul(a, b, i) <==> UpToNul(a[i..]) == UpToNul(b[i..])
    decreases |a| - i
  {
    if i < |a| {
      SameUpToNulIff(a, b, i + 1);
      assert a[i..][1..] == a[i + 1..] && b[i..][1..] == b[i + 1..];
      var x, y := UpToNul(a[i..]), UpToNul(b[i..]);
      assert x == if a[i] == 0 then [] else [a[i]] + UpToNul(a[i + 1..]);
      assert y == if b[i] == 0 then [] else [b[i]] + UpToNul(b[i + 1..]);
      assert x != [] && y != [] ==> (x == y <==> x[0] == y[0] && x[1..] == y[1..]);
    }
  }

  lemma {:induction false} UpToNulWhole(s: bytes)
    ensures UpToNul(s) == s <==> 0 !in s
  {
    if s != [] {
      UpToNulWhole(s[1..]);
      assert s == [s[0]] + s[1..];
    }
  }

  /**
   Two keys of the same length and hash compare equal exactly when they agree up to their first NUL;
   so the comparison is equality of texts for keys without a NUL.
   */
  lemma {:induction false} KeysEqualIff(a: bytes, b: bytes)
    requires a != [] && b != []
    ensures KeysEqual(a, b) <==> |a| == |b| && Fnv1a(a) == Fnv1a(b) && UpToNul(a) == UpToNul(b)
    ensures 0 !in a && 0 !in b ==> (KeysEqual(a, b) <==> a == b)
  {
    if |a| == |b| {
      SameUpToNulIff(a, b, 0);
      assert a[0..] == a && b[0..] == b;
      UpToNulWhole(a);
      UpToNulWhole(b);
    }
  }

  // ---------------------------------------------------------------- keys

  /** What the comparison sees of a text: nothing behind the first NUL but how many bytes there are. */
  function Seen(s: bytes): (r: bytes)
    ensures |r| == |s|
  {
    if s == [] then [] else if s[0] == 0 then seq(|s|, _ => 0) else [s[0]] + Seen(s[1..])
  }

  /** A text as a key. Texts that compare equal are the same key. */
  function MakeKey(text: bytes): JString {
    JString(Seen(text), Fnv1a(text))
  }

  lemma {:induction false} SeenIff(a: bytes, b: bytes)
    ensures Seen(a) == Seen(b) <==> |a| == |b| && UpToNul(a) == UpToNul(b)
  {
    if |a| == |b| && a != [] {
      SeenIff(a[1..], b[1..]);
      var x, y := Seen(a), Seen(b);
      if a[0] != 0 && b[0] != 0 {
        assert x == y <==> x[0] == y[0] && x[1..] == y[1..];
        var u, v := UpToNul(a), UpToNul(b);
        assert u == v <==> u[0] == v[0] && u[1..] == v[1..];
      } else {
        assert x[0] == a[0] && y[0] == b[0];
      }
    }
  }

  lemma {:induction false} SeenWhole(s: bytes)
    requires 0 !in s
    ensures Seen(s) == s
  {
    if s != [] {
      SeenWhole(s[1..]);
      assert s == [s[0]] + s[1..];
    }
  }

  /** Except for two empty texts, being the same key is what JSONString_equal decides. */
  lemma {:induction false} KeyIsIdentity(a: bytes, b: bytes)
    requires a != [] || b != []
    ensures |a| == |b| && Fnv1a(a) == Fnv1a(b) ==> a != []
    ensures KeysEqual(a, b) <==> MakeKey(a) == MakeKey(b)
  {
    SeenIff(a, b);
    if a != [] && b != [] { KeysEqualIff(a, b); }
  }

  /**
   Two keys the comparison cannot be trusted with: different texts it takes for equal because they
   agree up to a NUL, or two empty texts, of which it reads a first byte that is not there.
   */
  predicate Confusable(a: bytes, b: bytes) {
    |a| == |b| && Fnv1a(a) == Fnv1a(b) && UpToNul(a) == UpToNul(b) && (a != b || a == [])
  }

  lemma {:induction false} ConfusableIff(a: bytes, b: bytes)
    ensures Confusable(a, b) <==> MakeKey(a) == MakeKey(b) && (a != b || a == [])
  {
    SeenIff(a, b);
  }

  /** Texts without a NUL are different keys when they are different. */
  lemma {:induction false} PlainKeys(a: bytes, b: bytes)
    requires 0 !in a && 0 !in b
    ensures MakeKey(a) == MakeKey(b) <==> a == b
  {
    SeenWhole(a);
    SeenWhole(b);
  }
}
