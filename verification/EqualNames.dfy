/**
 As many names of one hash as one likes: the words mlbvs and sacxa have the same effect on the hash
 whenever its low seven bits are 79, and leave those bits as they were.
 */
module EqualNames {
  import opened Basics
  import opened Bits
  import opened Hash
  import opened LowHash

  const LOW := 79

  lemma {:induction false} ModuloInside(x: int, d: int)
    ensures ((x % WORD + d) * FNV_PRIME) % WORD == ((x + d) * FNV_PRIME) % WORD
  {
    var q, r := x / WORD, ((x + d) * FNV_PRIME) % WORD;
    var k := ((x + d) * FNV_PRIME) / WORD;
    DivModUnique((x % WORD + d) * FNV_PRIME, WORD, k - q * FNV_PRIME, r);
  }

  /** With known low bits, a step of the hash adds a known difference and multiplies. */
  lemma {:induction false} OneLetter(y: int, w: bytes, low: nat, x: nat, next: nat) returns (z: int)
    requires w != [] && w[0] < 128 && y % WORD % 128 == low && XorLow(w[0], low) == x && x * 19 % 128 == next
    ensures z == (y + (x - low)) * FNV_PRIME && z % WORD % 128 == next
    ensures FnvFold(w, y % WORD) == FnvFold(w[1..], z % WORD)
  {
    var h := y % WORD;
    z := (y + (x - low)) * FNV_PRIME;
    StepSplit(h, w[0]);
    StepLow(h, w[0]);
    ModuloInside(y, x - low);
    assert FnvStep(h, w[0]) == z % WORD;
  }

  function Shifted(h: int, d0: int, d1: int, d2: int, d3: int, d4: int): int {
    (((((h + d0) * FNV_PRIME + d1) * FNV_PRIME + d2) * FNV_PRIME + d3) * FNV_PRIME + d4) * FNV_PRIME
  }

  lemma {:induction false} Rests(w: bytes)
    requires |w| == 5
    ensures w[1..][1..] == w[2..] && w[2..][1..] == w[3..] && w[3..][1..] == w[4..] && w[4..][1..] == []
  {}

  lemma {:induction false} FirstWordStart(h: nat, w: bytes) returns (y: int)
    requires h < WORD && h % 128 == LOW
    requires |w| == 5 && w[0] == 109 && w[1] == 108
    ensures y == ((h - 45) * FNV_PRIME + 100) * FNV_PRIME && y % WORD % 128 == 94
    ensures FnvFold(w, h) == FnvFold(w[2..], y % WORD)
  {
    Rests(w);
    y := OneLetter(h, w, LOW, 34, 6);
    y := OneLetter(y, w[1..], 6, 106, 94);
  }

  lemma {:induction false} FirstWordMiddle(h: int, w: bytes) returns (y: int)
    requires h % WORD % 128 == 94 && |w| == 5 && w[2] == 98 && w[3] == 118
    ensures y == ((h - 34) * FNV_PRIME - 114) * FNV_PRIME && y % WORD % 128 == 38
    ensures FnvFold(w[2..], h % WORD) == FnvFold(w[4..], y % WORD)
  {
    Rests(w);
    y := OneLetter(h, w[2..], 94, 60, 116);
    y := OneLetter(y, w[3..], 116, 2, 38);
  }

  lemma {:induction false} FirstWordEnd(h: int, w: bytes)
    requires h % WORD % 128 == 38 && |w| == 5 && w[4] == 115
    ensures FnvFold(w[4..], h % WORD) == ((h + 47) * FNV_PRIME) % WORD && FnvFold(w[4..], h % WORD) % 128 == LOW
  {
    Rests(w);
    var y := OneLetter(h, w[4..], 38, 85, LOW);
  }

  lemma {:induction false} FirstWord(h: nat, w: bytes)
    requires h < WORD && h % 128 == LOW
    requires |w| == 5 && w[0] == 109 && w[1] == 108 && w[2] == 98 && w[3] == 118 && w[4] == 115
    ensures FnvFold(w, h) == Shifted(h, -45, 100, -34, -114, 47) % WORD && FnvFold(w, h) % 128 == LOW
  {
    var y := FirstWordStart(h, w);
    y := FirstWordMiddle(y, w);
    FirstWordEnd(y, w);
  }

  lemma {:induction false} SecondWordStart(h: nat, w: bytes) returns (y: int)
    requires h < WORD && h % 128 == LOW
    requires |w| == 5 && w[0] == 115 && w[1] == 97
    ensures y == ((h - 19) * FNV_PRIME - 95) * FNV_PRIME && y % WORD % 128 == 15
    ensures FnvFold(w, h) == FnvFold(w[2..], y % WORD)
  {
    Rests(w);
    y := OneLetter(h, w, LOW, 60, 116);
    y := OneLetter(y, w[1..], 116, 21, 15);
  }

  lemma {:induction false} SecondWordMiddle(h: int, w: bytes) returns (y: int)
    requires h % WORD % 128 == 15 && |w| == 5 && w[2] == 99 && w[3] == 120
    ensures y == ((h + 93) * FNV_PRIME + 120) * FNV_PRIME && y % WORD % 128 == 52
    ensures FnvFold(w[2..], h % WORD) == FnvFold(w[4..], y % WORD)
  {
    Rests(w);
    y := OneLetter(h, w[2..], 15, 108, 4);
    y := OneLetter(y, w[3..], 4, 124, 52);
  }

  lemma {:induction false} SecondWordEnd(h: int, w: bytes)
    requires h % WORD % 128 == 52 && |w| == 5 && w[4] == 97
    ensures FnvFold(w[4..], h % WORD) == ((h + 33) * FNV_PRIME) % WORD && FnvFold(w[4..], h % WORD) % 128 == LOW
  {
    Rests(w);
    var y := OneLetter(h, w[4..], 52, 85, LOW);
  }

  lemma {:induction false} SecondWord(h: nat, w: bytes)
    requires h < WORD && h % 128 == LOW
    requires |w| == 5 && w[0] == 115 && w[1] == 97 && w[2] == 99 && w[3] == 120 && w[4] == 97
    ensures FnvFold(w, h) == Shifted(h, -19, -95, 93, 120, 33) % WORD && FnvFold(w, h) % 128 == LOW
  {
    var y := SecondWordStart(h, w);
    var z := SecondWordMiddle(y, w);
    SecondWordEnd(z, w);
    assert Shifted(h, -19, -95, 93, 120, 33) == (z + 33) * FNV_PRIME;
  }

  lemma {:induction false} ShiftsAgree(h: int)
    ensures Shifted(h, -45, 100, -34, -114, 47) % WORD == Shifted(h, -19, -95, 93, 120, 33) % WORD
  {
    var y, z := Shifted(h, -45, 100, -34, -114, 47), Shifted(h, -19, -95, 93, 120, 33);
    assert y - z == -8047573129245872848637736830 * WORD;
    DivModUnique(y, WORD, z / WORD - 8047573129245872848637736830, z % WORD);
  }

  // ---------------------------------------------------------------- names

  predicate Enters(h: nat) {
    h < WORD && h % 128 == LOW
  }

  /** Two words of which it makes no difference to the hash which one is read, and an opening that leads there. */
  ghost predicate Twins(start: bytes, u: bytes, v: bytes) {
    && |start| == 2 && |u| == |v| == 5 && u[0] != v[0] && 0 !in start && 0 !in u && 0 !in v
    && Fnv1a(start) % 128 == LOW
    && forall h: nat {:trigger Enters(h)} :: Enters(h) ==> FnvFold(u, h) == FnvFold(v, h) && FnvFold(u, h) % 128 == LOW
  }

  function Words(choice: seq<bool>, u: bytes, v: bytes): bytes {
    if choice == [] then [] else (if choice[0] then v else u) + Words(choice[1..], u, v)
  }

  lemma {:induction false} EitherWord(h: nat, start: bytes, u: bytes, v: bytes, second: bool, rest: bytes)
    requires Twins(start, u, v) && Enters(h)
    ensures FnvFold((if second then v else u) + rest, h) == FnvFold(rest, FnvFold(u, h)) && Enters(FnvFold(u, h))
  {
    FnvFits(u, h);
    FnvFoldAppend(if second then v else u, rest, h);
  }

  /** The hash after n times the first word. */
  function Repeated(h: nat, u: bytes, n: nat): nat
    decreases n
  {
    if n == 0 then h else Repeated(FnvFold(u, h), u, n - 1)
  }

  lemma {:induction false} RepeatedEnters(h: nat, start: bytes, u: bytes, v: bytes, n: nat)
    requires Twins(start, u, v) && Enters(h)
    ensures Enters(Repeated(h, u, n))
    decreases n
  {
    if n > 0 {
      FnvFits(u, h);
      RepeatedEnters(FnvFold(u, h), start, u, v, n - 1);
    }
  }

  lemma {:induction false} ChoiceFolds(h: nat, start: bytes, u: bytes, v: bytes, choice: seq<bool>)
    requires Twins(start, u, v) && Enters(h)
    ensures FnvFold(Words(choice, u, v), h) == Repeated(h, u, |choice|)
    decreases |choice|
  {
    if choice == [] {
      assert Words(choice, u, v) == [];
    } else {
      var next, rest, more := FnvFold(u, h), choice[1..], Words(choice[1..], u, v);
      EitherWord(h, start, u, v, choice[0], more);
      ChoiceFolds(next, start, u, v, rest);
      assert Words(choice, u, v) == (if choice[0] then v else u) + more;
    }
  }

  lemma {:induction false} ChoicesDiffer(u: bytes, v: bytes, a: seq<bool>, b: seq<bool>)
    requires |u| == |v| == 5 && u[0] != v[0] && |a| == |b| && Words(a, u, v) == Words(b, u, v)
    ensures a == b
  {
    if a != [] {
      var w, x := if a[0] then v else u, if b[0] then v else u;
      var s, t := Words(a, u, v), Words(b, u, v);
      assert s[..5] == w && t[..5] == x && s[5..] == Words(a[1..], u, v) && t[5..] == Words(b[1..], u, v);
      ChoicesDiffer(u, v, a[1..], b[1..]);
    }
  }

  lemma {:induction false} WordsHaveNoNul(choice: seq<bool>, u: bytes, v: bytes)
    requires 0 !in u && 0 !in v
    ensures 0 !in Words(choice, u, v)
  {
    if choice != [] { WordsHaveNoNul(choice[1..], u, v); }
  }

  function Name(choice: seq<bool>, start: bytes, u: bytes, v: bytes): bytes {
    start + Words(choice, u, v)
  }

  /** All names of as many words have one hash, and different choices of words give different names. */
  lemma {:induction false} NamesAgree(start: bytes, u: bytes, v: bytes, a: seq<bool>, b: seq<bool>)
    requires Twins(start, u, v) && |a| == |b|
    ensures var s, t := Name(a, start, u, v), Name(b, start, u, v);
      Fnv1a(s) == Fnv1a(t) && Fnv1a(s) % 128 == LOW && (s == t <==> a == b) && s != [] && 0 !in s
  {
    var h := Fnv1a(start);
    var s, t := Name(a, start, u, v), Name(b, start, u, v);
    FnvFits(start, FNV_BASIS);
    FnvFoldAppend(start, Words(a, u, v), FNV_BASIS);
    FnvFoldAppend(start, Words(b, u, v), FNV_BASIS);
    ChoiceFolds(h, start, u, v, a);
    ChoiceFolds(h, start, u, v, b);
    RepeatedEnters(h, start, u, v, |a|);
    WordsHaveNoNul(a, u, v);
    if s == t {
      assert s[2..] == Words(a, u, v) && t[2..] == Words(b, u, v);
      ChoicesDiffer(u, v, a, b);
    }
  }

  lemma {:induction false} Spelt(a: byte, b: byte, c: byte, d: byte, e: byte) returns (w: bytes)
    ensures |w| == 5 && w[0] == a && w[1] == b && w[2] == c && w[3] == d && w[4] == e
    ensures 0 < a && 0 < b && 0 < c && 0 < d && 0 < e ==> 0 !in w
  {
    w := [a, b, c, d, e];
  }

  /** ay, mlbvs and sacxa. */
  lemma {:induction false} TwinsExist() returns (start: bytes, u: bytes, v: bytes)
    ensures Twins(start, u, v)
    ensures |start| == 2 && start[0] == 97 && start[1] == 121
    ensures u[0] == 109 && u[1] == 108 && u[2] == 98 && u[3] == 118 && u[4] == 115
    ensures v[0] == 115 && v[1] == 97 && v[2] == 99 && v[3] == 120 && v[4] == 97
  {
    start := TwoLetterName(97, 121, 44, LOW);
    u := Spelt(109, 108, 98, 118, 115);
    v := Spelt(115, 97, 99, 120, 97);
    forall h: nat | Enters(h)
      ensures FnvFold(u, h) == FnvFold(v, h) && FnvFold(u, h) % 128 == LOW
    {
      FirstWord(h, u);
      SecondWord(h, v);
      ShiftsAgree(h);
    }
  }

  /** The binary digits of i choose the words. */
  function Choice(i: nat, n: nat): (c: seq<bool>)
    ensures |c| == n
  {
    if n == 0 then [] else [i % 2 == 1] + Choice(i / 2, n - 1)
  }

  lemma {:induction false} ChoiceDiffers(i: nat, j: nat, n: nat)
    requires i < Pow2(n) && j < Pow2(n) && Choice(i, n) == Choice(j, n)
    ensures i == j
  {
    if n > 0 {
      assert Choice(i, n)[0] == Choice(j, n)[0];
      assert Choice(i, n)[1..] == Choice(i / 2, n - 1) && Choice(j, n)[1..] == Choice(j / 2, n - 1);
      ChoiceDiffers(i / 2, j / 2, n - 1);
    }
  }

  ghost predicate AllEqualHash(names: seq<bytes>) {
    && (forall i :: 0 <= i < |names| ==>
          names[i] != [] && 0 !in names[i] && Fnv1a(names[i]) == Fnv1a(names[0]) && Fnv1a(names[i]) != 0)
    && (forall i, j :: 0 <= i < j < |names| ==> names[i] != names[j])
  }

  /** As many different names of one hash as there are choices of n words: seventeen of 27 letters, for instance. */
  lemma {:induction false} EqualHashesExist(n: nat) returns (names: seq<bytes>)
    ensures |names| == Pow2(n) && AllEqualHash(names)
    ensures forall i :: 0 <= i < |names| ==> |names[i]| == 2 + 5 * n && Fnv1a(names[i]) % 128 == LOW
  {
    var start, u, v := TwinsExist();
    names := seq(Pow2(n), i requires 0 <= i < Pow2(n) => Name(Choice(i, n), start, u, v));
    forall i, j | 0 <= i < Pow2(n) && 0 <= j < Pow2(n)
      ensures Fnv1a(names[i]) == Fnv1a(names[j]) && Fnv1a(names[i]) % 128 == LOW
      ensures names[i] != [] && 0 !in names[i] && (names[i] == names[j] ==> i == j)
    {
      NamesAgree(start, u, v, Choice(i, n), Choice(j, n));
      if names[i] == names[j] { ChoiceDiffers(i, j, n); }
    }
    forall i | 0 <= i < Pow2(n)
      ensures |names[i]| == 2 + 5 * n
    {
      WordsLength(Choice(i, n), u, v);
    }
  }

  lemma {:induction false} WordsLength(choice: seq<bool>, u: bytes, v: bytes)
    requires |u| == |v| == 5
    ensures |Words(choice, u, v)| == 5 * |choice|
  {
    if choice != [] { WordsLength(choice[1..], u, v); }
  }
}
