/**
 The size-classed bump allocator of kjson/kmemory_pool.h. An address is a block number, as malloc
 handed the blocks out, and an offset into that block.
 */
module MemoryPool {
  import opened Bits

  const MIN_ALIGN_LOG2 := 4
  const MAX_ALIGN_LOG2 := 9
  const CLASSES := 6
  const MEMORYBLOCK_SIZE := 16384

  lemma {:induction false} AndBelow(a: nat, b: nat)
    ensures And(a, b) <= a
  {
    if a > 0 && b > 0 { AndBelow(a / 2, b / 2); }
  }

  /** ALIGN(n, 16): the low four bits of n + 15 are cleared. */
  function Align(n: nat): nat {
    AndBelow(n + 15, 15);
    n + 15 - And(n + 15, 15)
  }

  lemma {:induction false} Powers()
    ensures Pow2(3) == 8 && Pow2(4) == 16 && Pow2(9) == 512
  {
    assert Pow2(5) == 32 && Pow2(7) == 128;
  }

  /** The least multiple of 16 that holds n bytes. */
  lemma {:induction false} AlignRoundsUp(n: nat)
    ensures n <= Align(n) < n + 16 && Align(n) % 16 == 0
  {
    var q, r := (n + 15) / 16, (n + 15) % 16;
    assert And(n + 15, 15) == r by {
      Powers();
      AndMask(n + 15, 4);
    }
    assert Align(n) == n + 15 - r == q * 16;
    DivModUnique(Align(n), 16, q, 0);
  }

  lemma {:induction false} Pow2Monotone(j: nat, k: nat)
    requires j <= k
    ensures Pow2(j) <= Pow2(k)
  {
    if j < k { Pow2Monotone(j, k - 1); }
  }

  lemma {:induction false} LogBetween(size: nat, low: nat, high: nat)
    requires Pow2(low) < size <= Pow2(high)
    ensures low < Log2(size) <= high
  {
    Log2RoundsUp(size);
    if Log2(size) <= low { Pow2Monotone(Log2(size), low); }
    if Log2(size) > high { Pow2Monotone(high, Log2(size) - 1); }
  }

  lemma {:induction false} AlignInRange(n: nat)
    requires 0 < n <= 512
    ensures 16 <= Align(n) <= 512
  {
    AlignRoundsUp(n);
    var size := Align(n);
    var q := size / 16;
    assert size == 16 * q && 0 < q < 33;
  }

  /** A request of the pool's sizes falls into one of the six classes. */
  lemma {:induction false} ClassInRange(n: nat)
    requires 0 < n <= 512
    ensures 16 <= Align(n) <= 512 && MIN_ALIGN_LOG2 <= Log2(Align(n)) <= MAX_ALIGN_LOG2
  {
    AlignInRange(n);
    Powers();
    LogBetween(Align(n), 3, 9);
  }

  function ClassOf(n: nat): (c: nat)
    requires 0 < n <= 512
    ensures c < CLASSES
  {
    ClassInRange(n);
    Log2(Align(n)) - MIN_ALIGN_LOG2
  }

  lemma {:induction false} LogIsLeast(n: nat, k: nat)
    requires 0 < n <= 512
    ensures 16 <= Align(n) && (Align(n) <= Pow2(k) <==> Log2(Align(n)) <= k)
  {
    ClassInRange(n);
    var size := Align(n);
    Log2RoundsUp(size);
    if Log2(size) <= k { Pow2Monotone(Log2(size), k); } else { Pow2Monotone(k, Log2(size) - 1); }
  }

  /** Its class is the first whose size, 16, 32, 64, 128, 256 or 512, is not below the rounded request. */
  lemma {:induction false} ClassIsLeast(n: nat, c: nat)
    requires 0 < n <= 512
    ensures c < 6 ==> (ClassOf(n) <= c <==> Align(n) <= Pow2(4 + c))
    ensures Pow2(4) == 16 && Pow2(5) == 32 && Pow2(6) == 64 && Pow2(7) == 128 && Pow2(8) == 256 && Pow2(9) == 512
  {
    LogIsLeast(n, 4 + c);
    Powers();
  }

  lemma {:induction false} ClassIs(n: nat, c: nat)
    requires 0 < n <= 512 && c < 6
    ensures c == ClassOf(n) <==> Align(n) <= Pow2(4 + c) && (c == 0 || Align(n) > Pow2(3 + c))
  {
    ClassIsLeast(n, c);
    if c > 0 { ClassIsLeast(n, c - 1); }
  }

  datatype Address = Address(block: nat, offset: nat)

  /** base and current, the latter as its distance from the former. */
  datatype BlockInfo = BlockInfo(base: nat, current: nat)

  /** Bytes handed out. */
  datatype Region = Region(block: nat, offset: nat, len: nat)

  predicate Apart(r: Region, s: Region) {
    r.block != s.block || r.offset + r.len <= s.offset || s.offset + s.len <= r.offset
  }

  /** No byte lies in both. */
  lemma {:induction false} ApartIff(r: Region, s: Region)
    requires r.len > 0 && s.len > 0
    ensures Apart(r, s) <==> forall b, x :: !(HasByte(r, b, x) && HasByte(s, b, x))
  {
    if !Apart(r, s) {
      var x := if r.offset <= s.offset then s.offset else r.offset;
      assert HasByte(r, r.block, x) && HasByte(s, r.block, x);
    }
  }

  predicate HasByte(r: Region, b: nat, x: nat) {
    r.block == b && r.offset <= x < r.offset + r.len
  }

  ghost predicate AllApart(regions: seq<Region>) {
    forall i, j :: 0 <= i < j < |regions| ==> Apart(regions[i], regions[j])
  }

  /** All blocks of all classes, class by class. */
  function Blocks(pages: seq<seq<nat>>): seq<nat> {
    if pages == [] then [] else Blocks(pages[..|pages| - 1]) + pages[|pages| - 1]
  }

  ghost predicate InPages(b: nat, pages: seq<seq<nat>>) {
    exists c :: 0 <= c < |pages| && b in pages[c]
  }

  lemma {:induction false} BlocksAreInPages(b: nat, pages: seq<seq<nat>>)
    ensures b in Blocks(pages) <==> InPages(b, pages)
  {
    if pages != [] {
      var front := pages[..|pages| - 1];
      BlocksAreInPages(b, front);
      assert forall c :: 0 <= c < |front| ==> front[c] == pages[c];
    }
  }

  ghost predicate NoRepeat(s: seq<nat>) {
    forall i, j :: 0 <= i < j < |s| ==> s[i] != s[j]
  }

  /** No block is listed twice, in one class or in two. */
  ghost predicate Distinct(pages: seq<seq<nat>>) {
    && (forall c :: 0 <= c < |pages| ==> NoRepeat(pages[c]))
    && (forall c, d :: 0 <= c < d < |pages| ==> forall b :: b in pages[c] ==> b !in pages[d])
  }

  ghost predicate PagesOk(pages: seq<seq<nat>>, sizes: seq<nat>) {
    && Distinct(pages)
    && forall c :: 0 <= c < |pages| ==>
         forall b :: b in pages[c] ==> b < |sizes| && sizes[b] == MEMORYBLOCK_SIZE
  }

  /** The block a class bumps in is the last of its list. */
  ghost predicate CurrentOk(current: seq<BlockInfo>, pages: seq<seq<nat>>) {
    && |current| == |pages|
    && forall c :: 0 <= c < |pages| ==>
         && pages[c] != [] && current[c].base == pages[c][|pages[c]| - 1]
         && current[c].current <= MEMORYBLOCK_SIZE && current[c].current % 16 == 0
  }

  ghost predicate RegionsOk(regions: seq<Region>, sizes: seq<nat>) {
    forall r :: r in regions ==> r.block < |sizes| && r.offset % 16 == 0 && r.offset + r.len <= sizes[r.block]
  }

  /** Nothing has been handed out behind the bump pointers. */
  ghost predicate BelowCurrent(regions: seq<Region>, current: seq<BlockInfo>) {
    forall r, c :: r in regions && 0 <= c < |current| && r.block == current[c].base ==>
      r.offset + r.len <= current[c].current
  }

  lemma {:induction false} Added(regions: seq<Region>, r: Region)
    requires AllApart(regions) && forall s :: s in regions ==> Apart(s, r)
    ensures AllApart(regions + [r])
  {}

  lemma {:induction false} BasesDiffer(current: seq<BlockInfo>, pages: seq<seq<nat>>, c: nat, d: nat)
    requires Distinct(pages) && CurrentOk(current, pages) && c < |pages| && d < |pages| && c != d
    ensures current[c].base != current[d].base
  {
    assert current[c].base in pages[c] && current[d].base in pages[d];
  }

  /** A new block goes to the end of one list. */
  lemma {:induction false} ListBlock(pages: seq<seq<nat>>, c: nat, sizes: seq<nat>)
    requires PagesOk(pages, sizes) && c < |pages|
    ensures PagesOk(pages[c := pages[c] + [|sizes|]], sizes + [MEMORYBLOCK_SIZE])
  {
    var b, u := |sizes|, pages[c := pages[c] + [|sizes|]];
    assert forall d :: 0 <= d < |u| ==> forall x :: x in u[d] ==> x in pages[d] || (d == c && x == b);
    JoinNoRepeat(pages[c], [b]);
    assert Distinct(u);
  }

  lemma {:induction false} ListedBlocks(pages: seq<seq<nat>>, c: nat, b: nat, x: nat)
    requires c < |pages|
    ensures InPages(x, pages[c := pages[c] + [b]]) <==> InPages(x, pages) || x == b
  {
    var u := pages[c := pages[c] + [b]];
    assert x in u[c] <==> x in pages[c] || x == b;
    if d :| 0 <= d < |pages| && x in pages[d] {
      assert x in u[d];
    }
    if d :| 0 <= d < |u| && x in u[d] {
      assert x == b || x in pages[d];
    }
  }

  /** A class that goes on in a new block of which one region is handed out. */
  lemma {:induction false} BelowNew(regions: seq<Region>, current: seq<BlockInfo>, c: nat, r: Region)
    requires BelowCurrent(regions, current) && c < |current|
    requires forall s :: s in regions ==> s.block != r.block
    requires forall d :: 0 <= d < |current| ==> current[d].base != r.block
    ensures BelowCurrent(regions + [r], current[c := BlockInfo(r.block, r.offset + r.len)])
  {}

  /** The bytes asked for, at the addresses given. */
  ghost function Given(ps: seq<Address>, requests: seq<nat>): (r: seq<Region>)
    requires |ps| == |requests|
    ensures |r| == |ps|
  {
    seq(|ps|, i requires 0 <= i < |ps| => Region(ps[i].block, ps[i].offset, requests[i]))
  }

  predicate Covers(r: Region, p: Address, n: nat) {
    r.block == p.block && r.offset == p.offset && r.len >= n
  }

  lemma {:induction false} GivenApart(regions: seq<Region>, m: nat, ps: seq<Address>, requests: seq<nat>)
    requires |ps| == |requests| && |regions| == m + |ps| && AllApart(regions)
    requires forall k :: 0 <= k < |ps| ==> Covers(regions[m + k], ps[k], requests[k])
    ensures AllApart(Given(ps, requests))
    ensures forall r, i :: r in regions[..m] && 0 <= i < |ps| ==> Apart(r, Given(ps, requests)[i])
  {
    var given := Given(ps, requests);
    forall i, j | 0 <= i < j < |given|
      ensures Apart(given[i], given[j])
    {
      assert Apart(regions[m + i], regions[m + j]);
    }
    forall r, i | r in regions[..m] && 0 <= i < |ps|
      ensures Apart(r, given[i])
    {
      var k :| 0 <= k < m && regions[k] == r;
      assert Apart(regions[k], regions[m + i]);
    }
  }

  lemma {:induction false} NotYetFreed(pages: seq<seq<nat>>, c: nat, k: nat)
    requires Distinct(pages) && c < |pages| && k < |pages[c]|
    ensures pages[c][k] !in Blocks(pages[..c]) && pages[c][k] !in pages[c][..k]
  {
    BlocksAreInPages(pages[c][k], pages[..c]);
    assert forall d :: 0 <= d < c ==> pages[..c][d] == pages[d];
  }

  lemma {:induction false} JoinNoRepeat(s: seq<nat>, t: seq<nat>)
    requires NoRepeat(s) && NoRepeat(t) && forall b :: b in s ==> b !in t
    ensures NoRepeat(s + t)
  {
    var u := s + t;
    forall i, j | 0 <= i < j < |u|
      ensures u[i] != u[j]
    {
      assert i < |s| ==> u[i] in s;
      assert j >= |s| ==> u[j] in t;
    }
  }

  lemma {:induction false} BlocksDistinct(pages: seq<seq<nat>>)
    requires Distinct(pages)
    ensures NoRepeat(Blocks(pages))
  {
    if pages != [] {
      var n := |pages| - 1;
      var front, last := pages[..n], pages[n];
      assert forall c :: 0 <= c < n ==> front[c] == pages[c];
      BlocksDistinct(front);
      forall b | b in Blocks(front)
        ensures b !in last
      {
        BlocksAreInPages(b, front);
      }
      JoinNoRepeat(Blocks(front), last);
    }
  }

  class JSONMemoryPool {
    var current: seq<BlockInfo>
    var pages: seq<seq<nat>>
    var sizes: seq<nat>          // the C heap: the size of every block malloc gave
    var freed: seq<nat>          // the blocks given back, in order
    ghost var regions: seq<Region>
    ghost var direct: set<nat>   // the blocks given to callers as they are

    ghost predicate Valid()
      reads this
    {
      && |pages| == CLASSES && PagesOk(pages, sizes) && CurrentOk(current, pages) && freed == []
      && AllApart(regions) && RegionsOk(regions, sizes) && BelowCurrent(regions, current)
      && (forall b :: b in direct ==> b < |sizes|)
      && forall b: nat :: b < |sizes| ==> (b in direct <==> !InPages(b, pages))
    }

    method Malloc(n: nat) returns (b: nat)
      modifies `sizes
      ensures b == |old(sizes)| && sizes == old(sizes) + [n]
    {
      b := |sizes|;
      sizes := sizes + [n];
    }

    method Free(b: nat)
      requires b < |sizes| && b !in freed
      modifies `freed
      ensures freed == old(freed) + [b]
    {
      freed := freed + [b];
    }

    /** JSONMemoryPool_Init. */
    constructor ()
      ensures Valid() && regions == [] && direct == {} && freed == []
      ensures |pages| == |current| == |sizes| == 6
      ensures forall c :: 0 <= c < 6 ==> pages[c] == [c] && current[c] == BlockInfo(c, 0) && sizes[c] == 16384
    {
      current, pages, sizes, freed := [], [], [], [];
      regions, direct := [], {};
      new;
      var i := MIN_ALIGN_LOG2;
      while i <= MAX_ALIGN_LOG2
        invariant MIN_ALIGN_LOG2 <= i <= MAX_ALIGN_LOG2 + 1 && |pages| == |current| == |sizes| == i - MIN_ALIGN_LOG2
        invariant forall c :: 0 <= c < |pages| ==>
          pages[c] == [c] && current[c] == BlockInfo(c, 0) && sizes[c] == MEMORYBLOCK_SIZE
        invariant freed == [] && regions == [] && direct == {}
      {
        var b := Malloc(MEMORYBLOCK_SIZE);
        pages := pages + [[b]];
        current := current + [BlockInfo(b, 0)];
        i := i + 1;
      }
      forall b: nat | b < |sizes|
        ensures InPages(b, pages)
      {
        assert b in pages[b];
      }
    }

    /** The pool's part of JSONMemoryPool_Alloc when the class's block has room. */
    method Bump(c: nat, size: nat) returns (p: Address)
      requires Valid() && c < CLASSES && size % 16 == 0 && current[c].current + size <= MEMORYBLOCK_SIZE
      modifies `current, `regions
      ensures Valid() && regions == old(regions) + [Region(p.block, p.offset, size)]
      ensures p == Address(old(current)[c].base, old(current)[c].current) && p.offset % 16 == 0
      ensures current == old(current)[c := BlockInfo(p.block, p.offset + size)]
      ensures p.block in pages[c] && p.block < |sizes| && sizes[p.block] == MEMORYBLOCK_SIZE
    {
      var block := current[c];
      ghost var r := Region(block.base, block.current, size);
      assert block.base in pages[c];
      Added(regions, r);
      forall d | 0 <= d < CLASSES && d != c
        ensures current[d].base != block.base
      {
        BasesDiffer(current, pages, c, d);
      }
      current := current[c := BlockInfo(block.base, block.current + size)];
      regions := regions + [r];
      p := Address(block.base, block.current);
    }

    /** And when it has not: a new block is appended to the class's list and becomes the one to bump in. */
    method NewBlock(c: nat, size: nat) returns (p: Address)
      requires Valid() && c < CLASSES && size % 16 == 0 && size <= MEMORYBLOCK_SIZE
      modifies `current, `pages, `sizes, `regions
      ensures Valid() && regions == old(regions) + [Region(p.block, p.offset, size)]
      ensures p == Address(|old(sizes)|, 0) && sizes == old(sizes) + [MEMORYBLOCK_SIZE]
      ensures pages == old(pages)[c := old(pages)[c] + [p.block]]
      ensures current == old(current)[c := BlockInfo(p.block, size)]
    {
      Added(regions, Region(|sizes|, 0, size));
      ListBlock(pages, c, sizes);
      ghost var listed := pages[c := pages[c] + [|sizes|]];
      forall x: nat
        ensures InPages(x, listed) <==> InPages(x, pages) || x == |sizes|
      {
        ListedBlocks(pages, c, |sizes|, x);
      }
      assert forall d :: 0 <= d < CLASSES ==> current[d].base in pages[d];
      BelowNew(regions, current, c, Region(|sizes|, 0, size));
      var b := Malloc(MEMORYBLOCK_SIZE);
      current := current[c := BlockInfo(b, size)];
      pages := pages[c := pages[c] + [b]];
      regions := regions + [Region(b, 0, size)];
      p := Address(b, 0);
      assert pages == listed;
    }

    /** A block handed out of the list of a request's class is in no other list. */
    lemma {:induction false} TheClass(n: nat, b: nat)
      requires 0 < n <= 512 && |pages| == 6 && Distinct(pages) && b in pages[ClassOf(n)]
      ensures forall c: nat :: c < 6 ==>
        (b in pages[c] <==> Align(n) <= Pow2(4 + c) && (c == 0 || Align(n) > Pow2(3 + c)))
      ensures forall c: nat :: c < 6 && b in pages[c] ==> c == ClassOf(n)
    {
      forall c: nat | c < 6
        ensures b in pages[c] ==> c == ClassOf(n)
        ensures b in pages[c] <==> Align(n) <= Pow2(4 + c) && (c == 0 || Align(n) > Pow2(3 + c))
      {
        ClassIs(n, c);
      }
    }

    /** The pages and the current block of one class after a request of a rounded size, and the address given. */
    ghost predicate Took(c: nat, size: nat, p: Address, was: seq<BlockInfo>, had: seq<seq<nat>>, heap: seq<nat>)
      requires c < |was| == |had|
      reads this
    {
      var BlockInfo(base, used) := was[c];
      if used + size <= 16384 then
        && p == Address(base, used) && pages == had && sizes == heap
        && current == was[c := BlockInfo(base, used + size)]
      else
        && p == Address(|heap|, 0) && sizes == heap + [16384]
        && pages == had[c := had[c] + [p.block]] && current == was[c := BlockInfo(p.block, size)]
    }

    /** The request of a rounded size from a class: from the current block, or from a new one. */
    method AllocIn(c: nat, size: nat) returns (p: Address)
      requires Valid() && c < CLASSES && size % 16 == 0 && size <= 512
      modifies `current, `pages, `sizes, `regions
      ensures Valid() && regions == old(regions) + [Region(p.block, p.offset, size)]
      ensures p.offset % 16 == 0 && p.block in pages[c] && p.block < |sizes| && sizes[p.block] == 16384
      ensures Took(c, size, p, old(current), old(pages), old(sizes))
    {
      if current[c].current + size <= MEMORYBLOCK_SIZE {
        p := Bump(c, size);
      } else {
        p := NewBlock(c, size);
      }
    }

    /** JSONMemoryPool_Alloc. It never clears the flag the caller passes in. */
    method Alloc(n: nat, malloced: bool) returns (p: Address, flag: bool)
      requires Valid() && n > 0
      modifies this
      ensures Valid()
      ensures regions == old(regions) + [Region(p.block, p.offset, if n > 512 then n else Align(n))]
      ensures flag == (malloced || n > 512)
      ensures direct == if n > 512 then old(direct) + {p.block} else old(direct)
      ensures n <= 512 ==> p.offset % 16 == 0 && p.block < |sizes| && sizes[p.block] == 16384
      ensures |pages| == |old(current)| == |old(pages)| == 6
      ensures n <= 512 ==> forall c: nat :: c < 6 ==>
        (p.block in pages[c] <==> Align(n) <= Pow2(4 + c) && (c == 0 || Align(n) > Pow2(3 + c)))
      ensures n <= 512 ==> forall c: nat :: c < 6 && p.block in pages[c] ==>
        Took(c, Align(n), p, old(current), old(pages), old(sizes))
      ensures n > 512 ==>
        && p == Address(|old(sizes)|, 0) && sizes == old(sizes) + [n]
        && pages == old(pages) && current == old(current)
    {
      if n > 512 {
        var b := Malloc(n);
        direct := direct + {b};
        regions := regions + [Region(b, 0, n)];
        return Address(b, 0), true;
      }
      AlignInRange(n);
      AlignRoundsUp(n);
      var size := Align(n);
      p := AllocIn(ClassOf(n), size);
      flag := malloced;
      TheClass(n, p.block);
    }

    /** A run of requests: every address given is the start of as many bytes as were asked for, shared with no other. */
    method AllocAll(requests: seq<nat>) returns (ps: seq<Address>)
      requires Valid() && forall n :: n in requests ==> n > 0
      modifies this
      ensures Valid() && |ps| == |requests| && old(regions) <= regions
      ensures forall i :: 0 <= i < |ps| ==> ps[i].block < |sizes| && ps[i].offset + requests[i] <= sizes[ps[i].block]
      ensures AllApart(Given(ps, requests))
      ensures forall r, i :: r in old(regions) && 0 <= i < |ps| ==> Apart(r, Given(ps, requests)[i])
    {
      ps := [];
      ghost var before := regions;
      var i: nat := 0;
      while i < |requests|
        invariant i <= |requests| && Valid() && |ps| == i && |regions| == |before| + i && before <= regions
        invariant forall k :: 0 <= k < i ==> Covers(regions[|before| + k], ps[k], requests[k])
      {
        assert requests[i] in requests;
        var p, flag := Alloc(requests[i], false);
        AlignRoundsUp(requests[i]);
        ps := ps + [p];
        i := i + 1;
      }
      GivenApart(regions, |before|, ps, requests);
    }

    /** JSONMemoryPool_Delete: every block the pool obtained is freed, and none twice; the others are the callers'. */
    method Delete()
      requires Valid()
      modifies `freed, `pages, `current
      ensures pages == [] && current == []
      ensures NoRepeat(freed)
      ensures forall b: nat :: b < |sizes| ==> (b in freed <==> b !in direct)
    {
      var c: nat := 0;
      assert pages[..0] == [];
      while c < |pages|
        invariant c <= |pages| && pages == old(pages) && freed == Blocks(pages[..c])
      {
        FreePage(c);
        c := c + 1;
      }
      assert pages[..c] == pages;
      forall b: nat | b < |sizes|
        ensures b in freed <==> b !in direct
      {
        BlocksAreInPages(b, pages);
      }
      BlocksDistinct(pages);
      pages, current := [], [];
    }

    method FreePage(c: nat)
      requires c < |pages| && PagesOk(pages, sizes) && freed == Blocks(pages[..c])
      modifies `freed
      ensures freed == Blocks(pages[..c + 1])
    {
      var page := pages[c];
      var k: nat := 0;
      while k < |page|
        invariant k <= |page| && freed == Blocks(pages[..c]) + page[..k]
      {
        NotYetFreed(pages, c, k);
        assert page[k] in pages[c];
        Free(page[k]);
        assert page[..k + 1] == page[..k] + [page[k]];
        k := k + 1;
      }
      assert pages[..c + 1][..c] == pages[..c] && page[..k] == page;
    }
  }
}
