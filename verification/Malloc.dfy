/** malloc, free and realloc over the kernel pool of pages (threads/malloc.c). */
module Malloc {
  import opened Options
  import opened Disk
  import opened Bits
  import opened Palloc
  import opened Arenas

  /** sizeof (struct block): the links of a free block. */
  const LINKS := 8

  type Memory = nat -> byte

  predicate InLinks(free: seq<nat>, x: nat) {
    exists f :: f in free && f <= x < f + LINKS
  }

  predicate InHeader(p: nat, x: nat) {
    PageOf(x) == p && x % PGSIZE < HEADER
  }

  predicate InBlock(b: nat, d: nat, x: nat) {
    b <= x < b + BlockSize(d)
  }

  /** The pages that a request of SIZE bytes may need, in 32-bit arithmetic. */
  function PagesFor(size: nat): nat {
    if size <= 1024 then 1 else ((size + HEADER) % B32 + PGSIZE - 1) % B32 / PGSIZE
  }

  /** A block of that many pages is large enough, except for the eleven largest requests. */
  lemma PagesEnough(size: nat)
    requires 1024 < size < B32 && PagesFor(size) > 0
    ensures size + HEADER <= B32 <==> size + HEADER <= PagesFor(size) * PGSIZE
    ensures size + HEADER > B32 ==> PagesFor(size) == 1
  {
    var n := (size + HEADER) % B32 + PGSIZE - 1;
    if size + HEADER < B32 {
      DivUnique(size + HEADER, B32, 0, size + HEADER);
    } else {
      DivUnique(size + HEADER, B32, 1, size + HEADER - B32);
    }
    if n < B32 {
      DivUnique(n, B32, 0, n);
    } else {
      DivUnique(n, B32, 1, n - B32);
    }
  }

  /** A big block has no page more than its request needs. */
  lemma PagesTight(size: nat)
    requires 1024 < size && size + HEADER <= B32 && PagesFor(size) > 0
    ensures PagesFor(size) * PGSIZE < size + HEADER + PGSIZE
  {
    var n := (size + HEADER) % B32 + PGSIZE - 1;
    if size + HEADER < B32 {
      DivUnique(size + HEADER, B32, 0, size + HEADER);
    } else {
      DivUnique(size + HEADER, B32, 1, size + HEADER - B32);
    }
    if n < B32 {
      DivUnique(n, B32, 0, n);
    } else {
      DivUnique(n, B32, 1, n - B32);
    }
  }

  /** N is the least power of two that is at least 16 and at least SIZE. */
  ghost predicate SizeClass(n: nat, size: nat) {
    (exists k: nat :: n == Pow2(k)) && 16 <= n && size <= n && (n == 16 || n < 2 * size)
  }

  lemma {:induction false} PowersOf2(d: nat)
    ensures BlockSize(d) == Pow2(d + 4)
  {
    if d > 0 {
      PowersOf2(d - 1);
    } else {
      assert Pow2(4) == 2 * Pow2(3) && Pow2(3) == 2 * Pow2(2) && Pow2(2) == 2 * Pow2(1) && Pow2(1) == 2 * Pow2(0);
    }
  }

  /** The first descriptor that is large enough has the right size, and no other has. */
  lemma ClassOf(d: nat, size: nat)
    requires size <= BlockSize(d) && (d > 0 ==> BlockSize(d - 1) < size)
    ensures SizeClass(BlockSize(d), size)
    ensures forall e: nat :: SizeClass(BlockSize(e), size) ==> e == d
  {
    PowersOf2(d);
    forall e: nat | SizeClass(BlockSize(e), size) ensures e == d {
      if e < d {
        SizesGrow(e, d - 1);
      } else if d < e {
        SizesGrow(d, e - 1);
      }
    }
  }

  /** From S to S2 block B has been taken from descriptor D: off the front of its free list, or, if that was
      empty, off a page that was free, whose other blocks are on the list now. */
  ghost predicate FromDesc(s: State, s2: State, d: nat, b: nat) {
    && d < |s.descs| == |s2.descs| && (forall e :: 0 <= e < |s.descs| && e != d ==> s2.descs[e] == s.descs[e])
    && s2.descs[d].blockSize == s.descs[d].blockSize
    && if s.descs[d].freeList != [] then s.descs[d].freeList == [b] + s2.descs[d].freeList && s2.used == s.used
       else && PageOf(b) !in s.used && s2.used == s.used + {PageOf(b)}
            && |s2.descs[d].freeList| == s.descs[d].blocksPerArena - 1
  }

  lemma BigUsable(arenas: map<nat, Arena>, p: nat, n: nat)
    requires p in arenas && arenas[p] == Big(n) && n > 0
    ensures PageOf(p * PGSIZE + HEADER) == p && Usable(arenas, p * PGSIZE + HEADER) == n * PGSIZE - HEADER
  {
    BigHead(p);
  }

  /** The largest request is taken for one of a single page. */
  lemma WrappedRequest()
    ensures PagesFor(B32 - 1) == 1 && PagesFor(B32 - 1) * PGSIZE < B32 - 1
  {
    DivUnique(B32 - 1 + HEADER, B32, 1, HEADER - 1);
  }

  /** Blocks in use in S, but for those in EXCEPT, are in use in S2 with the same bytes. */
  ghost predicate Kept(s: State, mem: Memory, s2: State, mem2: Memory, except: set<nat>) {
    forall a :: a in s.live && a !in except ==>
      && a in s2.live && s2.live[a] == s.live[a] && PageOf(a) in s.arenas && PageOf(a) in s2.arenas
      && Usable(s2.arenas, a) == Usable(s.arenas, a)
      && forall x :: a <= x < a + Usable(s.arenas, a) ==> mem2(x) == mem(x)
  }

  /** The bytes of a block in use lie on pages of its arena. */
  lemma LivePages(s: State, a: nat, x: nat)
    requires Core(s) && a in s.live && PageOf(a) in s.arenas && a <= x < a + Usable(s.arenas, a)
    ensures PageOf(x) in s.used && InArena(s.arenas, PageOf(x))
  {
    WithinArena(s, a);
  }

  /** Links and headers are not in blocks in use. */
  lemma Untouched(s: State, a: nat, x: nat, d: nat, p: nat)
    requires Core(s) && a in s.live && d < DESC_CNT && p in s.arenas
    requires PageOf(a) in s.arenas && a <= x < a + Usable(s.arenas, a)
    ensures !InLinks(s.descs[d].freeList, x) && !InHeader(p, x)
  {
    hide Pages, ArenaOk, FreeOk, NoDup, LiveOk;
    if InLinks(s.descs[d].freeList, x) {
      var f :| f in s.descs[d].freeList && f <= x < f + LINKS;
      ClearOfFree(s, a, d, f);
    }
    ClearOfHeaders(s, a, p);
  }

  lemma LiveArena(s: State, a: nat)
    requires Core(s) && a in s.live
    ensures PageOf(a) in s.arenas && ArenaOk(s, PageOf(a)) && LiveOk(s, a)
  {
    assert LiveOk(s, a);
  }

  /** A new arena leaves the blocks in use alone, whatever is written on its page. */
  lemma NewArenaKept(s: State, mem: Memory, mem2: Memory, p: nat, d: nat)
    requires Core(s) && d < DESC_CNT && p !in s.used
    requires forall x :: PageOf(x) != p ==> mem2(x) == mem(x)
    ensures Shape(s.descs) && Kept(s, mem, NewArena(s, p, d), mem2, {})
  {
    hide PageOf, BlockSize, Blocks, FirstBlocks, Pages, ArenaOk, NoDup, FreeOk;
    FreshPage(s, p);
    forall a, x | a in s.live && PageOf(a) in s.arenas && a <= x < a + Usable(s.arenas, a) ensures PageOf(x) != p {
      LivePages(s, a, x);
    }
  }

  lemma TakeKept(s: State, mem: Memory, mem2: Memory, d: nat, size: nat)
    requires Core(s) && d < DESC_CNT && s.descs[d].freeList != []
    requires forall x :: !InLinks(s.descs[d].freeList, x) && !InHeader(PageOf(s.descs[d].freeList[0]), x) ==>
               mem2(x) == mem(x)
    ensures Kept(s, mem, Take(s, d, size), mem2, {})
  {
    hide PageOf, BlockSize, Pages, ArenaOk, NoDup, InLinks, InHeader, IsBlock;
    TakeReady(s, d);
    var p := PageOf(s.descs[d].freeList[0]);
    forall a, x | a in s.live && PageOf(a) in s.arenas && a <= x < a + Usable(s.arenas, a) ensures mem2(x) == mem(x) {
      Untouched(s, a, x, d, p);
    }
  }

  /** Filling a block on its way back to the free list touches no other block. */
  lemma PutKept(s: State, mem: Memory, mem2: Memory, b: nat, d: nat)
    requires Core(s) && b in s.live && PageOf(b) in s.arenas && s.arenas[PageOf(b)].Small?
               && s.arenas[PageOf(b)].desc == d < DESC_CNT
    requires forall x :: !InLinks(s.descs[d].freeList, x) && !InHeader(PageOf(b), x) && !InBlock(b, d, x) ==>
               mem2(x) == mem(x)
    ensures Kept(s, mem, Put(s, b), mem2, {b})
  {
    hide PageOf, BlockSize, Pages, ArenaOk, NoDup, InLinks, InHeader, IsBlock, FreeOk;
    forall a, x | a in s.live && a != b && PageOf(a) in s.arenas && a <= x < a + Usable(s.arenas, a)
      ensures mem2(x) == mem(x)
    {
      Untouched(s, a, x, d, PageOf(b));
      if a < b {
        LiveApart(s, a, b);
      } else {
        LiveApart(s, b, a);
      }
    }
  }

  /** Filling the page of an arena that goes back to the pool touches no block in use. */
  lemma DropKept(s: State, mem: Memory, mem2: Memory, p: nat, free: seq<nat>)
    requires Core(s) && p in s.arenas && s.arenas[p].Small? && s.arenas[p].desc < DESC_CNT
    requires s.arenas[p].freeCnt == Blocks(s.arenas[p].desc)
    requires var d := s.arenas[p].desc;
             forall x :: !InLinks(s.descs[d].freeList, x) && PageOf(x) != p ==> mem2(x) == mem(x)
    ensures Kept(s, mem, Drop(s, p, free), mem2, {})
  {
    hide PageOf, BlockSize, Pages, ArenaOk, NoDup, InLinks, IsBlock, FreeOk;
    AllFree(s, p);
    var d := s.arenas[p].desc;
    forall a, x | a in s.live && PageOf(a) in s.arenas && a <= x < a + Usable(s.arenas, a) ensures mem2(x) == mem(x) {
      Untouched(s, a, x, d, p);
      OnOtherPage(s, a, x, p);
    }
  }

  /** The bytes of a block in use are not on another arena's pages. */
  lemma OnOtherPage(s: State, a: nat, x: nat, p: nat)
    requires Core(s) && a in s.live && p in s.arenas && PageOf(a) != p
    requires PageOf(a) in s.arenas && a <= x < a + Usable(s.arenas, a)
    ensures !(p <= PageOf(x) < p + Span(s.arenas[p]))
  {
    hide ArenaOk, LiveOk, NoDup, FreeOk, InArena;
    WithinArena(s, a);
  }

  lemma NewBigKept(s: State, mem: Memory, mem2: Memory, p: nat, n: nat, size: nat)
    requires Core(s) && n > 0 && Range(p, n) !! s.used
    requires forall x :: !InHeader(p, x) ==> mem2(x) == mem(x)
    ensures Kept(s, mem, NewBig(s, p, n, size), mem2, {})
  {
    hide BlockSize, Pages, ArenaOk, NoDup, IsBlock, FreeOk, PageOf;
    assert p in Range(p, n);
    FreshPage(s, p);
    BigHead(p);
    forall a, x | a in s.live && PageOf(a) in s.arenas && a <= x < a + Usable(s.arenas, a) ensures mem2(x) == mem(x) {
      LivePages(s, a, x);
    }
  }

  lemma DropBigKept(s: State, mem: Memory, mem2: Memory, p: nat)
    requires Core(s) && p in s.arenas && s.arenas[p].Big?
    requires forall x :: !(p <= PageOf(x) < p + Span(s.arenas[p])) ==> mem2(x) == mem(x)
    ensures Kept(s, mem, DropBig(s, p), mem2, {p * PGSIZE + HEADER})
  {
    hide Core, PageOf, BlockSize;
    forall a | a in s.live && a != p * PGSIZE + HEADER
      ensures PageOf(a) != p && PageOf(a) in s.arenas
      ensures forall x :: a <= x < a + Usable(s.arenas, a) ==> mem2(x) == mem(x)
    {
      NotOnBig(s, p, a);
      OtherBytes(s, mem, mem2, p, a);
    }
  }

  /** A big block is alone in its arena. */
  lemma NotOnBig(s: State, p: nat, a: nat)
    requires Core(s) && p in s.arenas && s.arenas[p].Big? && a in s.live && a != p * PGSIZE + HEADER
    ensures PageOf(a) != p && PageOf(a) in s.arenas
  {
    hide BlockSize, Pages, ArenaOk, NoDup, IsBlock, FreeOk;
    BigHead(p);
    assert LiveOk(s, a);
  }

  lemma OtherBytes(s: State, mem: Memory, mem2: Memory, p: nat, a: nat)
    requires Core(s) && p in s.arenas && s.arenas[p].Big? && a in s.live && PageOf(a) != p && PageOf(a) in s.arenas
    requires forall x :: !(p <= PageOf(x) < p + Span(s.arenas[p])) ==> mem2(x) == mem(x)
    ensures forall x :: a <= x < a + Usable(s.arenas, a) ==> mem2(x) == mem(x)
  {
    hide BlockSize, Pages, ArenaOk, NoDup, IsBlock, FreeOk;
    forall x | a <= x < a + Usable(s.arenas, a) ensures mem2(x) == mem(x) {
      OnOtherPage(s, a, x, p);
    }
  }

  lemma KeptTwice(s: State, m: Memory, s2: State, m2: Memory, s3: State, m3: Memory, e: set<nat>)
    requires Kept(s, m, s2, m2, e) && (Kept(s2, m2, s3, m3, e) || Kept(s2, m2, s3, m3, {}))
    ensures Kept(s, m, s3, m3, e)
  {
    hide PageOf;
  }

  /** The position of the block at A on a list. */
  function PositionOf(free: seq<nat>, a: nat): (k: nat)
    requires a in free
    ensures k < |free| && free[k] == a
  {
    if free[0] == a then 0 else 1 + PositionOf(free[1..], a)
  }

  /** list_remove of the block at A. */
  function Without(free: seq<nat>, a: nat): (r: seq<nat>)
    requires a in free
  {
    var k := PositionOf(free, a);
    free[..k] + free[k + 1..]
  }

  lemma WithoutOne(free: seq<nat>, a: nat)
    requires a in free && NoDup(free)
    ensures NoDup(Without(free, a)) && forall x :: x in Without(free, a) <==> x in free && x != a
  {
    var k := PositionOf(free, a);
    var r := Without(free, a);
    forall x ensures x in r <==> x in free && x != a {
      if x in free && x != a {
        var i :| 0 <= i < |free| && free[i] == x;
        assert x == if i < k then r[i] else r[i - 1];
      }
    }
  }

  ghost predicate SameBut(m: Memory, m2: Memory, a: nat, n: nat) {
    forall x: nat :: !(a <= x < a + n) ==> m2(x) == m(x)
  }

  ghost function Bytes(m: Memory, a: nat, n: nat): (r: seq<byte>)
    ensures |r| == n
  {
    seq(n, i requires 0 <= i < n => m(a + i))
  }

  lemma KeptExcept(s: State, m: Memory, s2: State, m2: Memory, e: set<nat>)
    requires Kept(s, m, s2, m2, {})
    ensures Kept(s, m, s2, m2, e)
  {
    hide PageOf, Usable;
  }

  lemma KeptOne(s: State, m: Memory, s2: State, m2: Memory, b: nat, e: set<nat>, n: nat)
    requires Kept(s, m, s2, m2, e) && b in s.live && b !in e
    ensures b in s2.live && UsableAt(s2, b) == UsableAt(s, b)
    ensures n <= UsableAt(s, b) ==> Bytes(m2, b, n) == Bytes(m, b, n)
  {
    hide PageOf, Usable;
  }

  /** Filling a block changes no other. */
  lemma CopyKept(s: State, m: Memory, m2: Memory, to: nat, n: nat)
    requires Core(s) && to in s.live && n <= UsableAt(s, to) && SameBut(m, m2, to, n)
    ensures Kept(s, m, s, m2, {to})
  {
    hide Core, PageOf, Usable;
    LiveArena(s, to);
    forall a | a in s.live ensures PageOf(a) in s.arenas {
      LiveArena(s, a);
    }
    forall a, x | a in s.live && a != to && a <= x < a + Usable(s.arenas, a) ensures m2(x) == m(x) {
      if a < to {
        LiveApart(s, a, to);
      } else {
        LiveApart(s, to, a);
      }
    }
  }

  lemma KeptBut(s: State, m: Memory, s2: State, m2: Memory, s3: State, m3: Memory, from: nat, to: nat)
    requires Kept(s, m, s2, m2, {}) && Kept(s2, m2, s3, m3, {from, to}) && to !in s.live
    ensures Kept(s, m, s3, m3, {from})
  {
    hide PageOf, Usable;
  }

  /** The bytes of the block at B. */
  function UsableAt(s: State, b: nat): nat {
    if PageOf(b) in s.arenas then Usable(s.arenas, b) else 0
  }

  lemma MoveKept(s: State, m: Memory, m2: Memory, s3: State, m3: Memory, from: nat, to: nat, n: nat)
    requires Core(s) && from != to && to in s.live && Kept(s, m2, s3, m3, {from})
    requires SameBut(m, m2, to, n) && Bytes(m2, to, n) == Bytes(m, from, n)
    ensures PageOf(to) in s3.arenas && UsableAt(s3, to) == UsableAt(s, to)
    ensures n <= UsableAt(s, to) ==> Kept(s, m, s3, m3, {from, to}) && Bytes(m3, to, n) == Bytes(m, from, n)
  {
    hide Core, Kept, UsableAt, Bytes, SameBut, PageOf;
    KeptArena(s, m2, s3, m3, to, {from});
    KeptOne(s, m2, s3, m3, to, {from}, n);
    if n <= UsableAt(s, to) {
      CopyKept(s, m, m2, to, n);
      KeptJoin(s, m, m2, s3, m3, from, to);
    }
  }

  lemma KeptArena(s: State, m: Memory, s2: State, m2: Memory, b: nat, e: set<nat>)
    requires Kept(s, m, s2, m2, e) && b in s.live && b !in e
    ensures PageOf(b) in s2.arenas
  {
  }

  lemma UsableIs(s: State, b: nat)
    requires PageOf(b) in s.arenas
    ensures UsableAt(s, b) == Usable(s.arenas, b)
  {
  }

  lemma Copied(m: Memory, m2: Memory, to: nat, from: nat, n: nat)
    requires forall x: nat {:trigger m2(x)} :: m2(x) == if to <= x < to + n then m(from + x - to) else m(x)
    ensures SameBut(m, m2, to, n) && Bytes(m2, to, n) == Bytes(m, from, n)
  {
    forall i | 0 <= i < n ensures Bytes(m2, to, n)[i] == Bytes(m, from, n)[i] {
      assert m2(to + i) == m(from + (to + i) - to);
    }
  }

  lemma KeptBytes(s: State, m: Memory, s2: State, m2: Memory, b: nat)
    requires Kept(s, m, s2, m2, {}) && b in s.live
    ensures forall n: nat :: n <= UsableAt(s, b) ==> Bytes(m2, b, n) == Bytes(m, b, n)
  {
    forall n: nat | n <= UsableAt(s, b) ensures Bytes(m2, b, n) == Bytes(m, b, n) {
      KeptOne(s, m, s2, m2, b, {}, n);
    }
  }

  lemma KeptJoin(s: State, m: Memory, m2: Memory, s3: State, m3: Memory, from: nat, to: nat)
    requires Kept(s, m, s, m2, {to}) && Kept(s, m2, s3, m3, {from})
    ensures Kept(s, m, s3, m3, {from, to}) && (from != to && to in s.live ==> PageOf(to) in s3.arenas)
  {
    hide PageOf, Usable;
  }

  function Min(a: nat, b: nat): nat {
    if a < b then a else b
  }

  /** The new size does not wrap, or the old block is no larger than what malloc gives for one that
      does. */
  predicate CopyFits(newSize: nat, oldSize: nat) {
    newSize + HEADER <= B32 || oldSize <= PGSIZE - HEADER
  }

  /** The copy of realloc stays within the new block, of USABLE bytes, exactly in that case. */
  lemma FitsIff(newSize: nat, oldSize: nat, usable: nat)
    requires newSize < B32 && (newSize <= usable <==> newSize + HEADER <= B32)
    requires newSize + HEADER > B32 ==> usable == PGSIZE - HEADER
    ensures Min(newSize, oldSize) <= usable <==> CopyFits(newSize, oldSize)
  {
  }

  /** Asked for the largest size, realloc of a block of two pages copies more than the one page it gets. */
  lemma WrappedCopy()
    ensures var oldSize := 2 * PGSIZE - HEADER;
            !CopyFits(B32 - 1, oldSize) && Min(B32 - 1, oldSize) > PagesFor(B32 - 1) * PGSIZE - HEADER
  {
    WrappedRequest();
  }

  class Heap {
    const pool: Pool
    var descs: seq<Desc>
    var arenas: map<nat, Arena>
    var mem: Memory
    ghost var live: map<nat, nat>
    ghost var others: set<nat>

    ghost function S(): State
      reads this, pool.used.bits
      requires pool.Valid()
    {
      State(descs, arenas, live, pool.Used(), others)
    }

    ghost predicate Valid()
      reads this, pool.used.bits
    {
      pool.Valid() && Inv(S())
    }

    /** malloc_init; the rest of the kernel may have pages already. */
    constructor (pool: Pool, mem: Memory)
      requires pool.Valid()
      ensures Valid() && this.pool == pool && this.mem == mem && live == map[] && arenas == map[]
                && others == pool.Used()
    {
      this.pool, arenas, this.mem, live, others := pool, map[], mem, map[], pool.Used();
      var ds: seq<Desc>, blockSize := [], 16;
      while blockSize < PGSIZE / 2
        invariant |ds| <= DESC_CNT && blockSize == BlockSize(|ds|)
        invariant forall d :: 0 <= d < |ds| ==> ds[d] == Desc(BlockSize(d), Blocks(d), [])
        decreases DESC_CNT - |ds|
      {
        Sizes();
        ds := ds + [Desc(blockSize, (PGSIZE - HEADER) / blockSize, [])];
        blockSize := blockSize * 2;
      }
      Sizes();
      SizesGrow(|ds|, DESC_CNT);
      descs := ds;
    }

    /** The descriptor loop of malloc. */
    method FindDesc(size: nat) returns (d: nat)
      requires Shape(descs)
      ensures d <= DESC_CNT && (d < DESC_CNT <==> size <= 1024)
      ensures d < DESC_CNT ==> size <= BlockSize(d)
      ensures forall e :: 0 <= e < d ==> BlockSize(e) < size
    {
      d := 0;
      while d < |descs| && descs[d].blockSize < size
        invariant d <= DESC_CNT && forall e :: 0 <= e < d ==> BlockSize(e) < size
      {
        d := d + 1;
      }
      Sizes();
      if d < DESC_CNT {
        SizesGrow(d, 6);
      }
    }

    /** malloc of a block too big for any descriptor. */
    method MallocBig(size: nat, junk: Memory) returns (r: Option<nat>)
      requires Valid() && 1024 < size < B32
      modifies this, pool.used.bits
      ensures Valid() && others == old(others) && Kept(old(S()), old(mem), S(), mem, {})
      ensures r.None? ==> S() == old(S()) && mem == old(mem) && NoRoom(size)
      ensures r.Some? ==> r.value !in old(live) && live == old(live)[r.value := size] && PageOf(r.value) in arenas
      ensures r.Some? ==> (size <= Usable(arenas, r.value) <==> size + HEADER <= B32)
      ensures r.Some? && size + HEADER > B32 ==> Usable(arenas, r.value) == PGSIZE - HEADER
      ensures r.Some? && size + HEADER <= B32 ==> Usable(arenas, r.value) < size + PGSIZE
      ensures descs == old(descs)
    {
      hide Inv, Kept, Range, PageOf, Usable, Pool.Used;
      ghost var s := S();
      var m := mem;
      var pageCnt := ((size + HEADER) % B32 + PGSIZE - 1) % B32 / PGSIZE;
      var a := pool.Get(pageCnt);
      if a.None? {
        NothingChanged(s, m);
        return None;
      }
      PagesEnough(size);
      if size + HEADER <= B32 {
        PagesTight(size);
      }
      var p := a.value;
      mem := (x: nat) => if InHeader(p, x) then junk(x) else m(x);
      arenas := arenas[p := Big(pageCnt)];
      r := Some(p * PGSIZE + HEADER);
      live := live[r.value := size];
      assert S() == NewBig(s, p, pageCnt, size);
      NewBigKeeps(s, p, pageCnt, size);
      InvCore(s);
      NewBigKept(s, m, mem, p, pageCnt, size);
      BigUsable(arenas, p, pageCnt);
    }

    /** malloc's creation of an arena when the free list of descriptor D is empty. */
    method AddArena(d: nat, junk: Memory) returns (ok: bool, ghost p: nat)
      requires Valid() && d < DESC_CNT && descs[d].freeList == []
      modifies this, pool.used.bits
      ensures pool.Valid() && Shape(descs) && live == old(live) && others == old(others)
      ensures Kept(old(S()), old(mem), S(), mem, {})
      ensures !ok ==> S() == old(S()) && mem == old(mem) && Valid()
                      && forall q :: pool.base <= q && q + 1 <= pool.base + pool.used.bitCnt ==>
                          Range(q, 1) * pool.Used() != {}
      ensures ok ==> Core(S()) && descs[d].freeList != [] && InUse(arenas, PageOf(descs[d].freeList[0]))
      ensures ok ==> p !in old(S()).used && S() == NewArena(old(S()), p, d)
    {
      hide Inv, Kept, Core, InUse, FirstBlocks, Blocks, Block, Pool.Used;
      ghost var s := S();
      var m := mem;
      InvCore(s);
      var a := pool.Get(1);
      if a.None? {
        NothingChanged(s, m);
        return false, 0;
      }
      var q := a.value;
      p := q;
      assert p in Range(p, 1);
      mem := (x: nat) => if PageOf(x) == q then junk(x) else m(x);
      arenas := arenas[q := Small(d, descs[d].blocksPerArena)];
      var n, i, list := descs[d].blocksPerArena, 0, [];
      while i < n
        invariant i <= n && list == FirstBlocks(q, d, i)
        modifies {}
      {
        list := list + [Block(q, d, i)];
        i := i + 1;
        FirstBlocksNext(q, d, i);
      }
      descs := descs[d := descs[d].(freeList := list)];
      assert S() == NewArena(s, p, d);
      NewArenaKeeps(s, p, d);
      NewArenaKept(s, m, mem, p, d);
      FirstOfArena(p, d);
      ok := true;
    }

    /** malloc's taking a block off a free list that is not empty. */
    method TakeBlock(d: nat, size: nat, junk: Memory) returns (b: nat)
      requires pool.Valid() && Core(S()) && d < DESC_CNT && descs[d].freeList != [] && size <= BlockSize(d)
      requires InUse(arenas, PageOf(descs[d].freeList[0]))
      modifies this
      ensures Valid() && others == old(others) && Kept(old(S()), old(mem), S(), mem, {})
      ensures b !in old(live) && live == old(live)[b := size] && PageOf(b) in arenas
      ensures Usable(arenas, b) == BlockSize(d)
      ensures b == old(descs)[d].freeList[0] && S() == Take(old(S()), d, size) && Took(old(S()), S(), d, b)
    {
      hide Inv, Kept, Core, InUse, Pool.Used, PageOf, BlockSize, IsBlock, Pages, NoDup;
      ghost var s := S();
      CoreShape(s);
      TakeKeeps(s, d, size);
      var m, free := mem, descs[d].freeList;
      b := free[0];
      var p := PageOf(b);
      mem := (x: nat) => if InLinks(free, x) || InHeader(p, x) then junk(x) else m(x);
      descs := descs[d := descs[d].(freeList := free[1..])];
      arenas := arenas[p := arenas[p].(freeCnt := arenas[p].freeCnt - 1)];
      live := live[b := size];
      assert S() == Take(s, d, size);
      TakeKept(s, m, mem, d, size);
      TakeBack(s.descs, descs, d, b);
      CoreInv(S());
    }

    /** malloc of a block of descriptor D. */
    method MallocSmall(d: nat, size: nat, junk: Memory) returns (r: Option<nat>)
      requires Valid() && d < DESC_CNT && 0 < size <= BlockSize(d)
      modifies this, pool.used.bits
      ensures Valid() && others == old(others) && Kept(old(S()), old(mem), S(), mem, {})
      ensures r.None? ==> S() == old(S()) && mem == old(mem)
                          && forall q :: pool.base <= q && q + 1 <= pool.base + pool.used.bitCnt ==>
                              Range(q, 1) * pool.Used() != {}
      ensures r.Some? ==> r.value !in old(live) && live == old(live)[r.value := size]
      ensures r.Some? ==> PageOf(r.value) in arenas && Usable(arenas, r.value) == BlockSize(d)
      ensures r.Some? ==> FromDesc(old(S()), S(), d, r.value)
      ensures r.None? ==> descs[d].freeList == []
    {
      hide Inv, Kept, Core, InUse, Pool.Used, PageOf, BlockSize, Usable;
      ghost var s0, m0, p := S(), mem, 0;
      InvCore(s0);
      NothingChanged(s0, m0);
      if descs[d].freeList == [] {
        var ok;
        ok, p := AddArena(d, junk);
        if !ok {
          return None;
        }
      } else {
        InUseAll(arenas, PageOf(descs[d].freeList[0]));
      }
      ghost var s, m := S(), mem;
      var b := TakeBlock(d, size, junk);
      KeptTwice(s0, m0, s, m, S(), mem, {});
      if s0.descs[d].freeList == [] {
        FromNewArena(s0, S(), p, d, b);
      }
      r := Some(b);
    }

    /** malloc; null (None) is returned only for size 0 and when pages are not available.  The block
        is as large as asked unless the size is one of the eleven that wrap. */
    method Alloc(size: nat, junk: Memory) returns (r: Option<nat>)
      requires Valid() && size < B32
      modifies this, pool.used.bits
      ensures Valid() && others == old(others) && Kept(old(S()), old(mem), S(), mem, {})
      ensures r.None? ==> S() == old(S()) && mem == old(mem) && (size == 0 || NoRoom(size))
      ensures r.Some? ==>
                size > 0 && r.value !in old(live) && live == old(live)[r.value := size] && PageOf(r.value) in arenas
      ensures r.Some? ==> (size <= Usable(arenas, r.value) <==> size + HEADER <= B32)
      ensures r.Some? && size + HEADER > B32 ==> Usable(arenas, r.value) == PGSIZE - HEADER
      ensures r.Some? && size <= 1024 ==>
                && SizeClass(Usable(arenas, r.value), size)
                && exists d :: && 0 <= d < |old(descs)| && SizeClass(old(descs)[d].blockSize, size)
                               && FromDesc(old(S()), S(), d, r.value)
      ensures r.None? && size > 0 ==>
                forall d :: 0 <= d < |descs| && SizeClass(descs[d].blockSize, size) ==> descs[d].freeList == []
      ensures r.Some? && size > 1024 ==>
                descs == old(descs) && (size + HEADER <= B32 ==> Usable(arenas, r.value) < size + PGSIZE)
    {
      hide Inv, Kept, Core, InUse, Pool.Used, PageOf, BlockSize, Usable, Range, SizeClass, FromDesc;
      ghost var s := S();
      InvCore(s);
      NothingChanged(s, mem);
      if size == 0 {
        return None;
      }
      var d := FindDesc(size);
      if d == |descs| {
        NoClass(s, size);
        r := MallocBig(size, junk);
      } else {
        ClassOf(d, size);
        r := MallocSmall(d, size, junk);
      }
    }

    /** free of a block of a descriptor, but for giving back the arena. */
    method PutBlock(b: nat, junk: Memory)
      requires Valid() && b in live && PageOf(b) in arenas && arenas[PageOf(b)].Small?
                 && arenas[PageOf(b)].desc < DESC_CNT
      modifies this
      ensures pool.Valid() && Core(S()) && S() == Put(old(S()), b) && Kept(old(S()), old(mem), S(), mem, {b})
      ensures var p := PageOf(b);
              p in arenas && arenas[p].Small? && arenas[p].desc == old(arenas)[p].desc
              && arenas[p].freeCnt <= Blocks(arenas[p].desc)
              && InUse(arenas, if arenas[p].freeCnt < Blocks(arenas[p].desc) then -1 else p)
    {
      hide Inv, Kept, Core, InUse, Pool.Used, PageOf, BlockSize, IsBlock, Pages, NoDup, Blocks, InBlock, InLinks,
        InHeader;
      ghost var s := S();
      ghost var m := mem;
      var p := PageOf(b);
      var d := arenas[p].desc;
      InvCore(s);
      var free := descs[d].freeList;
      FillBlock(b, d, free, junk);
      descs := descs[d := descs[d].(freeList := [b] + free)];
      arenas := arenas[p := arenas[p].(freeCnt := arenas[p].freeCnt + 1)];
      live := live - {b};
      assert S() == Put(s, b);
      PutKeeps(s, b);
      PutKept(s, m, mem, b, d);
    }

    /** The block is filled, and it, its header and other free blocks get new links and counts. */
    method FillBlock(b: nat, d: nat, free: seq<nat>, junk: Memory)
      modifies this`mem
      ensures forall x :: !InLinks(free, x) && !InHeader(PageOf(b), x) && !InBlock(b, d, x) ==> mem(x) == old(mem)(x)
    {
      var m, p := mem, PageOf(b);
      mem := (x: nat) => if InLinks(free, x) || InHeader(p, x) || InBlock(b, d, x) then junk(x) else m(x);
    }

    /** free's giving back an arena that has all its blocks free. */
    method DropArena(p: nat, junk: Memory)
      requires pool.Valid() && Core(S()) && InUse(arenas, p) && p in arenas && arenas[p].Small?
                 && arenas[p].desc < DESC_CNT
      requires arenas[p].freeCnt == Blocks(arenas[p].desc)
      modifies this, pool.used.bits
      ensures Valid() && live == old(live) && others == old(others) && arenas == old(arenas) - {p}
      ensures Kept(old(S()), old(mem), S(), mem, {})
    {
      hide Inv, Kept, Core, InUse, Pool.Used, PageOf, BlockSize, IsBlock, Pages, NoDup, Blocks, Block;
      ghost var s := S();
      var m, d := mem, arenas[p].desc;
      CoreShape(s);
      AllFree(s, p);
      ListOk(s, d);
      var free, n := descs[d].freeList, descs[d].blocksPerArena;
      var list, i := free, 0;
      while i < n
        invariant i <= n && NoDup(list)
        invariant forall x :: x in list <==> x in free && !Removed(x, p, d, i)
        modifies {}
      {
        var b := Block(p, d, i);
        NextRemoved(p, d, i);
        WithoutOne(list, b);
        list := Without(list, b);
        i := i + 1;
      }
      AllRemoved(s, p);
      mem := (x: nat) => if InLinks(free, x) || PageOf(x) == p then junk(x) else m(x);
      descs := descs[d := descs[d].(freeList := list)];
      arenas := arenas - {p};
      DropKeeps(s, p, list);
      PoolHas(pool, p, 1);
      pool.Free(p, 1);
      assert S() == Drop(s, p, list);
      DropKept(s, m, mem, p, list);
    }

    /** free of a big block. */
    method FreeBig(p: nat, junk: Memory)
      requires Valid() && p in arenas && arenas[p].Big?
      modifies this, pool.used.bits
      ensures Valid() && live == old(live) - {p * PGSIZE + HEADER} && others == old(others)
      ensures Kept(old(S()), old(mem), S(), mem, {p * PGSIZE + HEADER})
    {
      hide Inv, Kept, Core, InUse, Pool.Used, PageOf;
      ghost var s := S();
      var m, n := mem, arenas[p].pageCnt;
      InvCore(s);
      DropBigKeeps(s, p);
      mem := (x: nat) => if p <= PageOf(x) < p + n then junk(x) else m(x);
      arenas := arenas - {p};
      live := live - {p * PGSIZE + HEADER};
      BigNonEmpty(s, p);
      PoolHas(pool, p, n);
      pool.Free(p, n);
      assert S() == DropBig(s, p);
      DropBigKept(s, m, mem, p);
    }

    /** free */
    method Free(b: Option<nat>, junk: Memory)
      requires Valid() && (b.Some? ==> b.value in live)
      modifies this, pool.used.bits
      ensures Valid() && others == old(others) && live == if b.Some? then old(live) - {b.value} else old(live)
      ensures Kept(old(S()), old(mem), S(), mem, if b.Some? then {b.value} else {})
    {
      hide Inv, Kept, Core, InUse, Pool.Used, PageOf, BlockSize, IsBlock, Pages, NoDup, Blocks, Block;
      ghost var s0, m0 := S(), mem;
      InvCore(s0);
      if b.None? {
        NothingChanged(s0, m0);
        return;
      }
      var p := PageOf(b.value);
      LiveArena(s0, b.value);
      if arenas[p].Small? {
        PutBlock(b.value, junk);
        ghost var s, m := S(), mem;
        CoreShape(s);
        if arenas[p].freeCnt >= descs[arenas[p].desc].blocksPerArena {
          DropArena(p, junk);
          KeptTwice(s0, m0, s, m, S(), mem, {b.value});
        } else {
          CoreInv(s);
        }
      } else {
        BigAddress(s0, b.value);
        FreeBig(p, junk);
      }
    }

    /** block_size */
    method Size(b: nat) returns (n: nat)
      requires Valid() && b in live
      ensures PageOf(b) in arenas && n == Usable(arenas, b)
    {
      hide Pages, NoDup, IsBlock, BlockSize;
      LiveArena(S(), b);
      var a := arenas[PageOf(b)];
      match a {
        case Small(d, _) => n := descs[d].blockSize;
        case Big(k) => n := PGSIZE * k - b % PGSIZE;
      }
    }

    /** The end of realloc: memcpy to a new block and free of the old one. */
    method Move(from: nat, to: nat, newSize: nat, junk: Memory)
      requires Valid() && from in live && to in live && from != to
      modifies this, pool.used.bits
      ensures Valid() && others == old(others) && live == old(live) - {from} && PageOf(to) in arenas
      ensures UsableAt(S(), to) == UsableAt(old(S()), to)
      ensures var n := Min(newSize, UsableAt(old(S()), from));
              n <= UsableAt(old(S()), to) ==>
                Kept(old(S()), old(mem), S(), mem, {from, to}) && Bytes(mem, to, n) == Bytes(old(mem), from, n)
    {
      hide Inv, Core, Pool.Used, PageOf, Usable, Range, Kept, UsableAt, Bytes, SameBut;
      ghost var s := S();
      InvCore(s);
      var oldSize := Size(from);
      var n := if newSize < oldSize then newSize else oldSize;
      UsableIs(s, from);
      ghost var m := mem;
      Copy(to, from, n);
      ghost var m2 := mem;
      Free(Some(from), junk);
      MoveKept(s, m, m2, S(), mem, from, to, n);
    }

    /** memcpy */
    method Copy(to: nat, from: nat, n: nat)
      modifies this`mem
      ensures SameBut(old(mem), mem, to, n) && Bytes(mem, to, n) == Bytes(old(mem), from, n)
    {
      var m := mem;
      mem := (x: nat) => if to <= x < to + n then m(from + x - to) else m(x);
      Copied(m, mem, to, from, n);
    }

    /** realloc: the new block starts with the bytes of the old one, and all other blocks stay as they
        were, if CopyFits; exactly if not, more bytes are copied than the new block has. */
    method Realloc(b: Option<nat>, newSize: nat, junk: Memory) returns (r: Option<nat>)
      requires Valid() && newSize < B32 && (b.Some? ==> b.value in live)
      modifies this, pool.used.bits
      ensures pool.Valid()
      ensures newSize > 0 && r.None? ==> S() == old(S()) && mem == old(mem) && NoRoom(newSize)
      ensures r.Some? && b.Some? ==>
                var oldSize := UsableAt(old(S()), b.value);
                Min(newSize, oldSize) <= UsableAt(S(), r.value) <==> CopyFits(newSize, oldSize)
      ensures r.None? || b.None? || CopyFits(newSize, UsableAt(old(S()), b.value)) ==>
                && Valid() && others == old(others)
                && Kept(old(S()), old(mem), S(), mem, if b.Some? then {b.value} else {})
                && (newSize == 0 ==> r.None? && live == if b.Some? then old(live) - {b.value} else old(live))
                && (r.Some? ==> && r.value !in old(live) && PageOf(r.value) in arenas
                                && live == (if b.Some? then old(live) - {b.value} else old(live))[r.value := newSize])
                && (r.Some? && b.Some? ==>
                      var n := Min(newSize, UsableAt(old(S()), b.value));
                      Bytes(mem, r.value, n) == Bytes(old(mem), b.value, n))
    {
      hide Inv, Core, Pool.Used, PageOf, Usable, Range, Kept, UsableAt, Bytes, SameBut;
      ghost var s0, m0 := S(), mem;
      if newSize == 0 {
        Free(b, junk);
        return None;
      }
      r := Alloc(newSize, junk);
      KeptExcept(s0, m0, S(), mem, if b.Some? then {b.value} else {});
      if r.None? || b.None? {
        return;
      }
      ghost var s1, m1 := S(), mem;
      UsableIs(s1, r.value);
      KeptOne(s0, m0, s1, m1, b.value, {}, 0);
      KeptBytes(s0, m0, s1, m1, b.value);
      FitsIff(newSize, UsableAt(s0, b.value), UsableAt(s1, r.value));
      Move(b.value, r.value, newSize, junk);
      if CopyFits(newSize, UsableAt(s0, b.value)) {
        KeptBut(s0, m0, s1, m1, S(), mem, b.value, r.value);
      }
    }

    /** palloc_get_multiple on behalf of the rest of the kernel. */
    method TakePages(cnt: nat) returns (r: Option<nat>)
      requires Valid()
      modifies this, pool.used.bits
      ensures Valid() && S() == old(S()).(used := pool.Used(), others := others) && mem == old(mem)
      ensures others == old(others) + if r.Some? then Range(r.value, cnt) else {}
    {
      hide Inv;
      ghost var s := S();
      r := pool.Get(cnt);
      if r.Some? {
        others := others + Range(r.value, cnt);
        OthersTake(s, Range(r.value, cnt));
      }
    }

    /** palloc_free_multiple on behalf of the rest of the kernel. */
    method ReturnPages(page: nat, cnt: nat)
      requires Valid() && Range(page, cnt) <= others && cnt > 0
      modifies this, pool.used.bits
      ensures Valid() && S() == old(S()).(used := pool.Used(), others := others) && mem == old(mem)
      ensures others == old(others) - Range(page, cnt)
    {
      hide Inv;
      ghost var s := S();
      OthersReturn(s, Range(page, cnt));
      PoolHas(pool, page, cnt);
      pool.Free(page, cnt);
      others := others - Range(page, cnt);
    }

    /** There is no group of free pages for a request of SIZE bytes. */
    ghost predicate NoRoom(size: nat)
      reads pool.used.bits
      requires pool.Valid()
    {
      var n := PagesFor(size);
      n == 0 || forall q :: pool.base <= q && q + n <= pool.base + pool.used.bitCnt ==> Range(q, n) * pool.Used() != {}
    }
  }

  lemma OthersTake(s: State, r: set<nat>)
    requires Inv(s) && r !! s.used
    ensures Inv(s.(used := s.used + r, others := s.others + r))
  {
    var s' := s.(used := s.used + r, others := s.others + r);
    forall p | p in s.arenas ensures ArenaOk(s', p) {
      assert ArenaOk(s, p);
    }
    forall a | a in s.live ensures LiveOk(s', a) {
      assert LiveOk(s, a);
    }
  }

  lemma OthersReturn(s: State, r: set<nat>)
    requires Inv(s) && r <= s.others
    ensures r <= s.used && Inv(s.(used := s.used - r, others := s.others - r))
  {
    var s' := s.(used := s.used - r, others := s.others - r);
    forall p | p in s.arenas ensures ArenaOk(s', p) {
      assert ArenaOk(s, p);
    }
    forall a | a in s.live ensures LiveOk(s', a) {
      assert LiveOk(s, a);
    }
  }

  lemma FirstBlocksNext(p: nat, d: nat, i: nat)
    requires i > 0
    ensures FirstBlocks(p, d, i) == FirstBlocks(p, d, i - 1) + [Block(p, d, i - 1)]
  {
  }

  /** Requests of more than 1024 bytes have no descriptor. */
  lemma NoClass(s: State, size: nat)
    requires Shape(s.descs) && size > 1024
    ensures forall d :: 0 <= d < |s.descs| ==> !SizeClass(s.descs[d].blockSize, size)
  {
    Sizes();
    forall d | 0 <= d < |s.descs| ensures !SizeClass(s.descs[d].blockSize, size) {
      SizesGrow(d, 6);
    }
  }

  /** Block B has been taken off the front of the free list of descriptor D, and no other list has changed. */
  ghost predicate Took(s: State, s2: State, d: nat, b: nat) {
    && d < |s.descs| == |s2.descs| && (forall e :: 0 <= e < |s.descs| && e != d ==> s2.descs[e] == s.descs[e])
    && s2.descs[d].blockSize == s.descs[d].blockSize && s.descs[d].freeList == [b] + s2.descs[d].freeList
    && s2.used == s.used
  }

  lemma TakeBack(descs: seq<Desc>, descs2: seq<Desc>, d: nat, b: nat)
    requires d < |descs| && descs[d].freeList != [] && b == descs[d].freeList[0]
    requires descs2 == descs[d := descs[d].(freeList := descs[d].freeList[1..])]
    ensures descs[d].freeList == [b] + descs2[d].freeList
  {
  }

  lemma FromNewArena(s: State, s2: State, p: nat, d: nat, b: nat)
    requires Shape(s.descs) && d < DESC_CNT && s.descs[d].freeList == [] && p !in s.used
    requires Took(NewArena(s, p, d), s2, d, b)
    ensures FromDesc(s, s2, d, b)
  {
    FirstOfArena(p, d);
    assert Range(p, 1) == {p};
  }

  lemma FirstOfArena(p: nat, d: nat)
    requires d < DESC_CNT
    ensures var free := FirstBlocks(p, d, Blocks(d)); free != [] && PageOf(free[0]) == p
  {
    Sizes();
    SizesGrow(d, 6);
    DivUnique(PGSIZE - HEADER, BlockSize(d), Blocks(d), (PGSIZE - HEADER) % BlockSize(d));
    assert Blocks(d) == 0 ==> BlockSize(d) * Blocks(d) == 0;
    BlockToArena(p, d, 0);
  }

  /** The blocks of arena P with index below I. */
  ghost predicate Removed(x: nat, p: nat, d: nat, i: nat) {
    PageOf(x) == p && IsBlock(x, d) && IndexOf(x, d) < i
  }

  lemma NextRemoved(p: nat, d: nat, i: nat)
    requires i < Blocks(d)
    ensures forall x :: Removed(x, p, d, i + 1) <==> Removed(x, p, d, i) || x == Block(p, d, i)
    ensures !Removed(Block(p, d, i), p, d, i)
  {
    hide Blocks, BlockSize, PageOf, IsBlock, IndexOf, Block;
    BlockToArena(p, d, i);
    forall x | Removed(x, p, d, i + 1) && IndexOf(x, d) == i ensures x == Block(p, d, i) {
      ArenaToBlock(x, d);
    }
  }

  lemma ListOk(s: State, d: nat)
    requires Core(s) && d < DESC_CNT
    ensures NoDup(s.descs[d].freeList) && forall x :: x in s.descs[d].freeList ==> FreeOk(s.arenas, d, x)
    ensures forall x, p :: x in s.descs[d].freeList ==> !Removed(x, p, d, 0)
  {
    forall x, p | x in s.descs[d].freeList ensures !Removed(x, p, d, 0) {
      if IsBlock(x, d) {
        ArenaToBlock(x, d);
      }
    }
  }

  /** After the loop of free, no block of the arena is left on the free list. */
  lemma AllRemoved(s: State, p: nat)
    requires Core(s) && p in s.arenas && s.arenas[p].Small? && s.arenas[p].desc < DESC_CNT
    ensures forall x :: x in s.descs[s.arenas[p].desc].freeList ==>
              (PageOf(x) == p <==> Removed(x, p, s.arenas[p].desc, Blocks(s.arenas[p].desc)))
  {
    var d := s.arenas[p].desc;
    forall x | x in s.descs[d].freeList && PageOf(x) == p ensures Removed(x, p, d, Blocks(d)) {
      assert FreeOk(s.arenas, d, x);
    }
  }

  lemma PoolHas(pool: Pool, p: nat, n: nat)
    requires pool.Valid() && Range(p, n) <= pool.Used() && n > 0
    ensures pool.Owns(p) && p + n <= pool.base + pool.used.bitCnt
  {
    assert p in Range(p, n) && p + n - 1 in Range(p, n);
  }

  lemma BigNonEmpty(s: State, p: nat)
    requires Core(s) && p in s.arenas && s.arenas[p].Big?
    ensures s.arenas[p].pageCnt > 0
  {
    assert ArenaOk(s, p);
  }

  lemma BigAddress(s: State, a: nat)
    requires Core(s) && a in s.live && PageOf(a) in s.arenas && s.arenas[PageOf(a)].Big?
    ensures a == PageOf(a) * PGSIZE + HEADER
  {
    assert LiveOk(s, a);
  }

  lemma InUseAll(arenas: map<nat, Arena>, x: int)
    requires InUse(arenas, -1)
    ensures InUse(arenas, x)
  {
  }

  lemma CoreShape(s: State)
    requires Core(s)
    ensures Shape(s.descs)
  {
  }

  lemma CoreInv(s: State)
    requires Core(s) && InUse(s.arenas, -1)
    ensures Inv(s)
  {
  }

  lemma InvCore(s: State)
    requires Inv(s)
    ensures Core(s) && Shape(s.descs) && InUse(s.arenas, -1)
  {
  }

  lemma NothingChanged(s: State, mem: Memory)
    requires Inv(s)
    ensures Kept(s, mem, s, mem, {})
  {
    forall a | a in s.live ensures PageOf(a) in s.arenas {
      LiveArena(s, a);
    }
  }

  lemma Sizes()
    ensures BlockSize(6) == 1024 && BlockSize(7) == 2048
  {
    assert BlockSize(3) == 128;
  }

  lemma {:induction false} SizesGrow(d: nat, e: nat)
    requires d <= e
    ensures BlockSize(d) <= BlockSize(e) && (d < e ==> BlockSize(d) < BlockSize(e))
  {
    if d < e {
      SizesGrow(d, e - 1);
    }
  }
}
