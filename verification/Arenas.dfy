/** Arenas, blocks and free lists of the block allocator (threads/malloc.c), on values. */
module Arenas {
  import opened Bits
  import opened Palloc

  /** sizeof (struct arena) */
  const HEADER := 12
  const DESC_CNT := 7

  /** struct desc */
  datatype Desc = Desc(blockSize: nat, blocksPerArena: nat, freeList: seq<nat>)

  /** struct arena: of a descriptor, or heading a big block of pages. */
  datatype Arena = Small(desc: nat, freeCnt: nat) | Big(pageCnt: nat)

  /** The allocator: its descriptors, the arenas by page number, the addresses handed out and
      not freed, with the size asked for, the used pages of the pool, and those of them that the
      rest of the kernel got for itself. */
  datatype State = State(descs: seq<Desc>, arenas: map<nat, Arena>, live: map<nat, nat>, used: set<nat>,
                         others: set<nat>)

  // ---- Addresses ----

  function BlockSize(d: nat): (n: nat)
    ensures n >= 16
  {
    if d == 0 then 16 else 2 * BlockSize(d - 1)
  }

  function Blocks(d: nat): nat {
    DivNat(PGSIZE - HEADER, BlockSize(d));
    (PGSIZE - HEADER) / BlockSize(d)
  }

  /** arena_to_block */
  function Block(p: nat, d: nat, i: nat): nat {
    p * PGSIZE + HEADER + i * BlockSize(d)
  }

  /** pg_round_down, as a page number. */
  function PageOf(a: nat): nat {
    a / PGSIZE
  }

  function IndexOf(a: nat, d: nat): int {
    (a % PGSIZE - HEADER) / BlockSize(d)
  }

  /** A is where a block of descriptor D may start; implies the assertion of block_to_arena. */
  predicate IsBlock(a: nat, d: nat) {
    a % PGSIZE >= HEADER && (a % PGSIZE - HEADER) % BlockSize(d) == 0 && IndexOf(a, d) < Blocks(d)
  }

  /** Blocks lie within their page, behind the header. */
  lemma BlockFits(d: nat, i: nat)
    requires i < Blocks(d)
    ensures HEADER + i * BlockSize(d) + BlockSize(d) <= PGSIZE
  {
    var b := BlockSize(d);
    MulMonotone(b, i + 1, Blocks(d));
    assert b * (i + 1) == i * b + b;
    assert b * Blocks(d) <= PGSIZE - HEADER;
  }

  /** block_to_arena undoes arena_to_block. */
  lemma BlockToArena(p: nat, d: nat, i: nat)
    requires i < Blocks(d)
    ensures PageOf(Block(p, d, i)) == p && IsBlock(Block(p, d, i), d) && IndexOf(Block(p, d, i), d) == i
  {
    BlockFits(d, i);
    var o := HEADER + i * BlockSize(d);
    DivUnique(p * PGSIZE + o, PGSIZE, p, o);
    DivUnique(i * BlockSize(d), BlockSize(d), i, 0);
  }

  /** arena_to_block undoes block_to_arena. */
  lemma ArenaToBlock(a: nat, d: nat)
    requires IsBlock(a, d)
    ensures 0 <= IndexOf(a, d) < Blocks(d) && a == Block(PageOf(a), d, IndexOf(a, d))
    ensures PageOf(a) * PGSIZE + HEADER <= a && a + BlockSize(d) <= (PageOf(a) + 1) * PGSIZE
  {
    BlockFits(d, IndexOf(a, d));
  }

  /** Two blocks of one arena do not overlap. */
  lemma BlocksApart(a: nat, b: nat, d: nat)
    requires IsBlock(a, d) && IsBlock(b, d) && PageOf(a) == PageOf(b) && a < b
    ensures a + BlockSize(d) <= b
  {
    hide BlockSize, IsBlock, PageOf, IndexOf;
    ArenaToBlock(a, d);
    ArenaToBlock(b, d);
    Strides(IndexOf(a, d), IndexOf(b, d), BlockSize(d));
  }

  lemma Strides(i: nat, j: nat, n: nat)
    ensures if i < j then i * n + n <= j * n else j * n <= i * n
  {
    if i < j {
      MulMonotone(n, i + 1, j);
      assert n * (i + 1) == n * i + n;
    } else {
      MulMonotone(n, j, i);
    }
    assert n * i == i * n && n * j == j * n;
  }

  // ---- The invariant ----

  ghost predicate Shape(descs: seq<Desc>) {
    && |descs| == DESC_CNT
    && forall d :: 0 <= d < DESC_CNT ==> descs[d].blockSize == BlockSize(d) && descs[d].blocksPerArena == Blocks(d)
  }

  function Span(a: Arena): nat {
    if a.Small? then 1 else a.pageCnt
  }

  /** The blocks of arena P on a free list, by index. */
  ghost function FreeIdx(free: seq<nat>, p: nat, d: nat): set<nat> {
    set i | 0 <= i < Blocks(d) && Block(p, d, i) in free
  }

  ghost predicate ArenaOk(s: State, p: nat)
    requires Shape(s.descs) && p in s.arenas
  {
    match s.arenas[p]
    case Small(d, c) =>
      && d < DESC_CNT && c == |FreeIdx(s.descs[d].freeList, p, d)|
      && forall i :: 0 <= i < Blocks(d) ==> Block(p, d, i) in s.live || Block(p, d, i) in s.descs[d].freeList
    case Big(n) => n > 0 && p * PGSIZE + HEADER in s.live
  }

  /** A may be on the free list of D. */
  ghost predicate FreeOk(arenas: map<nat, Arena>, d: nat, a: nat) {
    PageOf(a) in arenas && arenas[PageOf(a)].Small? && arenas[PageOf(a)].desc == d && IsBlock(a, d)
  }

  ghost predicate LiveOk(s: State, a: nat)
    requires Shape(s.descs) && a in s.live
  {
    PageOf(a) in s.arenas &&
    match s.arenas[PageOf(a)]
    case Small(d, _) => d < DESC_CNT && IsBlock(a, d) && a !in s.descs[d].freeList && s.live[a] <= BlockSize(d)
    case Big(n) => a % PGSIZE == HEADER && (s.live[a] + HEADER <= B32 ==> s.live[a] + HEADER <= n * PGSIZE)
  }

  ghost predicate NoDup(s: seq<nat>) {
    forall i, j :: 0 <= i < j < |s| ==> s[i] != s[j]
  }

  /** Page Q belongs to some arena. */
  ghost predicate InArena(arenas: map<nat, Arena>, q: nat) {
    exists p :: p in arenas && p <= q < p + Span(arenas[p])
  }

  ghost predicate Lists(s: State) {
    && Shape(s.descs)
    && (forall d, a :: 0 <= d < DESC_CNT && a in s.descs[d].freeList ==> FreeOk(s.arenas, d, a))
    && (forall d :: 0 <= d < DESC_CNT ==> NoDup(s.descs[d].freeList))
  }

  /** Arenas do not overlap, their pages are used, and every used page is either an arena's or
      the rest of the kernel's. */
  ghost predicate Pages(arenas: map<nat, Arena>, used: set<nat>, others: set<nat>) {
    && (forall p, q :: p in arenas && q in arenas && p < q ==> p + Span(arenas[p]) <= q)
    && (forall q :: q in used <==> q in others || InArena(arenas, q))
    && (forall q :: q in others ==> !InArena(arenas, q))
  }

  ghost predicate Core(s: State) {
    && Lists(s) && Pages(s.arenas, s.used, s.others)
    && (forall p :: p in s.arenas ==> ArenaOk(s, p))
    && (forall a :: a in s.live ==> LiveOk(s, a))
  }

  /** Every arena, except perhaps X, has a block in use. */
  ghost predicate InUse(arenas: map<nat, Arena>, x: int) {
    forall p :: p in arenas && p != x && arenas[p].Small? ==> arenas[p].freeCnt < Blocks(arenas[p].desc)
  }

  ghost predicate Inv(s: State) {
    Core(s) && InUse(s.arenas, -1)
  }

  // ---- What the invariant says ----

  /** block_size: the bytes that belong to the block at A. */
  function Usable(arenas: map<nat, Arena>, a: nat): nat
    requires PageOf(a) in arenas
  {
    match arenas[PageOf(a)]
    case Small(d, _) => BlockSize(d)
    case Big(n) => if n * PGSIZE < HEADER then 0 else n * PGSIZE - HEADER
  }

  /** Blocks in use are as large as asked, if adding the header to the size does not wrap. */
  lemma LargeEnough(s: State, a: nat)
    requires Core(s) && a in s.live && s.live[a] + HEADER <= B32
    ensures PageOf(a) in s.arenas && s.live[a] <= Usable(s.arenas, a)
  {
    assert LiveOk(s, a);
  }

  /** The block at A, in use or free, lies within its arena behind the header. */
  lemma WithinArena(s: State, a: nat)
    requires Core(s) && (a in s.live || exists d :: 0 <= d < DESC_CNT && a in s.descs[d].freeList)
    ensures PageOf(a) in s.arenas && PageOf(a) * PGSIZE + HEADER <= a
    ensures a + Usable(s.arenas, a) <= (PageOf(a) + Span(s.arenas[PageOf(a)])) * PGSIZE
  {
    var p := PageOf(a);
    if a in s.live {
      assert LiveOk(s, a);
    }
    assert ArenaOk(s, p);
    if s.arenas[p].Small? {
      ArenaToBlock(a, s.arenas[p].desc);
    }
  }

  /** Arenas are apart, in bytes. */
  lemma ArenasApart(s: State, p: nat, q: nat)
    requires Core(s) && p in s.arenas && q in s.arenas && p < q
    ensures (p + Span(s.arenas[p])) * PGSIZE <= q * PGSIZE
  {
  }

  /** Blocks in use do not overlap. */
  lemma LiveApart(s: State, a: nat, b: nat)
    requires Core(s) && a in s.live && b in s.live && a < b
    ensures PageOf(a) in s.arenas && a + Usable(s.arenas, a) <= b
  {
    hide IsBlock, BlockSize, Pages, ArenaOk, InArena, NoDup;
    WithinArena(s, a);
    WithinArena(s, b);
    var p, q := PageOf(a), PageOf(b);
    assert LiveOk(s, a) && LiveOk(s, b);
    if p < q {
      ArenasApart(s, p, q);
    } else if s.arenas[p].Small? {
      BlocksApart(a, b, s.arenas[p].desc);
    }
  }

  /** Blocks in use are clear of arena headers. */
  lemma ClearOfHeaders(s: State, a: nat, p: nat)
    requires Core(s) && a in s.live && p in s.arenas
    ensures PageOf(a) in s.arenas
    ensures a + Usable(s.arenas, a) <= p * PGSIZE || p * PGSIZE + HEADER <= a
  {
    WithinArena(s, a);
    if PageOf(a) < p {
      ArenasApart(s, PageOf(a), p);
    }
  }

  /** Blocks in use are clear of free blocks. */
  lemma ClearOfFree(s: State, a: nat, d: nat, f: nat)
    requires Core(s) && a in s.live && d < DESC_CNT && f in s.descs[d].freeList
    ensures PageOf(a) in s.arenas
    ensures a + Usable(s.arenas, a) <= f || f + BlockSize(d) <= a
  {
    hide IsBlock, BlockSize, Pages, ArenaOk, InArena, NoDup;
    WithinArena(s, a);
    WithinArena(s, f);
    var p, q := PageOf(a), PageOf(f);
    assert LiveOk(s, a) && FreeOk(s.arenas, d, f);
    if p < q {
      ArenasApart(s, p, q);
    } else if q < p {
      ArenasApart(s, q, p);
    } else if a < f {
      BlocksApart(a, f, d);
    } else {
      BlocksApart(f, a, d);
    }
  }

  /** A page is held for the allocator exactly while a block of its arena is in use. */
  lemma HeldWhileLive(s: State, q: nat)
    requires Inv(s)
    ensures q in s.used && q !in s.others <==>
            exists a :: a in s.live && PageOf(a) in s.arenas && PageOf(a) <= q < PageOf(a) + Span(s.arenas[PageOf(a)])
  {
    if q in s.used && q !in s.others {
      var p :| p in s.arenas && p <= q < p + Span(s.arenas[p]);
      SomeLive(s, p);
    }
  }

  lemma SomeLive(s: State, p: nat)
    requires Inv(s) && p in s.arenas
    ensures exists a :: a in s.live && PageOf(a) == p
  {
    assert ArenaOk(s, p);
    match s.arenas[p]
    case Small(d, c) =>
      var idx := FreeIdx(s.descs[d].freeList, p, d);
      if forall i :: 0 <= i < Blocks(d) ==> i in idx {
        AllIn(idx, Blocks(d));
      }
      var i :| 0 <= i < Blocks(d) && i !in idx;
      BlockToArena(p, d, i);
      assert Block(p, d, i) in s.live;
    case Big(n) =>
      DivUnique(p * PGSIZE + HEADER, PGSIZE, p, HEADER);
  }

  /** The numbers below N. */
  ghost function Below(n: nat): (r: set<nat>)
    ensures |r| == n && forall i :: i in r <==> 0 <= i < n
  {
    if n == 0 then {} else Below(n - 1) + {n - 1}
  }

  lemma AllIn(idx: set<nat>, n: nat)
    requires forall i :: 0 <= i < n ==> i in idx
    requires forall i :: i in idx ==> 0 <= i < n
    ensures |idx| == n
  {
    assert idx == Below(n);
  }

  /** A set of indices as large as can be has them all. */
  lemma AtMost(idx: set<nat>, n: nat)
    requires forall i :: i in idx ==> 0 <= i < n
    ensures |idx| <= n
    ensures |idx| == n ==> forall i :: 0 <= i < n ==> i in idx
  {
    var rest := Below(n) - idx;
    assert idx + rest == Below(n) && idx !! rest;
    assert |idx + rest| == |idx| + |rest|;
  }

  // ---- Steps ----

  /** The two states differ at most in what is on page P, the head page of an arena in either. */
  ghost predicate OnlyPage(s: State, s': State, p: nat)
    requires Shape(s.descs) && Shape(s'.descs)
  {
    && (forall q :: q != p ==> (q in s.arenas <==> q in s'.arenas))
    && (forall q :: q != p && q in s.arenas ==> s.arenas[q] == s'.arenas[q])
    && (forall x :: PageOf(x) != p ==> (x in s.live <==> x in s'.live))
    && (forall x :: PageOf(x) != p && x in s.live ==> s.live[x] == s'.live[x])
    && (forall d, x :: 0 <= d < DESC_CNT && PageOf(x) != p ==>
        (x in s.descs[d].freeList <==> x in s'.descs[d].freeList))
  }

  lemma FreeIdxElsewhere(free: seq<nat>, free': seq<nat>, p: nat, q: nat, d: nat)
    requires p != q && forall x :: PageOf(x) != p ==> (x in free <==> x in free')
    ensures FreeIdx(free, q, d) == FreeIdx(free', q, d)
  {
    forall i | 0 <= i < Blocks(d) ensures Block(q, d, i) in free <==> Block(q, d, i) in free' {
      BlockToArena(q, d, i);
    }
  }

  lemma ArenaElsewhere(s: State, s': State, p: nat, q: nat)
    requires Core(s) && Shape(s'.descs) && OnlyPage(s, s', p) && q != p && q in s.arenas
    ensures q in s'.arenas && ArenaOk(s', q)
  {
    hide Block, BlockSize, Blocks, Pages, LiveOk, FreeOk;
    assert ArenaOk(s, q);
    match s.arenas[q]
    case Small(d, _) =>
      FreeIdxElsewhere(s.descs[d].freeList, s'.descs[d].freeList, p, q, d);
      forall i | 0 <= i < Blocks(d) ensures Block(q, d, i) in s'.live || Block(q, d, i) in s'.descs[d].freeList {
        BlockToArena(q, d, i);
      }
    case Big(_) =>
      DivUnique(q * PGSIZE + HEADER, PGSIZE, q, HEADER);
  }

  /** To keep the invariant it is enough to look at the page that changes. */
  lemma KeepsCore(s: State, s': State, p: nat)
    requires Core(s) && Lists(s') && OnlyPage(s, s', p) && Pages(s'.arenas, s'.used, s'.others)
    requires p in s'.arenas ==> ArenaOk(s', p)
    requires forall a :: a in s'.live && PageOf(a) == p ==> LiveOk(s', a)
    ensures Core(s')
  {
    hide ArenaOk, Pages, NoDup, FreeOk, IsBlock, PageOf, BlockSize;
    forall q | q in s'.arenas ensures ArenaOk(s', q) {
      if q != p {
        ArenaElsewhere(s, s', p, q);
      }
    }
    forall a | a in s'.live ensures LiveOk(s', a) {
      if PageOf(a) != p {
        assert LiveOk(s, a);
      }
    }
  }

  ghost function WithFree(descs: seq<Desc>, d: nat, free: seq<nat>): (r: seq<Desc>)
    requires d < |descs|
    ensures Shape(descs) ==> Shape(r)
  {
    descs[d := descs[d].(freeList := free)]
  }

  /** A free list may be replaced by a good one, and the arenas by others that serve the same
      descriptors where there are free blocks. */
  lemma ListsSet(s: State, d: nat, free: seq<nat>, arenas: map<nat, Arena>)
    requires Lists(s) && d < DESC_CNT && NoDup(free)
    requires forall x :: x in free ==> FreeOk(arenas, d, x)
    requires forall e, x :: 0 <= e < DESC_CNT && e != d && x in s.descs[e].freeList ==>
               PageOf(x) in arenas && arenas[PageOf(x)].Small? && arenas[PageOf(x)].desc == s.arenas[PageOf(x)].desc
    ensures Lists(s.(descs := WithFree(s.descs, d, free), arenas := arenas))
  {
    hide NoDup, IsBlock, PageOf, BlockSize;
    var s' := s.(descs := WithFree(s.descs, d, free), arenas := arenas);
    forall e, x | 0 <= e < DESC_CNT && x in s'.descs[e].freeList ensures FreeOk(arenas, e, x) {
      if e != d {
        assert FreeOk(s.arenas, e, x);
      }
    }
  }

  lemma AddPages(arenas: map<nat, Arena>, used: set<nat>, others: set<nat>, p: nat, a: Arena)
    requires Pages(arenas, used, others) && Range(p, Span(a)) !! used && Span(a) > 0
    requires forall q :: q in arenas ==> Span(arenas[q]) > 0
    ensures Pages(arenas[p := a], used + Range(p, Span(a)), others) && p !in arenas
  {
    var arenas' := arenas[p := a];
    assert p in Range(p, Span(a)) && !InArena(arenas, p);
    forall q | q in arenas ensures q + Span(arenas[q]) <= p || p + Span(a) <= q {
      assert InArena(arenas, q);
    }
    forall q: nat ensures InArena(arenas', q) <==> InArena(arenas, q) || q in Range(p, Span(a)) {
      if InArena(arenas, q) {
        var r: nat :| r in arenas && r <= q < r + Span(arenas[r]);
        assert r in arenas';
      }
      if InArena(arenas', q) {
        var r: nat :| r in arenas' && r <= q < r + Span(arenas'[r]);
        assert r != p ==> r in arenas;
      }
      if q in Range(p, Span(a)) {
        assert p in arenas';
      }
    }
  }

  lemma RemovePages(arenas: map<nat, Arena>, used: set<nat>, others: set<nat>, p: nat)
    requires Pages(arenas, used, others) && p in arenas
    ensures Range(p, Span(arenas[p])) <= used
    ensures Pages(arenas - {p}, used - Range(p, Span(arenas[p])), others)
  {
    var arenas', n := arenas - {p}, Span(arenas[p]);
    forall q | q in Range(p, n) ensures InArena(arenas, q) {
    }
    forall q: nat ensures InArena(arenas', q) <==> InArena(arenas, q) && q !in Range(p, n) {
      if InArena(arenas', q) {
        var r: nat :| r in arenas' && r <= q < r + Span(arenas'[r]);
        assert r in arenas;
      }
      if InArena(arenas, q) && q !in Range(p, n) {
        var r: nat :| r in arenas && r <= q < r + Span(arenas[r]);
        assert r in arenas';
      }
    }
  }

  /** An arena's header may change in place. */
  lemma SamePages(arenas: map<nat, Arena>, used: set<nat>, others: set<nat>, p: nat, a: Arena)
    requires Pages(arenas, used, others) && p in arenas && Span(arenas[p]) == Span(a)
    ensures Pages(arenas[p := a], used, others)
  {
    var arenas' := arenas[p := a];
    forall q: nat ensures InArena(arenas', q) <==> InArena(arenas, q) {
      if InArena(arenas, q) {
        var r: nat :| r in arenas && r <= q < r + Span(arenas[r]);
        assert r in arenas';
      }
      if InArena(arenas', q) {
        var r: nat :| r in arenas' && r <= q < r + Span(arenas'[r]);
        assert r in arenas;
      }
    }
  }

  /** The first N blocks of an arena. */
  function FirstBlocks(p: nat, d: nat, n: nat): (r: seq<nat>)
    ensures |r| == n
  {
    seq(n, (i: nat) => Block(p, d, i))
  }

  /** A new arena on page P, with all its blocks on the free list, which was empty. */
  ghost function NewArena(s: State, p: nat, d: nat): State
    requires d < |s.descs|
  {
    s.(descs := WithFree(s.descs, d, FirstBlocks(p, d, Blocks(d))),
       arenas := s.arenas[p := Small(d, Blocks(d))], used := s.used + Range(p, 1))
  }

  lemma FreshPage(s: State, p: nat)
    requires Core(s) && p !in s.used
    ensures p !in s.arenas
    ensures forall x :: x in s.live ==> PageOf(x) != p
    ensures forall d, x :: 0 <= d < DESC_CNT && x in s.descs[d].freeList ==> PageOf(x) != p
    ensures forall q :: q in s.arenas ==> Span(s.arenas[q]) > 0
  {
    forall q | q in s.arenas ensures Span(s.arenas[q]) > 0 && q in s.used {
      assert ArenaOk(s, q);
      assert InArena(s.arenas, q);
    }
    forall x | x in s.live ensures PageOf(x) != p {
      assert LiveOk(s, x);
    }
    forall d, x | 0 <= d < DESC_CNT && x in s.descs[d].freeList ensures PageOf(x) != p {
      assert FreeOk(s.arenas, d, x);
    }
  }

  lemma FirstBlocksOk(p: nat, d: nat)
    ensures var free := FirstBlocks(p, d, Blocks(d));
            NoDup(free) && FreeIdx(free, p, d) == Below(Blocks(d))
            && forall x :: x in free ==> PageOf(x) == p && IsBlock(x, d)
  {
    hide Blocks, IsBlock, PageOf;
    var n := Blocks(d);
    var free := FirstBlocks(p, d, n);
    forall i | 0 <= i < n
      ensures free[i] == Block(p, d, i) && PageOf(free[i]) == p && IsBlock(free[i], d) && IndexOf(free[i], d) == i
    {
      BlockToArena(p, d, i);
    }
  }

  lemma NewArenaKeeps(s: State, p: nat, d: nat)
    requires Core(s) && d < DESC_CNT && p !in s.used && s.descs[d].freeList == []
    ensures Core(NewArena(s, p, d)) && (Inv(s) ==> InUse(NewArena(s, p, d).arenas, p))
  {
    hide Blocks, IsBlock, PageOf, Block, BlockSize, Pages, NoDup, FirstBlocks, FreeIdx, OnlyPage;
    var s' := NewArena(s, p, d);
    FreshPage(s, p);
    NewArenaOnly(s, p, d);
    FirstBlocksOk(p, d);
    AddPages(s.arenas, s.used, s.others, p, Small(d, Blocks(d)));
    FirstBlocksAre(p, d);
    ListsSet(s, d, FirstBlocks(p, d, Blocks(d)), s'.arenas);
    KeepsCore(s, s', p);
  }

  lemma NewArenaOnly(s: State, p: nat, d: nat)
    requires Core(s) && d < DESC_CNT && s.descs[d].freeList == []
    ensures OnlyPage(s, NewArena(s, p, d), p)
  {
    hide Blocks, IsBlock, PageOf, Block, BlockSize, Pages, NoDup, FirstBlocks, FreeIdx, ArenaOk, LiveOk, FreeOk;
    FirstBlocksOk(p, d);
  }

  lemma FirstBlocksAre(p: nat, d: nat)
    ensures forall i :: 0 <= i < Blocks(d) ==> Block(p, d, i) in FirstBlocks(p, d, Blocks(d))
  {
    forall i | 0 <= i < Blocks(d) ensures Block(p, d, i) in FirstBlocks(p, d, Blocks(d)) {
      assert FirstBlocks(p, d, Blocks(d))[i] == Block(p, d, i);
    }
  }

  /** The first block of the free list is handed out. */
  ghost function Take(s: State, d: nat, size: nat): State
    requires d < |s.descs| && s.descs[d].freeList != []
  {
    var free := s.descs[d].freeList;
    var p := PageOf(free[0]);
    if p !in s.arenas || !s.arenas[p].Small? || s.arenas[p].freeCnt == 0 then s else
    s.(descs := WithFree(s.descs, d, free[1..]),
       arenas := s.arenas[p := s.arenas[p].(freeCnt := s.arenas[p].freeCnt - 1)], live := s.live[free[0] := size])
  }

  lemma FreeIdxPop(free: seq<nat>, d: nat)
    requires free != [] && NoDup(free) && IsBlock(free[0], d)
    ensures var p, i := PageOf(free[0]), IndexOf(free[0], d);
            i >= 0 && FreeIdx(free, p, d) == FreeIdx(free[1..], p, d) + {i} && i !in FreeIdx(free[1..], p, d)
  {
    hide IsBlock, PageOf, IndexOf, Blocks, Block;
    var a, p, i := free[0], PageOf(free[0]), IndexOf(free[0], d);
    ArenaToBlock(a, d);
    forall j | 0 <= j < Blocks(d) ensures j in FreeIdx(free, p, d) <==> j in FreeIdx(free[1..], p, d) || j == i {
      BlockToArena(p, d, j);
      assert free == [a] + free[1..];
    }
    assert a !in free[1..];
  }

  /** The arena of the first free block is not exhausted. */
  lemma TakeReady(s: State, d: nat)
    requires Core(s) && d < DESC_CNT && s.descs[d].freeList != []
    ensures var a := s.descs[d].freeList[0];
            a !in s.live && FreeOk(s.arenas, d, a) && 0 < s.arenas[PageOf(a)].freeCnt <= Blocks(d)
  {
    hide Blocks, IsBlock, PageOf, Block, BlockSize, Pages, IndexOf, FreeIdx;
    var free := s.descs[d].freeList;
    var a := free[0];
    assert FreeOk(s.arenas, d, a);
    assert ArenaOk(s, PageOf(a));
    FreeIdxPop(free, d);
    FreeIdxSize(free, PageOf(a), d);
    assert a in s.live ==> LiveOk(s, a);
  }

  lemma TakeLists(s: State, d: nat, size: nat)
    requires Core(s) && d < DESC_CNT && s.descs[d].freeList != []
    ensures Lists(Take(s, d, size))
  {
    hide IsBlock, PageOf, BlockSize, Pages, ArenaOk, LiveOk;
    var free, s' := s.descs[d].freeList, Take(s, d, size);
    TakeReady(s, d);
    forall x | x in free[1..] ensures FreeOk(s'.arenas, d, x) {
      assert x in free;
      assert FreeOk(s.arenas, d, x);
    }
    forall e, x | 0 <= e < DESC_CNT && x in s.descs[e].freeList ensures FreeOk(s.arenas, e, x) {
    }
    ListsSet(s, d, free[1..], s'.arenas);
  }

  lemma TakeArena(s: State, d: nat, size: nat)
    requires Core(s) && d < DESC_CNT && s.descs[d].freeList != []
    ensures var s', p := Take(s, d, size), PageOf(s.descs[d].freeList[0]);
            Shape(s'.descs) && p in s'.arenas && ArenaOk(s', p)
  {
    hide IsBlock, PageOf, BlockSize, Pages, LiveOk, Blocks, Block, FreeIdx, IndexOf, NoDup;
    TakeReady(s, d);
    var free, s' := s.descs[d].freeList, Take(s, d, size);
    assert ArenaOk(s, PageOf(free[0]));
    FreeIdxPop(free, d);
    assert free == [free[0]] + free[1..];
  }

  lemma TakeKeeps(s: State, d: nat, size: nat)
    requires Core(s) && d < DESC_CNT && s.descs[d].freeList != [] && size <= BlockSize(d)
    ensures var s', a := Take(s, d, size), s.descs[d].freeList[0];
            && Core(s') && a !in s.live && FreeOk(s.arenas, d, a) && s.arenas[PageOf(a)].freeCnt > 0
            && (InUse(s.arenas, PageOf(a)) ==> InUse(s'.arenas, -1))
  {
    hide Blocks, IsBlock, PageOf, Block, BlockSize, Pages, IndexOf, FreeIdx, ArenaOk, LiveOk, NoDup;
    var free := s.descs[d].freeList;
    var a, s' := free[0], Take(s, d, size);
    var p := PageOf(a);
    TakeReady(s, d);
    SamePages(s.arenas, s.used, s.others, p, s'.arenas[p]);
    assert free == [a] + free[1..];
    TakeLists(s, d, size);
    TakeArena(s, d, size);
    TakenLive(s, d, size);
    KeepsCore(s, s', p);
  }

  lemma FreeIdxSize(free: seq<nat>, p: nat, d: nat)
    ensures |FreeIdx(free, p, d)| <= Blocks(d)
    ensures |FreeIdx(free, p, d)| == Blocks(d) ==> forall i :: 0 <= i < Blocks(d) ==> Block(p, d, i) in free
  {
    var idx := FreeIdx(free, p, d);
    AtMost(idx, Blocks(d));
    assert forall i :: i in idx ==> Block(p, d, i) in free;
  }

  lemma TakenLive(s: State, d: nat, size: nat)
    requires Core(s) && d < DESC_CNT && s.descs[d].freeList != [] && size <= BlockSize(d)
    requires var p := PageOf(s.descs[d].freeList[0]); p in s.arenas && s.arenas[p].Small? && s.arenas[p].freeCnt > 0
    ensures var s', p := Take(s, d, size), PageOf(s.descs[d].freeList[0]);
            forall x :: x in s'.live && PageOf(x) == p ==> LiveOk(s', x)
  {
    hide Blocks, IsBlock, PageOf, Block, BlockSize, Pages, IndexOf, FreeIdx, ArenaOk;
    var free := s.descs[d].freeList;
    var a, s' := free[0], Take(s, d, size);
    assert FreeOk(s.arenas, d, a);
    assert free == [a] + free[1..];
    forall x | x in s'.live && PageOf(x) == PageOf(a) ensures LiveOk(s', x) {
      if x == a {
        assert a !in free[1..];
      } else {
        assert LiveOk(s, x);
      }
    }
  }

  /** The block at A goes to the front of the free list. */
  ghost function Put(s: State, a: nat): State
    requires PageOf(a) in s.arenas && s.arenas[PageOf(a)].Small? && s.arenas[PageOf(a)].desc < |s.descs|
  {
    var p := PageOf(a);
    var d := s.arenas[p].desc;
    s.(descs := WithFree(s.descs, d, [a] + s.descs[d].freeList),
       arenas := s.arenas[p := s.arenas[p].(freeCnt := s.arenas[p].freeCnt + 1)], live := s.live - {a})
  }

  lemma PutArena(s: State, a: nat)
    requires Core(s) && a in s.live && LiveOk(s, a) && s.arenas[PageOf(a)].Small?
    ensures var s', p := Put(s, a), PageOf(a);
            Lists(s') && ArenaOk(s', p) && s'.arenas[p].freeCnt <= Blocks(s'.arenas[p].desc)
  {
    hide IsBlock, PageOf, BlockSize, Pages, Blocks, Block, FreeIdx, IndexOf;
    var s', p, d := Put(s, a), PageOf(a), s.arenas[PageOf(a)].desc;
    var free, free' := s.descs[d].freeList, s'.descs[d].freeList;
    assert free'[1..] == free;
    assert ArenaOk(s, p);
    FreeIdxPop(free', d);
    FreeIdxSize(free', p, d);
    PutLists(s, a);
  }

  lemma PutLists(s: State, a: nat)
    requires Core(s) && a in s.live && LiveOk(s, a) && s.arenas[PageOf(a)].Small?
    ensures Lists(Put(s, a))
  {
    hide IsBlock, PageOf, BlockSize, Pages, ArenaOk;
    var s', d := Put(s, a), s.arenas[PageOf(a)].desc;
    forall e, x | 0 <= e < DESC_CNT && x in s.descs[e].freeList ensures FreeOk(s.arenas, e, x) {
    }
    forall x | x in [a] + s.descs[d].freeList ensures FreeOk(s'.arenas, d, x) {
      if x != a {
        assert FreeOk(s.arenas, d, x);
      }
    }
    ListsSet(s, d, [a] + s.descs[d].freeList, s'.arenas);
  }

  lemma PutKeeps(s: State, a: nat)
    requires Inv(s) && a in s.live && PageOf(a) in s.arenas && s.arenas[PageOf(a)].Small?
               && s.arenas[PageOf(a)].desc < DESC_CNT
    ensures var s', p := Put(s, a), PageOf(a);
            && Core(s') && s'.arenas[p].freeCnt <= Blocks(s'.arenas[p].desc)
            && InUse(s'.arenas, if s'.arenas[p].freeCnt < Blocks(s'.arenas[p].desc) then -1 else p)
  {
    hide IsBlock, PageOf, BlockSize, Pages, ArenaOk, NoDup;
    assert LiveOk(s, a);
    var s', p := Put(s, a), PageOf(a);
    PutArena(s, a);
    SamePages(s.arenas, s.used, s.others, p, s'.arenas[p]);
    forall x | x in s'.live && PageOf(x) == p ensures LiveOk(s', x) {
      assert LiveOk(s, x);
    }
    KeepsCore(s, s', p);
  }

  /** No block of an arena with all blocks free is in use. */
  lemma AllFree(s: State, p: nat)
    requires Core(s) && p in s.arenas && s.arenas[p].Small? && s.arenas[p].freeCnt == Blocks(s.arenas[p].desc)
    ensures s.arenas[p].desc < DESC_CNT
    ensures forall i :: 0 <= i < Blocks(s.arenas[p].desc) ==>
              Block(p, s.arenas[p].desc, i) in s.descs[s.arenas[p].desc].freeList
    ensures forall x :: x in s.live ==> PageOf(x) != p
  {
    hide IsBlock, PageOf, BlockSize, Pages, Blocks, Block, FreeIdx, IndexOf, NoDup;
    assert ArenaOk(s, p);
    var d := s.arenas[p].desc;
    var free := s.descs[d].freeList;
    FreeIdxSize(free, p, d);
    forall x | x in s.live ensures PageOf(x) != p {
      assert LiveOk(s, x);
      if PageOf(x) == p {
        ArenaToBlock(x, d);
      }
    }
  }

  /** The arena at P is given back; FREE is what is left of its descriptor's free list. */
  ghost function Drop(s: State, p: nat, free: seq<nat>): State
    requires p in s.arenas && s.arenas[p].Small? && s.arenas[p].desc < |s.descs|
  {
    s.(descs := WithFree(s.descs, s.arenas[p].desc, free), arenas := s.arenas - {p}, used := s.used - Range(p, 1))
  }

  lemma DropLists(s: State, p: nat, free: seq<nat>)
    requires Core(s) && p in s.arenas && s.arenas[p].Small? && s.arenas[p].desc < DESC_CNT
    requires NoDup(free) && forall x :: x in free <==> x in s.descs[s.arenas[p].desc].freeList && PageOf(x) != p
    ensures Lists(Drop(s, p, free))
  {
    hide IsBlock, PageOf, BlockSize, Pages, ArenaOk, NoDup, LiveOk;
    var s', d := Drop(s, p, free), s.arenas[p].desc;
    forall e, x | 0 <= e < DESC_CNT && x in s.descs[e].freeList ensures FreeOk(s.arenas, e, x) {
    }
    forall x | x in free ensures FreeOk(s'.arenas, d, x) {
      assert FreeOk(s.arenas, d, x);
    }
    ListsSet(s, d, free, s'.arenas);
  }

  lemma DropKeeps(s: State, p: nat, free: seq<nat>)
    requires Core(s) && InUse(s.arenas, p) && p in s.arenas && s.arenas[p].Small? && s.arenas[p].desc < DESC_CNT
    requires s.arenas[p].freeCnt == Blocks(s.arenas[p].desc)
    requires NoDup(free) && forall x :: x in free <==> x in s.descs[s.arenas[p].desc].freeList && PageOf(x) != p
    ensures Inv(Drop(s, p, free)) && Range(p, 1) <= s.used
  {
    hide IsBlock, PageOf, BlockSize, Pages, ArenaOk, NoDup, LiveOk;
    var s' := Drop(s, p, free);
    AllFree(s, p);
    DropLists(s, p, free);
    RemovePages(s.arenas, s.used, s.others, p);
    forall d, x | 0 <= d < DESC_CNT && x in s.descs[d].freeList ensures FreeOk(s.arenas, d, x) {
    }
    KeepsCore(s, s', p);
  }

  /** A big block of N pages from P on. */
  ghost function NewBig(s: State, p: nat, n: nat, size: nat): State {
    s.(arenas := s.arenas[p := Big(n)], live := s.live[p * PGSIZE + HEADER := size], used := s.used + Range(p, n))
  }

  lemma NewBigKeeps(s: State, p: nat, n: nat, size: nat)
    requires Inv(s) && n > 0 && Range(p, n) !! s.used
    requires size + HEADER <= B32 ==> size + HEADER <= n * PGSIZE
    ensures Inv(NewBig(s, p, n, size)) && p * PGSIZE + HEADER !in s.live
  {
    hide IsBlock, BlockSize, Pages, NoDup, Block, FreeIdx, Blocks, PageOf, FreeOk, InArena, OnlyPage;
    var s' := NewBig(s, p, n, size);
    assert p in Range(p, n);
    FreshPage(s, p);
    BigHead(p);
    AddPages(s.arenas, s.used, s.others, p, Big(n));
    BigLists(s, s', p);
    NewBigOnly(s, p, n, size);
    KeepsCore(s, s', p);
  }

  lemma NewBigOnly(s: State, p: nat, n: nat, size: nat)
    requires Shape(s.descs)
    ensures OnlyPage(s, NewBig(s, p, n, size), p)
  {
    BigHead(p);
  }

  lemma BigHead(p: nat)
    ensures PageOf(p * PGSIZE + HEADER) == p && (p * PGSIZE + HEADER) % PGSIZE == HEADER
  {
    DivUnique(p * PGSIZE + HEADER, PGSIZE, p, HEADER);
  }

  /** Free lists do not depend on arenas of other pages. */
  lemma BigLists(s: State, s': State, p: nat)
    requires Lists(s) && s'.descs == s.descs
    requires forall d, x :: 0 <= d < DESC_CNT && x in s.descs[d].freeList ==> PageOf(x) != p
    requires forall q :: q in s.arenas && q != p ==> q in s'.arenas && s'.arenas[q] == s.arenas[q]
    ensures Lists(s')
  {
    hide IsBlock, NoDup;
    forall d, x | 0 <= d < DESC_CNT && x in s.descs[d].freeList ensures FreeOk(s'.arenas, d, x) {
      assert FreeOk(s.arenas, d, x);
    }
  }

  /** The big block at P is given back. */
  ghost function DropBig(s: State, p: nat): State
    requires p in s.arenas
  {
    s.(arenas := s.arenas - {p}, live := s.live - {p * PGSIZE + HEADER}, used := s.used - Range(p, Span(s.arenas[p])))
  }

  lemma DropBigKeeps(s: State, p: nat)
    requires Inv(s) && p in s.arenas && s.arenas[p].Big?
    ensures Inv(DropBig(s, p)) && Range(p, Span(s.arenas[p])) <= s.used
  {
    hide IsBlock, BlockSize, Pages, NoDup, Block, FreeIdx, Blocks, ArenaOk;
    var s' := DropBig(s, p);
    DivUnique(p * PGSIZE + HEADER, PGSIZE, p, HEADER);
    RemovePages(s.arenas, s.used, s.others, p);
    assert Lists(s') by {
      forall d, x | 0 <= d < DESC_CNT && x in s.descs[d].freeList ensures FreeOk(s'.arenas, d, x) && PageOf(x) != p {
        assert FreeOk(s.arenas, d, x);
      }
    }
    forall x | x in s'.live ensures PageOf(x) != p {
      assert LiveOk(s, x);
    }
    KeepsCore(s, s', p);
  }
}
