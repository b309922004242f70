/** The page allocator: first fit over a kernel pool and a user pool (threads/palloc.c). */
module Palloc {
  import opened Options
  import opened Bitmaps

  const PGSIZE := 4096
  const BITMAP_HEADER := 8

  predicate Within(q: nat, page: nat, cnt: nat) {
    page <= q < page + cnt
  }

  /** The pages CNT from PAGE on. */
  ghost function Range(page: nat, cnt: nat): (s: set<nat>)
    ensures forall q :: q in s <==> page <= q < page + cnt
  {
    set q | page <= q < page + cnt && Within(q, page, cnt)
  }

  ghost predicate Marked(base: nat, v: seq<bool>, q: nat) {
    base <= q < base + |v| && v[q - base]
  }

  /** The used pages of a pool that starts at page BASE. */
  ghost function UsedPages(base: nat, v: seq<bool>): (s: set<nat>)
    ensures forall q :: q in s <==> Marked(base, v, q)
  {
    set q | base <= q < base + |v| && Marked(base, v, q)
  }

  lemma RangeSet(base: nat, v: seq<bool>, start: nat, cnt: nat)
    requires start + cnt <= |v|
    ensures UsedPages(base, SetRange(v, start, cnt, true)) == UsedPages(base, v) + Range(base + start, cnt)
    ensures UsedPages(base, SetRange(v, start, cnt, false)) == UsedPages(base, v) - Range(base + start, cnt)
  {
  }

  /** The pages that init_pool takes off the pool for the bitmap. */
  function BitmapPages(pageCnt: nat): (n: nat)
    ensures PGSIZE * (n - 1) < BITMAP_HEADER + ByteCnt(pageCnt) <= PGSIZE * n
  {
    (BITMAP_HEADER + ByteCnt(pageCnt) + PGSIZE - 1) / PGSIZE
  }

  class Pool {
    const base: nat
    const used: Bitmap

    ghost predicate Valid() {
      used.Valid()
    }

    ghost function Used(): (s: set<nat>)
      reads used.bits
      requires Valid()
      ensures forall q :: q in s ==> base <= q < base + used.bitCnt
    {
      UsedPages(base, used.Value())
    }

    /** init_pool, on PAGECNT pages from START on; it panics when they do not hold the bitmap. */
    constructor (start: nat, pageCnt: nat)
      requires BitmapPages(pageCnt) <= pageCnt
      ensures Valid() && fresh(used) && fresh(used.bits) && Used() == {}
      ensures start + BitmapPages(pageCnt) == base && base + used.bitCnt == start + pageCnt
      ensures BITMAP_HEADER + ByteCnt(used.bitCnt) <= PGSIZE * (base - start)
    {
      var bmPages := BitmapPages(pageCnt);
      base := start + bmPages;
      var b := new Bitmap(pageCnt - bmPages, _ => 0);
      used := b;
    }

    /** page_from_pool */
    predicate Owns(page: nat) {
      base <= page < base + used.bitCnt
    }

    /** There are no CNT free pages in a row. */
    ghost predicate NoGroupOf(cnt: nat)
      reads used.bits
      requires Valid()
    {
      forall q :: base <= q && q + cnt <= base + used.bitCnt ==> Range(q, cnt) * Used() != {}
    }

    /** palloc_get_multiple on this pool. */
    method Get(cnt: nat) returns (r: Option<nat>)
      requires Valid()
      modifies used.bits
      ensures r.Some? ==> cnt > 0 && base <= r.value && r.value + cnt <= base + used.bitCnt
      ensures r.Some? ==> Range(r.value, cnt) !! old(Used()) && Used() == old(Used()) + Range(r.value, cnt)
      ensures r.Some? ==> forall q :: base <= q < r.value ==> Range(q, cnt) * old(Used()) != {}
      ensures r.None? ==> Used() == old(Used())
      ensures r.None? && cnt > 0 ==> NoGroupOf(cnt)
    {
      hide BitsOf;
      if cnt == 0 {
        return None;
      }
      ghost var v := used.Value();
      var i := used.ScanAndFlip(0, cnt, false);
      NoGroup(base, v, cnt);
      match i {
        case None => r := None;
        case Some(k) =>
          RangeSet(base, v, k, cnt);
          r := Some(base + k);
      }
    }

    /** palloc_free_multiple on this pool; its assertion demands that all pages are in use. */
    method Free(page: nat, cnt: nat)
      requires Valid() && Range(page, cnt) <= Used() && Owns(page) && page + cnt <= base + used.bitCnt
      modifies used.bits
      ensures Used() == old(Used()) - Range(page, cnt)
    {
      hide BitsOf;
      if cnt > 0 {
        RangeSet(base, used.Value(), page - base, cnt);
        used.SetMultiple(page - base, cnt, false);
      }
    }
  }

  /** A position without a group of free pages has a used page among them. */
  lemma NoGroup(base: nat, v: seq<bool>, cnt: nat)
    ensures forall i: nat {:trigger Group(v, i, cnt, false)} :: i + cnt <= |v| && !Group(v, i, cnt, false) ==>
              Range(base + i, cnt) * UsedPages(base, v) != {}
    ensures forall q {:trigger Range(q, cnt)} ::
              base <= q && q + cnt <= base + |v| && !Group(v, q - base, cnt, false) ==>
                Range(q, cnt) * UsedPages(base, v) != {}
  {
    forall q | base <= q && q + cnt <= base + |v| && !Group(v, q - base, cnt, false)
      ensures Range(q, cnt) * UsedPages(base, v) != {}
    {
      var j :| q - base <= j < q - base + cnt && v[j];
      assert base + j in Range(q, cnt) * UsedPages(base, v);
    }
  }

  /** palloc_init's two pools. */
  class PageAllocator {
    const kernel: Pool
    const user: Pool

    /** The pools do not share a page. */
    ghost predicate Valid() {
      && kernel.Valid() && user.Valid() && kernel.used.bits != user.used.bits
      && kernel.base + kernel.used.bitCnt <= user.base
    }

    /** palloc_init, on FREEPAGES pages from FREESTART on. */
    constructor (freeStart: nat, freePages: nat, userPageLimit: nat)
      requires var n := if freePages / 2 > userPageLimit then userPageLimit else freePages / 2;
               BitmapPages(n) <= n && BitmapPages(freePages - n) <= freePages - n
      ensures Valid() && fresh(kernel) && fresh(user) && fresh(kernel.used.bits) && fresh(user.used.bits)
      ensures kernel.Used() == {} && user.Used() == {}
      ensures freeStart <= kernel.base && user.base + user.used.bitCnt == freeStart + freePages
      ensures var n := if freePages / 2 > userPageLimit then userPageLimit else freePages / 2;
              && kernel.base == freeStart + BitmapPages(freePages - n)
              && kernel.base + kernel.used.bitCnt == freeStart + freePages - n
              && user.base == freeStart + freePages - n + BitmapPages(n)
    {
      var userPages := freePages / 2;
      if userPages > userPageLimit {
        userPages := userPageLimit;
      }
      var kernelPages := freePages - userPages;
      var k := new Pool(freeStart, kernelPages);
      var u := new Pool(freeStart + kernelPages, userPages);
      kernel, user := k, u;
    }

    /** palloc_get_multiple */
    method Get(fromUser: bool, cnt: nat) returns (r: Option<nat>)
      requires Valid()
      modifies kernel.used.bits, user.used.bits
      ensures r.None? ==> kernel.Used() == old(kernel.Used()) && user.Used() == old(user.Used())
      ensures r.None? ==> cnt == 0 || (if fromUser then user else kernel).NoGroupOf(cnt)
      ensures r.Some? && fromUser ==>
                Range(r.value, cnt) !! old(user.Used()) && user.Used() == old(user.Used()) + Range(r.value, cnt)
                && kernel.Used() == old(kernel.Used())
      ensures r.Some? && !fromUser ==>
                Range(r.value, cnt) !! old(kernel.Used()) && kernel.Used() == old(kernel.Used()) + Range(r.value, cnt)
                && user.Used() == old(user.Used())
    {
      if fromUser {
        r := user.Get(cnt);
      } else {
        r := kernel.Get(cnt);
      }
    }

    /** palloc_free_multiple: pages that one pool gave go back to that pool. */
    method Free(page: nat, cnt: nat)
      requires Valid() && (Range(page, cnt) <= kernel.Used() || Range(page, cnt) <= user.Used())
      modifies kernel.used.bits, user.used.bits
      ensures kernel.Used() == old(kernel.Used()) - Range(page, cnt)
      ensures user.Used() == old(user.Used()) - Range(page, cnt)
    {
      if cnt > 0 {
        assert page in Range(page, cnt) && page + cnt - 1 in Range(page, cnt);
        if kernel.Owns(page) {
          kernel.Free(page, cnt);
        } else {
          user.Free(page, cnt);
        }
      }
    }
  }
}
