/** Frames for user pages, with second-chance eviction to swap (vm/frame.c, vm/swap.c). */
module Paging {
  import opened Options
  import opened Disk
  import opened Bitmaps
  import opened Palloc
  import opened PageTables

  class VirtualMemory {
    const pool: Pool
    const swapTable: Bitmap
    var pagedir: map<Page, Pte>
    var spt: map<Page, Spte>
    var frames: seq<Fte>
    var mem: map<nat, seq<byte>>
    var disk: seq<seq<byte>>

    ghost function S(): Vm
      reads this, pool.used.bits, swapTable.bits
      requires pool.Valid() && swapTable.Valid()
    {
      Vm(pagedir, spt, frames, pool.Used(), mem, swapTable.Value(), disk)
    }

    /** The parts are well formed, and every frame of the pool is a page of memory. */
    ghost predicate Parts()
      reads this
    {
      && pool.Valid() && swapTable.Valid() && pool.used.bits != swapTable.bits && pool.used.bitCnt > 0
      && forall f :: pool.Owns(f) ==> f in mem && |mem[f]| == PGSIZE
    }

    ghost predicate Valid()
      reads this, pool.used.bits, swapTable.bits
    {
      Parts() && Inv(S(), {})
    }

    ghost predicate FreeFrame()
      reads pool.used.bits
      requires pool.Valid()
    {
      exists f :: pool.Owns(f) && f !in pool.Used()
    }

    ghost predicate FreeSlot()
      reads swapTable.bits
      requires swapTable.Valid()
    {
      exists i :: 0 <= i < swapTable.bitCnt && !swapTable.Value()[i]
    }

    /** swap_init and frame_init. */
    constructor (pool: Pool, mem: map<nat, seq<byte>>, disk: seq<seq<byte>>)
      requires pool.Valid() && pool.used.bitCnt > 0 && pool.Used() == {} && WellFormed(disk)
      requires forall f :: pool.Owns(f) ==> f in mem && |mem[f]| == PGSIZE
      ensures Valid() && this.pool == pool && fresh(swapTable) && fresh(swapTable.bits)
      ensures Contents(S()) == map[] && swapTable.bitCnt == |disk| / SLOT_SECTORS
    {
      this.pool, this.mem, this.disk := pool, mem, disk;
      var b := new Bitmap(|disk| / SLOT_SECTORS, _ => 0);
      swapTable, pagedir, spt, frames := b, map[], map[], [];
    }

    /** select_fte_for_evict: the first page that was not accessed since the clock last passed it,
        or the front of the list if all were, is unmapped. */
    method SelectForEvict() returns (fte: Fte)
      requires Valid() && frames != []
      modifies this`frames, this`pagedir
      ensures var s := Spun(old(S()), FirstUnaccessed(old(frames), old(pagedir)));
              s.frames != [] && fte == s.frames[0] && S() == s.(pagedir := s.pagedir - {fte.page})
    {
      hide Slots, Mapped, Distinct, Holds, ClearAccessed, FirstUnaccessed;
      ghost var s, k := S(), 0;
      SpunNone(s);
      while true
        invariant 0 <= k <= |s.frames| && S() == Spun(s, k) && frames != []
        invariant forall i :: 0 <= i < k ==> Accessed(s, i)
        decreases |s.frames| - k
      {
        if k == |s.frames| {
          SpunRound(s);
        } else {
          SpunNext(s, k);
        }
        fte := frames[0];
        if pagedir[fte.page].accessed {
          pagedir := pagedir[fte.page := pagedir[fte.page].(accessed := false)];
          frames := frames[1..] + [fte];
          k := k + 1;
        } else {
          break;
        }
      }
      FirstIs(s, k);
      pagedir := pagedir - {fte.page};
    }

    /** write_to_disk */
    method WriteToDisk(data: seq<byte>, index: nat)
      requires |data| == PGSIZE && (index + 1) * SLOT_SECTORS <= |disk| && WellFormed(disk)
      modifies this`disk
      ensures WellFormed(disk) && OnlySlot(old(disk), disk, index) && Slot(disk, index) == data
    {
      var i, realindex := 0, index * SLOT_SECTORS;
      while i < SLOT_SECTORS
        invariant 0 <= i <= SLOT_SECTORS && realindex == index * SLOT_SECTORS + i
        invariant WellFormed(disk) && OnlySlot(old(disk), disk, index)
        invariant Join(disk, index * SLOT_SECTORS, i) == data[..i * SECTOR_SIZE]
      {
        var sector := data[i * SECTOR_SIZE..(i + 1) * SECTOR_SIZE];
        JoinSame(disk, disk[realindex := sector], index * SLOT_SECTORS, i);
        assert data[..(i + 1) * SECTOR_SIZE] == data[..i * SECTOR_SIZE] + sector;
        disk := disk[realindex := sector];
        realindex := realindex + 1;
        i := i + 1;
      }
      assert data[..PGSIZE] == data;
    }

    /** read_from_disk */
    method ReadFromDisk(frame: nat, index: nat)
      requires frame in mem && |mem[frame]| == PGSIZE && (index + 1) * SLOT_SECTORS <= |disk| && WellFormed(disk)
      modifies this`mem
      ensures mem == old(mem)[frame := Slot(disk, index)]
    {
      var i, realindex := 0, index * SLOT_SECTORS;
      while i < SLOT_SECTORS
        invariant 0 <= i <= SLOT_SECTORS && realindex == index * SLOT_SECTORS + i
        invariant frame in mem && |mem[frame]| == PGSIZE && mem == old(mem)[frame := mem[frame]]
        invariant Join(disk, index * SLOT_SECTORS, i) == mem[frame][..i * SECTOR_SIZE]
      {
        mem := mem[frame := Patch(mem[frame], i * SECTOR_SIZE, disk[realindex])];
        realindex := realindex + 1;
        i := i + 1;
      }
      assert mem[frame][..PGSIZE] == mem[frame];
    }

    /** swap_out: a page goes to the first free slot, and no page changes its bytes.  Without a free
        slot the kernel panics. */
    method SwapOut()
      requires Valid() && frames != [] && FreeSlot()
      modifies this, pool.used.bits, swapTable.bits
      ensures Valid() && FreeFrame() && Contents(S()) == Contents(old(S()))
      ensures pagedir.Keys == old(pagedir).Keys - {Victim(old(S()))} && Victim(old(S())) in old(pagedir)
      ensures spt.Keys == old(spt).Keys && Victim(old(S())) in spt && spt[Victim(old(S()))].inswap
      ensures forall p :: p in spt && p != Victim(old(S())) ==> spt[p] == old(spt)[p]
      ensures spt[Victim(old(S()))].writable == old(spt)[Victim(old(S()))].writable
      ensures Without(old(frames), frames, Victim(old(S())))
      ensures forall p :: p in pagedir ==> SameMapping(old(pagedir), pagedir, p)
      ensures var s := Spun(old(S()), FirstUnaccessed(old(frames), old(pagedir)));
              exists i :: 0 <= i < |s.slots| && FirstGroup(s.slots, 0, 1, false, i) && s.frames != []
                          && s.frames[0].page in s.spt && S() == Evicted(s, i, disk)
    {
      hide Inv, Contents, FirstUnaccessed, Spun, BitsOf, SetRange, Victim, Poison, OnlySlot, Without, SameMapping;
      ghost var s0 := S();
      ghost var k := FirstUnaccessed(frames, pagedir);
      ghost var s := Spun(s0, k);
      SpunKeeps(s0, k, {});
      SpunSame(s0, k);
      VictimFront(s0);
      var fte := SelectForEvict();
      FrontPage(s, {});
      ghost var v := swapTable.Value();
      ghost var free :| 0 <= free < swapTable.bitCnt && !v[free];
      assert Group(v, free, 1, false);
      var slot := swapTable.ScanAndFlip(0, 1, false);
      var i := slot.value;
      OneBit(v, i, true);
      SlotsDevice(s);
      DeviceRoom(v, disk, i);
      spt := spt[fte.page := spt[fte.page].(inswap := true, swapindex := i)];
      WriteToDisk(mem[fte.frame], i);
      frames := frames[1..];
      mem := mem[fte.frame := Poison()];
      OnePage(pool, fte.frame);
      pool.Free(fte.frame, 1);
      assert S() == Evicted(s, i, disk);
      EvictedRest(s0, i, disk);
      EvictedKeeps(s, i, disk);
      assert fte.frame in Range(fte.frame, 1);
    }

    /** palloc_get_page; a frame that is zeroed on request. */
    method GetPage(zero: bool) returns (f: Option<nat>)
      requires Parts()
      modifies this`mem, pool.used.bits
      ensures Parts() && (f.Some? <==> old(FreeFrame()))
      ensures f.None? ==> S() == old(S())
      ensures f.Some? ==> pool.Owns(f.value) && f.value !in old(S()).used && f.value in mem && |mem[f.value]| == PGSIZE
      ensures f.Some? ==>
                S() == old(S()).(used := old(S()).used + Range(f.value, 1), mem := old(mem)[f.value := mem[f.value]])
      ensures f.Some? && zero ==> mem[f.value] == seq(PGSIZE, _ => 0)
      ensures f.Some? && !zero ==> mem == old(mem)
    {
      f := pool.Get(1);
      if f.Some? {
        assert f.value in Range(f.value, 1);
        if zero {
          mem := mem[f.value := seq(PGSIZE, _ => 0)];
        }
      } else {
        forall q | pool.Owns(q) ensures q in pool.Used() {
          assert Range(q, 1) * pool.Used() != {};
        }
      }
    }

    /** The loop of allocate_frame: a page from the pool, after an eviction if there is none.  MID
        is the state before the page is taken. */
    method GetFrame(zero: bool) returns (frame: nat, ghost mid: Vm)
      requires Valid() && (FreeFrame() || FreeSlot())
      modifies this, pool.used.bits, swapTable.bits
      ensures Parts() && frame in mem && |mem[frame]| == PGSIZE && (zero ==> mem[frame] == seq(PGSIZE, _ => 0))
      ensures Inv(mid, {}) && frame !in mid.used && Contents(mid) == Contents(old(S()))
      ensures S() == mid.(used := mid.used + Range(frame, 1), mem := mid.mem[frame := mem[frame]])
      ensures old(FreeFrame()) ==> mid == old(S())
      ensures !old(FreeFrame()) ==> old(frames) != [] && OutOfMemory(old(S()), mid, Victim(old(S())))
    {
      hide Inv, Contents, Pool.Used, FirstUnaccessed, Spun, Victim, SameMapping, Without;
      mid := S();
      ghost var s := mid;
      var f := GetPage(zero);
      while f.None?
        invariant Parts() && Inv(mid, {}) && Contents(mid) == Contents(s)
        invariant f.None? || old(FreeFrame()) ==> mid == s
        invariant f.Some? && !old(FreeFrame()) ==> s.frames != [] && OutOfMemory(s, mid, Victim(s))
        invariant f.None? ==> S() == mid && !FreeFrame() && FreeSlot()
        invariant f.Some? ==>
            && f.value !in mid.used && f.value in mem && |mem[f.value]| == PGSIZE
            && (zero ==> mem[f.value] == seq(PGSIZE, _ => 0))
            && S() == mid.(used := mid.used + Range(f.value, 1), mem := mid.mem[f.value := mem[f.value]])
        decreases if f.None? then 1 else 0
      {
        SomeFrame(mid, pool);
        SwapOut();
        mid := S();
        f := GetPage(zero);
      }
      frame := f.value;
    }

    /** palloc_free_page of a frame that was just got, and not linked; MID is the state before. */
    method DropFrame(frame: nat, ghost mid: Vm)
      requires Parts() && frame in mem && Inv(mid, {}) && frame !in mid.used
      requires S() == mid.(used := mid.used + Range(frame, 1), mem := mid.mem[frame := mem[frame]])
      modifies this`mem, pool.used.bits
      ensures Valid() && Contents(S()) == Contents(mid)
    {
      hide Inv, Contents, Pool.Used, BitsOf, Poison;
      Unlinked(mid, frame, Poison());
      mem := mem[frame := Poison()];
      OnePage(pool, frame);
      pool.Free(frame, 1);
      assert mid.used + Range(frame, 1) - Range(frame, 1) == mid.used;
      assert S() == mid.(mem := mid.mem[frame := Poison()]);
    }

    /** There is no free frame and PAGE is the one to be evicted, though it is resident. */
    ghost predicate EvictsItself(page: Page)
      reads this, pool.used.bits, swapTable.bits
      requires pool.Valid() && swapTable.Valid()
    {
      !FreeFrame() && page in pagedir && frames != [] && page == Victim(S())
    }

    /** allocate_frame: PAGE gets a frame, zeroed on request, unless it has one and keeps it, or is not
        in the supplementary page table.  No other page changes its bytes; the bytes of a page in swap
        stay in its slot.  A resident page keeps its bytes unless the call evicts that very page and
        then maps it anew; then it is both resident and in swap. */
    method AllocateFrame(page: Page, zero: bool) returns (r: Option<nat>)
      requires Valid() && (FreeFrame() || FreeSlot())
      modifies this, pool.used.bits, swapTable.bits
      ensures Parts() && spt.Keys == old(spt).Keys
      ensures r.Some? <==> page in old(spt) && (page !in old(pagedir) || old(EvictsItself(page)))
      ensures Valid() <==> !(page in old(spt) && (old(spt)[page].inswap || old(EvictsItself(page))))
      ensures zero && page in old(pagedir) ==>
                && page in Contents(old(S())) && page in Contents(S())
                && (Contents(S())[page] == Contents(old(S()))[page] <==>
                    !old(EvictsItself(page)) || Contents(old(S()))[page] == seq(PGSIZE, _ => 0))
      ensures r.None? ==> Valid() && Contents(S()) == Contents(old(S()))
      ensures r.Some? ==> page in spt && page in pagedir && pagedir[page].frame == r.value && r.value in mem
                          && Inv(S(), {page}) && (!spt[page].inswap ==> Valid())
                          && Contents(S()) == Contents(old(S()))[page := mem[r.value]]
                          && (zero ==> mem[r.value] == seq(PGSIZE, _ => 0))
      ensures r.Some? && spt[page].inswap ==>
                page in Contents(old(S())) && Slot(disk, spt[page].swapindex) == Contents(old(S()))[page]
      ensures r.Some? && page !in old(pagedir) ==> spt[page] == old(spt)[page]
      ensures forall p :: p in spt ==> spt[p].writable == old(spt)[p].writable
      ensures r.Some? ==> && pagedir[page] == Pte(r.value, false, spt[page].writable)
                          && |frames| > 0 && frames[|frames| - 1] == Fte(r.value, page)
      ensures r.Some? ==>
                var others := frames[..|frames| - 1];
                if old(FreeFrame()) then others == old(frames)
                else old(frames) != [] && Without(old(frames), others, Victim(old(S())))
      ensures forall p :: p in pagedir && p != page ==> SameMapping(old(pagedir), pagedir, p)
    {
      hide Inv, Contents, Pool.Used, BitsOf, Slot, Poison, Victim, Without;
      ghost var s := S();
      ResidentKnown(s, page);
      if page in pagedir {
        Resident(s, page);
      }
      var frame, mid := GetFrame(zero);
      if page in spt && page !in pagedir {
        LinkedKeeps(mid, page, frame, mem[frame]);
        InSwap(mid, page);
        pagedir := pagedir[page := Pte(frame, false, spt[page].writable)];
        frames := frames + [Fte(frame, page)];
        assert frames[..|frames| - 1] == mid.frames;
        assert S() == Linked(mid, page, frame, mem[frame]);
        BothBreaks(S(), page);
        r := Some(frame);
      } else {
        DropFrame(frame, mid);
        r := None;
      }
    }

    /** swap_in: the page is resident again, and no page has changed its bytes, even if another
        had to be evicted. */
    method SwapIn(page: Page)
      requires Valid() && page in spt && spt[page].inswap && (FreeFrame() || FreeSlot())
      modifies this, pool.used.bits, swapTable.bits
      ensures Valid() && page in pagedir && !spt[page].inswap && Contents(S()) == Contents(old(S()))
      ensures spt.Keys == old(spt).Keys && forall p :: p in spt ==> spt[p].writable == old(spt)[p].writable
    {
      hide Inv, Contents, Pool.Used, BitsOf, Slot, SameMapping, Without;
      ghost var c := Contents(S());
      NotResident(S(), page);
      var r := AllocateFrame(page, true);
      ReadBack(page, r.value);
      assert Contents(S()) == c;
    }

    /** The end of swap_in: PAGE, which has got FRAME, is read back from its slot, and the slot is free. */
    method ReadBack(page: Page, frame: nat)
      requires Parts() && Inv(S(), {page}) && page in spt && spt[page].inswap && page in pagedir
      requires pagedir[page].frame == frame
      modifies this, swapTable.bits
      ensures Valid() && pagedir == old(pagedir)
      ensures spt == old(spt)[page := old(spt)[page].(inswap := false, swapindex := -1)]
      ensures Contents(S()) == Contents(old(S()))[page := Slot(disk, old(spt)[page].swapindex)] && disk == old(disk)
    {
      hide Inv, Contents, Pool.Used, BitsOf, Slot;
      ghost var s := S();
      InSlot(s, page);
      var i := spt[page].swapindex;
      ReadFromDisk(frame, i);
      var bit := swapTable.Test(i);
      swapTable.Set(i, !bit);
      spt := spt[page := spt[page].(inswap := false, swapindex := -1)];
      assert S() == SwappedIn(s, page);
      SwappedInKeeps(s, page);
    }

    /** allocate_page: a new entry of the supplementary page table. */
    method AddPage(page: Page, writable: bool)
      requires Valid() && page !in spt
      modifies this
      ensures Valid() && Contents(S()) == Contents(old(S())) && spt == old(spt)[page := Spte(writable, false, -1)]
      ensures pagedir == old(pagedir)
    {
      hide Inv, Contents, Pool.Used, BitsOf;
      ghost var s := S();
      spt := spt[page := Spte(writable, false, -1)];
      Added(s, page, writable);
    }

    /** A store by the owner of a resident page, or by the kernel when it loads one. */
    method Store(page: Page, offset: nat, data: seq<byte>)
      requires Valid() && page in pagedir && offset + |data| <= PGSIZE
      modifies this
      ensures Valid() && page in Contents(old(S())) && |Contents(old(S()))[page]| == PGSIZE
      ensures Contents(S()) == Contents(old(S()))[page := Patch(Contents(old(S()))[page], offset, data)]
      ensures pagedir == old(pagedir)[page := old(pagedir)[page].(accessed := true)]
      ensures spt == old(spt) && frames == old(frames)
    {
      hide Inv, Contents, Pool.Used, BitsOf;
      ghost var s := S();
      Resident(s, page);
      var f := pagedir[page].frame;
      var bytes := Patch(mem[f], offset, data);
      mem := mem[f := bytes];
      pagedir := pagedir[page := pagedir[page].(accessed := true)];
      assert S() == Stored(s, page, bytes);
      StoredKeeps(s, page, bytes);
    }
  }

  ghost predicate Accessed(s: Vm, i: nat) {
    i < |s.frames| && s.frames[i].page in s.pagedir && s.pagedir[s.frames[i].page].accessed
  }

  lemma SpunNone(s: Vm)
    ensures Spun(s, 0) == s
  {
    assert s.frames[..0] == [] && s.frames[0..] == s.frames;
    assert ClearAccessed(s.pagedir, []) == s.pagedir;
  }

  /** The clock has stopped at the first page not accessed, or gone round. */
  lemma {:induction false} FirstIs(s: Vm, k: nat)
    requires k <= |s.frames| && forall i :: 0 <= i < k ==> Accessed(s, i)
    requires k < |s.frames| ==> s.frames[k].page in s.pagedir && !s.pagedir[s.frames[k].page].accessed
    ensures FirstUnaccessed(s.frames, s.pagedir) == k
  {
    var n := FirstUnaccessed(s.frames, s.pagedir);
    assert n < k ==> Accessed(s, n);
  }

  lemma FrontPage(s: Vm, x: set<Page>)
    requires Inv(s, x) && s.frames != []
    ensures var f := s.frames[0];
            && f.page in s.pagedir && f.page in s.spt && (f.page !in x ==> !s.spt[f.page].inswap)
            && f.frame in s.used && f.frame in s.mem && |s.mem[f.frame]| == PGSIZE
  {
    var f := s.frames[0];
    assert f in s.frames;
    ResidentUsed(s, f.page);
  }

  lemma OneBit(v: seq<bool>, i: nat, value: bool)
    requires i < |v|
    ensures SetRange(v, i, 1, value) == v[i := value]
  {
  }

  lemma SlotsDevice(s: Vm)
    requires Inv(s, {})
    ensures Device(s.slots, s.disk)
  {
  }

  lemma OnePage(pool: Pool, f: nat)
    requires pool.Valid() && f in pool.Used()
    ensures pool.Owns(f) && Range(f, 1) <= pool.Used()
  {
  }

  lemma SpunSame(s: Vm, k: nat)
    requires k <= |s.frames|
    ensures Spun(s, k).spt == s.spt && Spun(s, k).pagedir.Keys == s.pagedir.Keys
    ensures forall p :: p in Spun(s, k).pagedir ==> SameMapping(s.pagedir, Spun(s, k).pagedir, p)
  {
    ClearSame(s.pagedir, s.frames[..k]);
  }

  /** What eviction does to the tables, but for the slot. */
  lemma EvictedRest(s: Vm, i: nat, disk: seq<seq<byte>>)
    requires s.frames != [] && i < |s.slots|
    requires Victim(s) in s.pagedir && Victim(s) in s.spt
    ensures var t, v := Spun(s, FirstUnaccessed(s.frames, s.pagedir)), Victim(s);
            && t.frames != [] && t.frames[0].page == v && v in t.spt
            && var s' := Evicted(t, i, disk);
               && s'.pagedir.Keys == s.pagedir.Keys - {v} && Without(s.frames, s'.frames, v)
               && s'.spt.Keys == s.spt.Keys && s'.spt[v].inswap && s'.spt[v].writable == s.spt[v].writable
               && (forall p :: p in s'.spt && p != v ==> s'.spt[p] == s.spt[p])
               && (forall p :: p in s'.pagedir ==> SameMapping(s.pagedir, s'.pagedir, p))
  {
    hide FirstUnaccessed, Without, Victim, Poison;
    VictimFront(s);
    VictimOut(s);
    SpunSame(s, FirstUnaccessed(s.frames, s.pagedir));
  }

  /** When all frames are in use, there is one to evict. */
  lemma SomeFrame(s: Vm, pool: Pool)
    requires Inv(s, {}) && pool.Valid() && s.used == pool.Used() && pool.used.bitCnt > 0
    requires forall f :: pool.Owns(f) ==> f in pool.Used()
    ensures s.frames != []
  {
    assert pool.Owns(pool.base);
    assert Holds(s.frames, pool.base);
  }

  /** S2 is S after the eviction of page V. */
  ghost predicate OutOfMemory(s: Vm, s2: Vm, v: Page) {
    && v in s.pagedir && s2.pagedir.Keys == s.pagedir.Keys - {v}
    && s2.spt.Keys == s.spt.Keys && v in s2.spt && s2.spt[v].inswap && s2.spt[v].writable == s.spt[v].writable
    && (forall p :: p in s2.spt && p != v ==> s2.spt[p] == s.spt[p])
    && Without(s.frames, s2.frames, v) && forall p :: p in s2.pagedir ==> SameMapping(s.pagedir, s2.pagedir, p)
  }

  /** Page P, mapped in PD2, has the same frame and permission in PD. */
  ghost predicate SameMapping(pd: map<Page, Pte>, pd2: map<Page, Pte>, p: Page)
    requires p in pd2
  {
    p in pd && pd2[p].frame == pd[p].frame && pd2[p].writable == pd[p].writable
  }

  lemma ResidentKnown(s: Vm, p: Page)
    requires Inv(s, {})
    ensures p in s.pagedir ==> p in s.spt && !s.spt[p].inswap
  {
  }

  lemma BothBreaks(s: Vm, p: Page)
    requires p in s.pagedir && p in s.spt
    ensures s.spt[p].inswap ==> !Inv(s, {})
  {
  }

  const SAMPLE := Page(0, 0)

  /** One frame, with a page of ones that was not accessed, and one free slot. */
  ghost function Sample(): Vm {
    Vm(map[SAMPLE := Pte(0, false, true)], map[SAMPLE := Spte(true, false, -1)], [Fte(0, SAMPLE)], {0},
       map[0 := seq(PGSIZE, _ => 1)], [false], seq(SLOT_SECTORS, _ => Blank()))
  }

  /** In that state allocate_frame on the page evicts it and maps it to a frame of zeros. */
  lemma ResidentLost(disk: seq<seq<byte>>)
    ensures var s, zeros := Sample(), seq(PGSIZE, _ => 0);
            && Inv(s, {}) && Victim(s) == SAMPLE
            && var t := Spun(s, FirstUnaccessed(s.frames, s.pagedir));
               && t.frames != [] && t.frames[0].page in t.spt && SAMPLE in Evicted(t, 0, disk).spt
               && var s' := Linked(Evicted(t, 0, disk), SAMPLE, 0, zeros);
                  && SAMPLE in s'.pagedir && SAMPLE in s'.spt && s'.spt[SAMPLE].inswap
                  && Shows(s, SAMPLE) == (true, seq(PGSIZE, _ => 1)) && Shows(s', SAMPLE) == (true, zeros)
                  && zeros != seq(PGSIZE, _ => 1)
  {
    var s, zeros, ones := Sample(), seq(PGSIZE, _ => 0), seq(PGSIZE, _ => 1);
    assert zeros[0] != ones[0];
    assert FirstUnaccessed(s.frames, s.pagedir) == 0;
    SpunNone(s);
    assert s.frames[0].frame == 0;
  }

  lemma NotResident(s: Vm, p: Page)
    requires Inv(s, {}) && p in s.spt && s.spt[p].inswap
    ensures p !in s.pagedir
  {
  }

  lemma Resident(s: Vm, p: Page)
    requires Inv(s, {}) && p in s.pagedir
    ensures s.pagedir[p].frame in s.mem && |s.mem[s.pagedir[p].frame]| == PGSIZE
    ensures p in Contents(s) && Contents(s)[p] == s.mem[s.pagedir[p].frame]
  {
    ResidentUsed(s, p);
  }

  lemma InSwap(s: Vm, p: Page)
    requires Inv(s, {}) && p in s.spt && p !in s.pagedir
    ensures s.spt[p].inswap ==> p in Contents(s) && Contents(s)[p] == Slot(s.disk, s.spt[p].swapindex)
  {
    hide Slot;
  }

  lemma InSlot(s: Vm, p: Page)
    requires Inv(s, {p}) && p in s.spt && p in s.pagedir && s.spt[p].inswap
    ensures 0 <= s.spt[p].swapindex < |s.slots| && s.slots[s.spt[p].swapindex]
    ensures (s.spt[p].swapindex + 1) * SLOT_SECTORS <= |s.disk| && WellFormed(s.disk)
    ensures |Slot(s.disk, s.spt[p].swapindex)| == PGSIZE
    ensures s.pagedir[p].frame in s.mem && |s.mem[s.pagedir[p].frame]| == PGSIZE
  {
    ResidentUsed(s, p);
    DeviceRoom(s.slots, s.disk, s.spt[p].swapindex);
    SlotSize(s.slots, s.disk, s.spt[p].swapindex);
  }

  /** What is in a free frame does not matter. */
  lemma Unlinked(s: Vm, f: nat, bytes: seq<byte>)
    requires Inv(s, {}) && f !in s.used
    ensures var s' := s.(mem := s.mem[f := bytes]); Inv(s', {}) && Contents(s') == Contents(s)
  {
    hide Mapped, Distinct, Holds, Slots, Contents;
    var s' := s.(mem := s.mem[f := bytes]);
    forall q ensures Shows(s', q) == Shows(s, q) {
      if q in s.pagedir {
        ResidentUsed(s, q);
      }
    }
    SameSlots(s, s');
    ContentsSame(s, s');
  }

  lemma Added(s: Vm, p: Page, writable: bool)
    requires Inv(s, {}) && p !in s.spt
    ensures var s' := s.(spt := s.spt[p := Spte(writable, false, -1)]); Inv(s', {}) && Contents(s') == Contents(s)
  {
    hide Mapped, Distinct, Holds, Contents, Device;
    var s' := s.(spt := s.spt[p := Spte(writable, false, -1)]);
    forall i | 0 <= i < |s.slots| && s.slots[i] ensures Owned(s'.spt, i) {
      assert Owned(s.spt, i);
      var q :| q in s.spt && s.spt[q].inswap && s.spt[q].swapindex == i;
      assert q in s'.spt && s'.spt[q] == s.spt[q];
    }
    assert p !in s.pagedir;
    forall q ensures Shows(s', q) == Shows(s, q) {
    }
    ContentsSame(s, s');
  }
}
