/** User pages, frames and swap slots (vm/frame.c, vm/swap.c), on values. */
module PageTables {
  import opened Disk
  import opened Palloc

  const SLOT_SECTORS := 8

  /** A page of a process. */
  datatype Page = Page(owner: nat, vpage: nat)

  /** A page directory entry that is present. */
  datatype Pte = Pte(frame: nat, accessed: bool, writable: bool)

  /** struct sup_page_table_entry, as far as paging uses it. */
  datatype Spte = Spte(writable: bool, inswap: bool, swapindex: int)

  /** struct frame_table_entry */
  datatype Fte = Fte(frame: nat, page: Page)

  /** Page directories and supplementary page tables of all processes, the frame list, the used
      frames of the user pool with the memory in them, the swap table and the swap device. */
  datatype Vm = Vm(
    pagedir: map<Page, Pte>,
    spt: map<Page, Spte>,
    frames: seq<Fte>,
    used: set<nat>,
    mem: map<nat, seq<byte>>,
    slots: seq<bool>,
    disk: seq<seq<byte>>)

  // ---- Contents ----

  /** N sectors from START on, one after the other. */
  function Join(disk: seq<seq<byte>>, start: nat, n: nat): seq<byte> {
    if n == 0 || start + n > |disk| then [] else Join(disk, start, n - 1) + disk[start + n - 1]
  }

  function Slot(disk: seq<seq<byte>>, i: int): seq<byte> {
    if i < 0 then [] else Join(disk, i * SLOT_SECTORS, SLOT_SECTORS)
  }

  /** Whether P is installed, and the bytes that its owner sees there: those of its frame if it
      is resident, else those of its swap slot. */
  ghost function Shows(s: Vm, p: Page): (r: (bool, seq<byte>))
    ensures r.0 ==> p in s.spt
  {
    if p in s.spt && p in s.pagedir then (true, if s.pagedir[p].frame in s.mem then s.mem[s.pagedir[p].frame] else [])
    else if p in s.spt && s.spt[p].inswap then (true, Slot(s.disk, s.spt[p].swapindex))
    else (false, [])
  }

  /** What the processes see: the bytes of every page. */
  ghost function Contents(s: Vm): map<Page, seq<byte>> {
    map p | p in s.spt && Shows(s, p).0 :: Shows(s, p).1
  }

  lemma ContentsUpdate(s: Vm, s': Vm, p: Page, bytes: seq<byte>)
    requires forall q :: Shows(s', q) == if q == p then (true, bytes) else Shows(s, q)
    ensures Contents(s') == Contents(s)[p := bytes]
  {
    hide Shows;
    assert Shows(s', p).0;
    forall q ensures q in Contents(s') <==> q in Contents(s)[p := bytes] {
      assert Shows(s', q).0 <==> q == p || Shows(s, q).0;
    }
  }

  lemma ContentsSame(s: Vm, s': Vm)
    requires forall q :: Shows(s', q) == Shows(s, q)
    ensures Contents(s') == Contents(s)
  {
  }

  // ---- The invariant ----

  ghost predicate Device(slots: seq<bool>, disk: seq<seq<byte>>) {
    SLOT_SECTORS * |slots| <= |disk| && WellFormed(disk)
  }

  /** Every used frame holds exactly the page of one entry of the frame list. */
  ghost predicate Frames(s: Vm) {
    && Mapped(s.frames, s.pagedir) && Distinct(s.frames)
    && (forall f :: f in s.used <==> Holds(s.frames, f))
    && (forall f :: f in s.used ==> f in s.mem && |s.mem[f]| == PGSIZE)
  }

  /** The frame list has the resident pages with their frames, and no others. */
  ghost predicate Mapped(frames: seq<Fte>, pagedir: map<Page, Pte>) {
    && (forall f :: f in frames ==> f.page in pagedir && pagedir[f.page].frame == f.frame)
    && (forall p :: p in pagedir ==> Fte(pagedir[p].frame, p) in frames)
  }

  ghost predicate Distinct(frames: seq<Fte>) {
    forall i, j :: 0 <= i < j < |frames| ==> frames[i].frame != frames[j].frame
  }

  ghost predicate Holds(frames: seq<Fte>, f: nat) {
    exists i :: 0 <= i < |frames| && frames[i].frame == f
  }

  /** A slot is marked exactly if some page owns it, and then only one. */
  ghost predicate Slots(s: Vm) {
    && Device(s.slots, s.disk)
    && (forall p :: p in s.spt && s.spt[p].inswap ==>
        0 <= s.spt[p].swapindex < |s.slots| && s.slots[s.spt[p].swapindex])
    && (forall p, q :: p in s.spt && q in s.spt && p != q && s.spt[p].inswap && s.spt[q].inswap ==>
          s.spt[p].swapindex != s.spt[q].swapindex)
    && (forall i :: 0 <= i < |s.slots| && s.slots[i] ==> Owned(s.spt, i))
  }

  lemma SameSlots(s: Vm, s': Vm)
    requires Slots(s) && s'.spt == s.spt && s'.slots == s.slots && s'.disk == s.disk
    ensures Slots(s')
  {
  }

  ghost predicate Owned(spt: map<Page, Spte>, i: int) {
    exists p :: p in spt && spt[p].inswap && spt[p].swapindex == i
  }

  /** Pages other than X are resident or swapped out, but not both, and resident pages have the
      permission of their entry in the supplementary page table. */
  ghost predicate Apart(s: Vm, x: set<Page>) {
    forall p :: p in s.pagedir ==>
      p in s.spt && s.pagedir[p].writable == s.spt[p].writable && (p !in x ==> !s.spt[p].inswap)
  }

  ghost predicate Inv(s: Vm, x: set<Page>) {
    Frames(s) && Slots(s) && Apart(s, x)
  }

  // ---- The clock ----

  ghost predicate Has(frames: seq<Fte>, p: Page) {
    exists i :: 0 <= i < |frames| && frames[i].page == p
  }

  /** The page directories after the accessed bits of the pages of FRAMES are cleared. */
  ghost function ClearAccessed(pagedir: map<Page, Pte>, frames: seq<Fte>): map<Page, Pte> {
    map p | p in pagedir :: if Has(frames, p) then pagedir[p].(accessed := false) else pagedir[p]
  }

  /** The first entry of the frame list whose page was not accessed, else the length. */
  ghost function FirstUnaccessed(frames: seq<Fte>, pagedir: map<Page, Pte>): (k: nat)
    ensures k <= |frames|
    ensures forall i :: 0 <= i < k && frames[i].page in pagedir ==> pagedir[frames[i].page].accessed
    ensures k < |frames| ==> frames[k].page in pagedir ==> !pagedir[frames[k].page].accessed
  {
    if frames == [] || (frames[0].page in pagedir && !pagedir[frames[0].page].accessed) then 0
    else 1 + FirstUnaccessed(frames[1..], pagedir)
  }

  /** The page that the clock picks: the first one not accessed, or the front of the list. */
  ghost function Victim(s: Vm): Page
    requires s.frames != []
  {
    var k := FirstUnaccessed(s.frames, s.pagedir);
    s.frames[if k < |s.frames| then k else 0].page
  }

  lemma VictimFront(s: Vm)
    requires s.frames != []
    ensures var f := Spun(s, FirstUnaccessed(s.frames, s.pagedir)).frames; f != [] && f[0].page == Victim(s)
  {
    hide FirstUnaccessed, ClearAccessed;
  }

  /** FRAMES2 has the entries behind that of page V, and then those in front of it. */
  ghost predicate Without(frames: seq<Fte>, frames2: seq<Fte>, v: Page) {
    exists k :: 0 <= k < |frames| && frames[k].page == v && frames2 == frames[k + 1..] + frames[..k]
  }

  lemma VictimOut(s: Vm)
    requires s.frames != []
    ensures var f := Spun(s, FirstUnaccessed(s.frames, s.pagedir)).frames;
            f != [] && Without(s.frames, f[1..], Victim(s))
  {
    hide FirstUnaccessed, ClearAccessed;
    var n := FirstUnaccessed(s.frames, s.pagedir);
    var k := if n < |s.frames| then n else 0;
    var f := Spun(s, n).frames;
    assert f[1..] == s.frames[k + 1..] + s.frames[..k];
  }

  /** The clock has moved past the first K entries. */
  ghost function Spun(s: Vm, k: nat): Vm
    requires k <= |s.frames|
  {
    s.(frames := s.frames[k..] + s.frames[..k], pagedir := ClearAccessed(s.pagedir, s.frames[..k]))
  }

  lemma Rotated(a: seq<Fte>, k: nat)
    requires k <= |a|
    ensures var b := a[k..] + a[..k];
            && |b| == |a| && (forall f :: f in b <==> f in a) && (forall f :: Holds(b, f) <==> Holds(a, f))
            && (Distinct(a) ==> Distinct(b))
  {
    var b, n := a[k..] + a[..k], |a|;
    assert a == a[..k] + a[k..];
    forall f: nat ensures Holds(b, f) <==> Holds(a, f) {
      if Holds(a, f) {
        var i :| 0 <= i < n && a[i].frame == f;
        assert a[i] in b;
      }
      if Holds(b, f) {
        var i :| 0 <= i < n && b[i].frame == f;
        assert b[i] in a;
      }
    }
  }

  /** The page directories map the same pages to the same frames, with the same permissions. */
  lemma ClearSame(pagedir: map<Page, Pte>, frames: seq<Fte>)
    ensures var pd := ClearAccessed(pagedir, frames);
            && (forall p :: p in pd <==> p in pagedir)
            && forall p :: p in pd ==> pd[p].frame == pagedir[p].frame && pd[p].writable == pagedir[p].writable
  {
  }

  lemma SpunFrames(s: Vm, k: nat)
    requires Frames(s) && k <= |s.frames|
    ensures Frames(Spun(s, k))
  {
    hide ClearAccessed, Holds, Distinct;
    var s' := Spun(s, k);
    Rotated(s.frames, k);
    ClearSame(s.pagedir, s.frames[..k]);
    assert Mapped(s'.frames, s'.pagedir) by {
      hide Frames;
      forall p | p in s'.pagedir ensures Fte(s'.pagedir[p].frame, p) in s'.frames {
        assert Fte(s.pagedir[p].frame, p) in s.frames;
      }
    }
  }

  lemma SpunKeeps(s: Vm, k: nat, x: set<Page>)
    requires Inv(s, x) && k <= |s.frames|
    ensures Inv(Spun(s, k), x) && Contents(Spun(s, k)) == Contents(s)
  {
    hide ClearAccessed, Frames, Slots, Contents;
    ClearSame(s.pagedir, s.frames[..k]);
    SpunFrames(s, k);
    SameSlots(s, Spun(s, k));
    ContentsSame(s, Spun(s, k));
  }

  /** Stepping past one more entry. */
  lemma SpunNext(s: Vm, k: nat)
    requires Frames(s) && k < |s.frames|
    ensures var a, b, f := Spun(s, k), Spun(s, k + 1), s.frames[k];
            && f.page in s.pagedir && a.frames[0] == f && f.page in a.pagedir
                && a.pagedir[f.page].accessed == s.pagedir[f.page].accessed
            && b.frames == a.frames[1..] + [f]
            && b.pagedir == a.pagedir[f.page := a.pagedir[f.page].(accessed := false)]
  {
    hide Holds, Distinct, Mapped;
    var f := s.frames[k];
    assert s.frames[k..] == [f] + s.frames[k + 1..];
    assert s.frames[..k + 1] == s.frames[..k] + [f];
    KthPage(s, k);
    ClearNext(s.pagedir, s.frames[..k], f);
  }

  lemma KthPage(s: Vm, k: nat)
    requires Frames(s) && k < |s.frames|
    ensures s.frames[k].page in s.pagedir && !Has(s.frames[..k], s.frames[k].page)
  {
    hide Holds;
    var f := s.frames[k];
    assert f in s.frames;
    forall i | 0 <= i < k ensures s.frames[..k][i].page != f.page {
      assert s.frames[..k][i] == s.frames[i] && s.frames[i] in s.frames;
    }
  }

  lemma ClearNext(pagedir: map<Page, Pte>, frames: seq<Fte>, f: Fte)
    requires f.page in pagedir && !Has(frames, f.page)
    ensures var a, b := ClearAccessed(pagedir, frames), ClearAccessed(pagedir, frames + [f]);
            f.page in a && a[f.page] == pagedir[f.page] && b == a[f.page := a[f.page].(accessed := false)]
  {
    forall p ensures Has(frames + [f], p) <==> Has(frames, p) || p == f.page {
      HasNext(frames, f, p);
    }
  }

  lemma HasNext(frames: seq<Fte>, f: Fte, p: Page)
    ensures Has(frames + [f], p) <==> Has(frames, p) || p == f.page
  {
    var r := frames + [f];
    if Has(frames, p) {
      var i :| 0 <= i < |frames| && frames[i].page == p;
      assert r[i].page == p;
    }
    if p == f.page {
      assert r[|frames|].page == p;
    }
  }

  /** After a full turn the clock is back at the front, and its page counts as not accessed. */
  lemma SpunRound(s: Vm)
    requires Frames(s) && s.frames != []
    ensures var a := Spun(s, |s.frames|);
            a.frames == s.frames && s.frames[0].page in a.pagedir && !a.pagedir[s.frames[0].page].accessed
  {
    hide Holds, Distinct;
    var n := |s.frames|;
    assert s.frames[..n] == s.frames && s.frames[n..] == [];
    assert s.frames[0] in s.frames && Has(s.frames, s.frames[0].page);
  }

  // ---- Sectors of a slot ----

  lemma {:induction false} JoinSame(d: seq<seq<byte>>, e: seq<seq<byte>>, start: nat, n: nat)
    requires |d| == |e| && start + n <= |d| && forall k :: start <= k < start + n ==> d[k] == e[k]
    ensures Join(d, start, n) == Join(e, start, n)
  {
    if n > 0 {
      JoinSame(d, e, start, n - 1);
    }
  }

  lemma {:induction false} JoinSize(d: seq<seq<byte>>, start: nat, n: nat)
    requires WellFormed(d) && start + n <= |d|
    ensures |Join(d, start, n)| == n * SECTOR_SIZE
  {
    if n > 0 {
      JoinSize(d, start, n - 1);
    }
  }

  /** Writes to the sectors of slot I leave the other slots alone. */
  ghost predicate OnlySlot(d: seq<seq<byte>>, e: seq<seq<byte>>, i: nat) {
    |d| == |e| && forall k :: 0 <= k < |d| && !(i * SLOT_SECTORS <= k < (i + 1) * SLOT_SECTORS) ==> d[k] == e[k]
  }

  lemma OtherSlot(d: seq<seq<byte>>, e: seq<seq<byte>>, i: nat, j: nat)
    requires OnlySlot(d, e, i) && i != j && (j + 1) * SLOT_SECTORS <= |d|
    ensures Slot(d, j) == Slot(e, j)
  {
    JoinSame(d, e, j * SLOT_SECTORS, SLOT_SECTORS);
  }

  // ---- Eviction ----

  /** What palloc_free_page leaves in a frame. */
  function Poison(): (r: seq<byte>)
    ensures |r| == PGSIZE
  {
    seq(PGSIZE, _ => 0xcc)
  }

  /** swap_out of the page at the front of the frame list to slot I; DISK is the device after. */
  ghost function Evicted(s: Vm, i: nat, disk: seq<seq<byte>>): Vm
    requires s.frames != [] && s.frames[0].page in s.spt && i < |s.slots|
  {
    var f := s.frames[0];
    Vm(s.pagedir - {f.page}, s.spt[f.page := s.spt[f.page].(inswap := true, swapindex := i)], s.frames[1..],
       s.used - Range(f.frame, 1), s.mem[f.frame := Poison()], s.slots[i := true], disk)
  }

  lemma PopFrame(a: seq<Fte>, pagedir: map<Page, Pte>)
    requires a != [] && Mapped(a, pagedir) && Distinct(a)
    ensures Mapped(a[1..], pagedir - {a[0].page}) && Distinct(a[1..])
    ensures forall f :: Holds(a[1..], f) <==> Holds(a, f) && f != a[0].frame
  {
    assert a == [a[0]] + a[1..];
    assert a[0] in a;
    forall f: nat ensures Holds(a[1..], f) <==> Holds(a, f) && f != a[0].frame {
      if Holds(a[1..], f) {
        var i :| 0 <= i < |a[1..]| && a[1..][i].frame == f;
        assert a[i + 1].frame == f;
      }
      if Holds(a, f) && f != a[0].frame {
        var i :| 0 <= i < |a| && a[i].frame == f;
        assert a[1..][i - 1].frame == f;
      }
    }
    forall f | f in a[1..] ensures f.page != a[0].page {
      var i :| 0 <= i < |a[1..]| && a[1..][i] == f;
      assert a[i + 1] == f && f in a;
    }
    forall p | p in pagedir && p != a[0].page ensures Fte(pagedir[p].frame, p) in a[1..] {
      assert Fte(pagedir[p].frame, p) in a;
    }
  }

  lemma EvictedFrames(s: Vm, i: nat, disk: seq<seq<byte>>)
    requires Frames(s) && s.frames != [] && s.frames[0].page in s.spt && i < |s.slots|
    ensures Frames(Evicted(s, i, disk))
  {
    hide Mapped, Distinct, Holds;
    PopFrame(s.frames, s.pagedir);
  }

  lemma EvictedSlots(s: Vm, i: nat, disk: seq<seq<byte>>)
    requires Inv(s, {}) && s.frames != [] && s.frames[0].page in s.spt && i < |s.slots| && !s.slots[i]
    requires !s.spt[s.frames[0].page].inswap && Device(s.slots, disk)
    ensures Slots(Evicted(s, i, disk))
  {
    hide Frames, Device;
    var s' := Evicted(s, i, disk);
    var v := s.frames[0].page;
    assert Device(s'.slots, disk) by {
      assert Device(s.slots, disk) && |s'.slots| == |s.slots|;
      DeviceSize(s.slots, s'.slots, disk);
    }
    forall j | 0 <= j < |s'.slots| && s'.slots[j] ensures Owned(s'.spt, j) {
      if j == i {
        assert s'.spt[v].inswap;
      } else {
        assert Owned(s.spt, j);
        var p :| p in s.spt && s.spt[p].inswap && s.spt[p].swapindex == j;
        assert p in s'.spt && s'.spt[p] == s.spt[p];
      }
    }
  }

  lemma DeviceSize(a: seq<bool>, b: seq<bool>, disk: seq<seq<byte>>)
    requires Device(a, disk) && |a| == |b|
    ensures Device(b, disk)
  {
  }

  lemma EvictedContent(s: Vm, i: nat, disk: seq<seq<byte>>, p: Page)
    requires Inv(s, {}) && s.frames != [] && s.frames[0].page in s.spt && i < |s.slots| && !s.slots[i]
    requires OnlySlot(s.disk, disk, i)
    requires s.frames[0].frame in s.mem && Slot(disk, i) == s.mem[s.frames[0].frame]
    ensures Shows(Evicted(s, i, disk), p) == Shows(s, p)
  {
    hide Device, Slot, OnlySlot, Distinct, Holds;
    var s', f := Evicted(s, i, disk), s.frames[0];
    assert f in s.frames;
    if p != f.page && p in s.pagedir {
      assert Fte(s.pagedir[p].frame, p) in s.frames;
      OtherFrame(s.frames, Fte(s.pagedir[p].frame, p));
    } else if p != f.page && p in s.spt && s.spt[p].inswap {
      DeviceRoom(s.slots, s.disk, s.spt[p].swapindex);
      OtherSlot(s.disk, disk, i, s.spt[p].swapindex);
    }
  }

  /** Eviction keeps the contents of all pages. */
  lemma EvictedKeeps(s: Vm, i: nat, disk: seq<seq<byte>>)
    requires Inv(s, {}) && s.frames != [] && s.frames[0].page in s.spt && i < |s.slots| && !s.slots[i]
    requires Device(s.slots, disk) && OnlySlot(s.disk, disk, i)
    requires s.frames[0].frame in s.mem && Slot(disk, i) == s.mem[s.frames[0].frame]
    ensures Inv(Evicted(s, i, disk), {}) && Contents(Evicted(s, i, disk)) == Contents(s)
  {
    hide Device, Slot, OnlySlot, Distinct, Holds, Shows, Contents;
    var s', f := Evicted(s, i, disk), s.frames[0];
    assert f in s.frames;
    EvictedFrames(s, i, disk);
    EvictedSlots(s, i, disk);
    forall p ensures Shows(s', p) == Shows(s, p) {
      EvictedContent(s, i, disk, p);
    }
    ContentsSame(s, s');
  }

  lemma DeviceRoom(slots: seq<bool>, disk: seq<seq<byte>>, i: nat)
    requires Device(slots, disk) && i < |slots|
    ensures (i + 1) * SLOT_SECTORS <= |disk|
  {
  }

  lemma OtherFrame(a: seq<Fte>, f: Fte)
    requires a != [] && Distinct(a) && f in a && f != a[0]
    ensures f.frame != a[0].frame
  {
  }

  // ---- Mapping and reading back ----

  /** allocate_frame's linking of frame F, which holds BYTES, to page P. */
  ghost function Linked(s: Vm, p: Page, f: nat, bytes: seq<byte>): Vm
    requires p in s.spt
  {
    s.(pagedir := s.pagedir[p := Pte(f, false, s.spt[p].writable)], frames := s.frames + [Fte(f, p)],
       used := s.used + Range(f, 1), mem := s.mem[f := bytes])
  }

  lemma PushFrame(a: seq<Fte>, pagedir: map<Page, Pte>, p: Page, e: Pte)
    requires Mapped(a, pagedir) && Distinct(a) && p !in pagedir && !Holds(a, e.frame)
    ensures Mapped(a + [Fte(e.frame, p)], pagedir[p := e]) && Distinct(a + [Fte(e.frame, p)])
    ensures forall f :: Holds(a + [Fte(e.frame, p)], f) <==> Holds(a, f) || f == e.frame
  {
    var b := a + [Fte(e.frame, p)];
    forall f: nat ensures Holds(b, f) <==> Holds(a, f) || f == e.frame {
      if Holds(a, f) {
        var i :| 0 <= i < |a| && a[i].frame == f;
        assert b[i].frame == f;
      }
      if f == e.frame {
        assert b[|a|].frame == f;
      }
    }
    forall q | q in pagedir ensures Fte(pagedir[q].frame, q) in b {
      assert Fte(pagedir[q].frame, q) in a;
    }
  }

  lemma LinkedFrames(s: Vm, p: Page, f: nat, bytes: seq<byte>)
    requires Frames(s) && p in s.spt && p !in s.pagedir && f !in s.used && |bytes| == PGSIZE
    ensures Frames(Linked(s, p, f, bytes))
  {
    hide Mapped, Distinct, Holds;
    PushFrame(s.frames, s.pagedir, p, Pte(f, false, s.spt[p].writable));
  }

  lemma LinkedKeeps(s: Vm, p: Page, f: nat, bytes: seq<byte>)
    requires Inv(s, {}) && p in s.spt && p !in s.pagedir && f !in s.used && |bytes| == PGSIZE
    ensures var s' := Linked(s, p, f, bytes);
            && Inv(s', {p}) && (!s.spt[p].inswap ==> Inv(s', {})) && Contents(s') == Contents(s)[p := bytes]
  {
    hide Frames, Slots;
    var s' := Linked(s, p, f, bytes);
    LinkedFrames(s, p, f, bytes);
    SameSlots(s, s');
    forall q ensures Shows(s', q) == if q == p then (true, bytes) else Shows(s, q) {
      if q in s.pagedir {
        ResidentUsed(s, q);
      }
    }
    ContentsUpdate(s, s', p, bytes);
  }

  lemma ResidentUsed(s: Vm, q: Page)
    requires Frames(s) && q in s.pagedir
    ensures s.pagedir[q].frame in s.used && s.pagedir[q].frame in s.mem && |s.mem[s.pagedir[q].frame]| == PGSIZE
  {
    assert Fte(s.pagedir[q].frame, q) in s.frames;
  }

  /** The end of swap_in: the page is read back and its slot given up. */
  ghost function SwappedIn(s: Vm, p: Page): Vm
    requires p in s.pagedir && p in s.spt && 0 <= s.spt[p].swapindex < |s.slots|
  {
    var i := s.spt[p].swapindex;
    s.(mem := s.mem[s.pagedir[p].frame := Slot(s.disk, i)], slots := s.slots[i := false],
       spt := s.spt[p := s.spt[p].(inswap := false, swapindex := -1)])
  }

  lemma SwappedInSlots(s: Vm, p: Page)
    requires Slots(s) && p in s.pagedir && p in s.spt && s.spt[p].inswap
    ensures Slots(SwappedIn(s, p))
  {
    hide Device;
    var s', i := SwappedIn(s, p), s.spt[p].swapindex;
    DeviceSize(s.slots, s'.slots, s.disk);
    forall j | 0 <= j < |s'.slots| && s'.slots[j] ensures Owned(s'.spt, j) {
      assert Owned(s.spt, j);
      var q :| q in s.spt && s.spt[q].inswap && s.spt[q].swapindex == j;
      assert q in s'.spt && s'.spt[q] == s.spt[q];
    }
  }

  lemma FramesApart(s: Vm, p: Page, q: Page)
    requires Frames(s) && p in s.pagedir && q in s.pagedir && p != q
    ensures s.pagedir[p].frame != s.pagedir[q].frame
  {
    var f, g := Fte(s.pagedir[p].frame, p), Fte(s.pagedir[q].frame, q);
    assert f in s.frames && g in s.frames;
    var i :| 0 <= i < |s.frames| && s.frames[i] == f;
    var j :| 0 <= j < |s.frames| && s.frames[j] == g;
    assert i != j;
  }

  lemma SwappedInKeeps(s: Vm, p: Page)
    requires Inv(s, {p}) && p in s.pagedir && p in s.spt && s.spt[p].inswap
    ensures var s' := SwappedIn(s, p);
            Inv(s', {}) && Contents(s') == Contents(s)[p := Slot(s.disk, s.spt[p].swapindex)]
  {
    hide Distinct, Holds, Slot, Device, Mapped, Contents;
    var s', i := SwappedIn(s, p), s.spt[p].swapindex;
    SwappedInSlots(s, p);
    SlotSize(s.slots, s.disk, i);
    ResidentUsed(s, p);
    forall q ensures Shows(s', q) == if q == p then (true, Slot(s.disk, i)) else Shows(s, q) {
      if q in s.pagedir && q != p {
        FramesApart(s, p, q);
      }
    }
    ContentsUpdate(s, s', p, Slot(s.disk, i));
  }

  lemma SlotSize(slots: seq<bool>, disk: seq<seq<byte>>, i: nat)
    requires Device(slots, disk) && i < |slots|
    ensures |Slot(disk, i)| == PGSIZE
  {
    JoinSize(disk, i * SLOT_SECTORS, SLOT_SECTORS);
  }

  /** A store to a resident page, which also marks it accessed. */
  ghost function Stored(s: Vm, p: Page, bytes: seq<byte>): Vm
    requires p in s.pagedir
  {
    s.(pagedir := s.pagedir[p := s.pagedir[p].(accessed := true)], mem := s.mem[s.pagedir[p].frame := bytes])
  }

  lemma StoredKeeps(s: Vm, p: Page, bytes: seq<byte>)
    requires Inv(s, {}) && p in s.pagedir && |bytes| == PGSIZE
    ensures Inv(Stored(s, p, bytes), {}) && p in s.spt && Contents(Stored(s, p, bytes)) == Contents(s)[p := bytes]
  {
    hide Frames, Slots;
    var s' := Stored(s, p, bytes);
    SameSlots(s, s');
    forall q ensures Shows(s', q) == if q == p then (true, bytes) else Shows(s, q) {
      if q in s.pagedir && q != p {
        FramesApart(s, p, q);
      }
    }
    ContentsUpdate(s, s', p, bytes);
    StoredFrames(s, p, bytes);
  }

  lemma StoredFrames(s: Vm, p: Page, bytes: seq<byte>)
    requires Frames(s) && p in s.pagedir && |bytes| == PGSIZE
    ensures Frames(Stored(s, p, bytes))
  {
    hide Distinct, Holds;
    var s' := Stored(s, p, bytes);
    forall q | q in s'.pagedir ensures Fte(s'.pagedir[q].frame, q) in s.frames {
      assert Fte(s.pagedir[q].frame, q) in s.frames;
    }
  }
}
