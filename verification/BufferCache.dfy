/**
 The write-back buffer cache (filesys/cache.c): at most 64 sectors, replaced by a
 clock over the entry list, with read-ahead of the following sector.

 What a client sees is the view: for each sector the cached buffer if there is one,
 and the disk sector otherwise.
 */
module BufferCache {
  import opened Disk

  const CACHE_SIZE := 64

  datatype Entry = Entry(sec: nat, buffer: seq<byte>, accessed: bool, dirty: bool)

  /** Index of the entry that caches sector S, or |es| if none does. */
  function Find(es: seq<Entry>, s: nat): (i: nat)
    ensures i <= |es|
    ensures i < |es| ==> es[i].sec == s
    ensures forall j :: 0 <= j < i ==> es[j].sec != s
  {
    if es == [] then 0
    else if es[0].sec == s then 0
    else 1 + Find(es[1..], s)
  }

  predicate Cached(es: seq<Entry>, s: nat) {
    Find(es, s) < |es|
  }

  /** The content of sector S that the cache presents. */
  function Lookup(es: seq<Entry>, disk: seq<seq<byte>>, s: nat): seq<byte>
    requires s < |disk|
  {
    if Cached(es, s) then es[Find(es, s)].buffer else disk[s]
  }

  ghost function View(es: seq<Entry>, disk: seq<seq<byte>>): seq<seq<byte>> {
    seq(|disk|, s requires 0 <= s < |disk| => Lookup(es, disk, s))
  }

  ghost predicate NoDuplicates(es: seq<Entry>) {
    forall i, j :: 0 <= i < j < |es| ==> es[i].sec != es[j].sec
  }

  ghost predicate EntryOk(e: Entry, disk: seq<seq<byte>>) {
    && e.sec < |disk|
    && IsSector(e.buffer)
    && (!e.dirty ==> e.buffer == disk[e.sec])
  }

  ghost predicate Inv(es: seq<Entry>, disk: seq<seq<byte>>) {
    && WellFormed(disk)
    && |es| <= CACHE_SIZE
    && NoDuplicates(es)
    && forall i :: 0 <= i < |es| ==> EntryOk(es[i], disk)
  }

  // ---- The clock ----

  /** Position of the first entry not accessed since the hand last passed, or |es|. */
  function FirstUnaccessed(es: seq<Entry>): (k: nat)
    ensures k <= |es|
    ensures k < |es| ==> !es[k].accessed
    ensures forall j :: 0 <= j < k ==> es[j].accessed
  {
    if es == [] || !es[0].accessed then 0 else 1 + FirstUnaccessed(es[1..])
  }

  function Cleared(es: seq<Entry>): (r: seq<Entry>)
    ensures |r| == |es|
    ensures forall i :: 0 <= i < |es| ==> r[i] == es[i].(accessed := false)
  {
    seq(|es|, i requires 0 <= i < |es| => es[i].(accessed := false))
  }

  /** The list after the hand has passed over the first K entries. */
  function Rotated(es: seq<Entry>, k: nat): (r: seq<Entry>)
    requires k <= |es|
    ensures |r| == |es|
  {
    es[k..] + Cleared(es[..k])
  }

  /** The list of entries with room for one more: without the victim of the clock if it was full. */
  function Roomy(es: seq<Entry>): (r: seq<Entry>)
    ensures |es| <= CACHE_SIZE ==> |r| < CACHE_SIZE
  {
    if |es| < CACHE_SIZE then es else Rotated(es, FirstUnaccessed(es))[1..]
  }

  lemma IsCached(es: seq<Entry>, i: nat)
    requires i < |es|
    ensures Cached(es, es[i].sec)
  {
  }

  lemma FindUnique(es: seq<Entry>, i: nat)
    requires NoDuplicates(es) && i < |es|
    ensures Find(es, es[i].sec) == i
  {
  }

  lemma RotatedInv(es: seq<Entry>, k: nat, disk: seq<seq<byte>>)
    requires k <= |es| && Inv(es, disk)
    ensures Inv(Rotated(es, k), disk)
  {
    var r := Rotated(es, k);
    forall j | 0 <= j < |r| ensures r[j] == es[Source(es, k, j)].(accessed := r[j].accessed) {
      RotatedAt(es, k, j);
    }
  }

  lemma RotatedAt(es: seq<Entry>, k: nat, j: nat)
    requires k <= |es| && j < |es|
    ensures Rotated(es, k)[j] == es[Source(es, k, j)].(accessed := Rotated(es, k)[j].accessed)
  {
    if j < |es| - k {
      assert Rotated(es, k)[j] == es[k..][j];
    } else {
      assert Rotated(es, k)[j] == Cleared(es[..k])[j - (|es| - k)];
    }
  }

  /** Where the entry at position J of the rotated list stood before. */
  ghost function Source(es: seq<Entry>, k: nat, j: nat): (i: nat)
    requires k <= |es| && j < |es|
    ensures i < |es|
  {
    if j < |es| - k then j + k else j - (|es| - k)
  }

  lemma RotatedView(es: seq<Entry>, k: nat, disk: seq<seq<byte>>)
    requires k <= |es| && Inv(es, disk)
    ensures Inv(Rotated(es, k), disk)
    ensures View(Rotated(es, k), disk) == View(es, disk)
  {
    RotatedInv(es, k, disk);
    var r := Rotated(es, k);
    forall s | 0 <= s < |disk| ensures Lookup(r, disk, s) == Lookup(es, disk, s) {
      RotatedLookup(es, k, disk, s);
    }
  }

  lemma RotatedLookup(es: seq<Entry>, k: nat, disk: seq<seq<byte>>, s: nat)
    requires k <= |es| && Inv(es, disk) && Inv(Rotated(es, k), disk) && s < |disk|
    ensures Cached(Rotated(es, k), s) == Cached(es, s)
    ensures Lookup(Rotated(es, k), disk, s) == Lookup(es, disk, s)
  {
    var r := Rotated(es, k);
    var i := Find(es, s);
    if i < |es| {
      var j' := if i < k then |es| - k + i else i - k;
      assert r[j'].sec == s && r[j'].buffer == es[i].buffer;
    } else {
      forall j | 0 <= j < |r| ensures r[j].sec != s {
        RotatedAt(es, k, j);
      }
    }
  }

  lemma RotatedNone(es: seq<Entry>)
    ensures Rotated(es, 0) == es
  {
  }

  /** The hand passes over one more entry; after a full turn the front counts as not accessed. */
  lemma RotatedNext(es: seq<Entry>, r: nat)
    requires r <= |es| && es != []
    ensures var a := Rotated(es, r);
            && |a| == |es|
            && (r < |es| ==> a[0] == es[r] && Rotated(es, r + 1) == a[1..] + [a[0].(accessed := false)])
            && (r == |es| ==> !a[0].accessed)
  {
    if r < |es| {
      assert es[r..] == [es[r]] + es[r + 1..];
      assert es[..r + 1] == es[..r] + [es[r]];
      assert Cleared(es[..r + 1]) == Cleared(es[..r]) + [es[r].(accessed := false)];
    }
  }

  /** An entry that is dropped has been written back if it had to be. */
  lemma EvictedView(es: seq<Entry>, disk: seq<seq<byte>>)
    requires Inv(es, disk) && es != []
    ensures es[0].sec < |disk|
    ensures var d := if es[0].dirty then disk[es[0].sec := es[0].buffer] else disk;
            Inv(es[1..], d) && |d| == |disk| && View(es[1..], d) == View(es, disk)
  {
    var e := es[0];
    assert EntryOk(e, disk);
    var d := if e.dirty then disk[e.sec := e.buffer] else disk;
    forall i | 0 <= i < |es[1..]| ensures EntryOk(es[1..][i], d) && es[1..][i].sec != e.sec {
      assert es[1..][i] == es[i + 1] && EntryOk(es[i + 1], disk);
    }
    forall s | 0 <= s < |disk| ensures Lookup(es[1..], d, s) == Lookup(es, disk, s) {
    }
  }

  class Cache {
    var entries: seq<Entry>
    var disk: seq<seq<byte>>

    ghost predicate Valid() reads this {
      Inv(entries, disk)
    }

    /** What a client of the cache sees of the disk. */
    ghost function Contents(): (v: seq<seq<byte>>)
      reads this
      requires Valid()
      ensures |v| == |disk| && WellFormed(v)
    {
      View(entries, disk)
    }

    constructor (disk: seq<seq<byte>>)
      requires WellFormed(disk)
      ensures Valid() && Contents() == disk
    {
      entries, this.disk := [], disk;
    }

    /** select_bce_for_evict: passes accessed entries to the back until the front is an
        entry that was not accessed.  The victim, left at the front, is the first
        unaccessed entry in list order, or the old front if all were accessed. */
    method SelectForEvict()
      requires Valid() && entries != []
      modifies this`entries
      ensures Valid() && Contents() == old(Contents())
      ensures entries == Rotated(old(entries), FirstUnaccessed(old(entries)))
      ensures !entries[0].accessed
    {
      hide Rotated, FirstUnaccessed, Inv, View;
      ghost var es, r := entries, 0;
      ghost var k := FirstUnaccessed(es);
      RotatedNone(es);
      while entries[0].accessed
        invariant r <= k && entries != [] && entries == Rotated(es, r)
        decreases k - r
      {
        RotatedNext(es, r);
        entries := entries[1..] + [entries[0].(accessed := false)];
        r := r + 1;
      }
      if r < k {
        RotatedNext(es, r);
      }
      RotatedView(es, k, disk);
    }

    /** The eviction in buffer_cache_check: makes room for one more entry. */
    method Evict()
      requires Valid() && entries != []
      modifies this
      ensures Valid() && |disk| == old(|disk|) && Contents() == old(Contents())
      ensures |entries| == old(|entries|) - 1
      ensures entries == Rotated(old(entries), FirstUnaccessed(old(entries)))[1..]
      ensures var v := Rotated(old(entries), FirstUnaccessed(old(entries)))[0];
              v.sec < old(|disk|) && disk == if v.dirty then old(disk)[v.sec := v.buffer] else old(disk)
    {
      hide Rotated, FirstUnaccessed, Inv, View;
      SelectForEvict();
      var victim := entries[0];
      EvictedView(entries, disk);
      if victim.dirty {
        disk := disk[victim.sec := victim.buffer];
      }
      entries := entries[1..];
    }

    /** The miss path of buffer_cache_check: evicts if the cache is full, then appends a
        clean, accessed entry for SEC. */
    method Load(sec: nat)
      requires Valid() && sec < |disk| && !Cached(entries, sec)
      modifies this
      ensures Valid() && |disk| == old(|disk|) && Contents() == old(Contents())
      ensures entries == Roomy(old(entries)) + [Entry(sec, disk[sec], true, false)]
      ensures old(|entries|) < CACHE_SIZE ==> disk == old(disk)
      ensures old(entries) != [] && old(entries)[old(|entries|) - 1].accessed
              ==> Cached(entries, old(entries)[old(|entries|) - 1].sec)
    {
      if |entries| >= CACHE_SIZE {
        EvictKeeps(entries, sec);
        Evict();
      }
      AppendClean(entries, disk, sec);
      entries := entries + [Entry(sec, disk[sec], true, false)];
    }

    /** buffer_cache_check: brings sector SEC into the cache and returns the position of
        its entry; a miss with READAHEAD also loads the next sector.  Nothing a client
        sees changes, and the entry returned is still cached at the end. */
    method Check(sec: nat, readAhead: bool) returns (idx: nat)
      requires Valid() && sec < |disk|
      requires readAhead && !Cached(entries, sec) ==> sec + 1 < |disk|
      modifies this
      ensures Valid() && |disk| == old(|disk|) && Contents() == old(Contents())
      ensures idx < |entries| && entries[idx].sec == sec
      ensures old(Cached(entries, sec)) ==>
                idx == Find(old(entries), sec) && entries == old(entries)[idx := old(entries)[idx].(accessed := true)]
      ensures readAhead && !old(Cached(entries, sec)) ==> Cached(entries, sec + 1)
      ensures !readAhead && !old(Cached(entries, sec)) ==>
                entries == Roomy(old(entries)) + [Entry(sec, disk[sec], true, false)]
      ensures !readAhead ==> entries[idx].accessed
      // a call without read-ahead never evicts an accessed entry at the back of the list
      ensures !readAhead && old(entries) != [] && old(entries)[old(|entries|) - 1].accessed
              ==> Cached(entries, old(entries)[old(|entries|) - 1].sec)
      decreases readAhead
    {
      idx := Find(entries, sec);
      if idx < |entries| {
        var touched := entries[idx := entries[idx].(accessed := true)];
        FlagsOnly(entries, touched, disk);
        entries := touched;
        return;
      }
      Load(sec);
      idx := |entries| - 1;
      if readAhead {
        var _ := Check(sec + 1, false);
        idx := Find(entries, sec);
      }
    }

    /** buffer_cache_write: changes bytes OFFSET..OFFSET + |DATA| of sector SEC and
        nothing else. */
    method Write(sec: nat, data: seq<byte>, offset: nat)
      requires Valid() && sec < |disk| && offset + |data| <= SECTOR_SIZE
      requires !Cached(entries, sec) ==> sec + 1 < |disk|
      modifies this
      ensures Valid() && |disk| == old(|disk|)
      ensures Contents() == old(Contents())[sec := Patch(old(Contents())[sec], offset, data)]
      ensures Cached(entries, sec) && (!old(Cached(entries, sec)) ==> Cached(entries, sec + 1))
    {
      hide Find, Inv, View;
      var idx := Check(sec, true);
      StoreView(entries, disk, idx, offset, data);
      var e := entries[idx];
      ghost var es := entries;
      entries := entries[idx := e.(buffer := Patch(e.buffer, offset, data), dirty := true)];
      SameSectors(es, entries, sec);
      SameSectors(es, entries, sec + 1);
      IsCached(entries, idx);
    }

    /** What a reader copies out of the entry that buffer_cache_check gives it. */
    method Read(sec: nat, offset: nat, size: nat, readAhead: bool) returns (data: seq<byte>)
      requires Valid() && sec < |disk| && offset + size <= SECTOR_SIZE
      requires readAhead && !Cached(entries, sec) ==> sec + 1 < |disk|
      modifies this
      ensures Valid() && |disk| == old(|disk|) && Contents() == old(Contents())
      ensures data == Contents()[sec][offset..offset + size]
      ensures readAhead && !old(Cached(entries, sec)) ==> Cached(entries, sec + 1)
    {
      var idx := Check(sec, readAhead);
      data := entries[idx].buffer[offset..offset + size];
      FindUnique(entries, idx);
    }

    /** buffer_cache_write_dirties_once: afterwards the disk itself is what clients see. */
    method Flush()
      requires Valid()
      modifies this
      ensures Valid() && Contents() == old(Contents()) && disk == Contents()
      ensures |entries| == old(|entries|) && forall i :: 0 <= i < |entries| ==> !entries[i].dirty
    {
      var i := 0;
      while i < |entries|
        invariant 0 <= i <= |entries| == old(|entries|)
        invariant Valid() && |disk| == old(|disk|) && Contents() == old(Contents())
        invariant forall j :: 0 <= j < i ==> !entries[j].dirty
      {
        if entries[i].dirty {
          WriteBackView(entries, disk, i);
          disk := disk[entries[i].sec := entries[i].buffer];
          entries := entries[i := entries[i].(dirty := false)];
        }
        i := i + 1;
      }
      assert forall s :: 0 <= s < |disk| ==> Lookup(entries, disk, s) == disk[s];
    }
  }

  /** A store to the buffer of an entry, now dirty, changes those bytes of its sector in the view. */
  lemma StoreView(es: seq<Entry>, disk: seq<seq<byte>>, idx: nat, offset: nat, data: seq<byte>)
    requires Inv(es, disk) && idx < |es| && offset + |data| <= SECTOR_SIZE
    ensures es[idx].sec < |disk| && |es[idx].buffer| == SECTOR_SIZE && View(es, disk)[es[idx].sec] == es[idx].buffer
    ensures var e := es[idx].(buffer := Patch(es[idx].buffer, offset, data), dirty := true);
            Inv(es[idx := e], disk) && View(es[idx := e], disk) == View(es, disk)[e.sec := e.buffer]
  {
    hide Find;
    var sec := es[idx].sec;
    var es' := es[idx := es[idx].(buffer := Patch(es[idx].buffer, offset, data), dirty := true)];
    FindUnique(es, idx);
    forall s: nat | s < |disk|
      ensures Lookup(es', disk, s) == if s == sec then es'[idx].buffer else Lookup(es, disk, s)
    {
      SameSectors(es, es', s);
    }
  }

  lemma SameSectors(a: seq<Entry>, b: seq<Entry>, s: nat)
    requires |a| == |b| && forall i :: 0 <= i < |a| ==> a[i].sec == b[i].sec
    ensures Find(a, s) == Find(b, s)
  {
  }

  /** Changing accessed flags alone changes nothing a client sees. */
  lemma FlagsOnly(a: seq<Entry>, b: seq<Entry>, disk: seq<seq<byte>>)
    requires Inv(a, disk) && |a| == |b|
    requires forall i :: 0 <= i < |a| ==> b[i] == a[i].(accessed := b[i].accessed)
    ensures Inv(b, disk) && View(a, disk) == View(b, disk)
    ensures forall s :: Cached(a, s) == Cached(b, s)
  {
    forall s ensures Find(a, s) == Find(b, s) {
      SameSectors(a, b, s);
    }
  }

  lemma {:induction false} FindAppend(es: seq<Entry>, e: Entry, s: nat)
    ensures Find(es + [e], s) == if Cached(es, s) || e.sec == s then Find(es, s) else |es| + 1
  {
    if es != [] {
      assert (es + [e])[1..] == es[1..] + [e];
      FindAppend(es[1..], e, s);
    } else {
      assert (es + [e])[1..] == [];
    }
  }

  lemma AppendClean(es: seq<Entry>, disk: seq<seq<byte>>, sec: nat)
    requires Inv(es, disk) && |es| < CACHE_SIZE && sec < |disk| && !Cached(es, sec)
    ensures var es' := es + [Entry(sec, disk[sec], true, false)];
            Inv(es', disk) && View(es', disk) == View(es, disk) && forall s :: Cached(es, s) ==> Cached(es', s)
  {
    var es' := es + [Entry(sec, disk[sec], true, false)];
    forall s: nat ensures Find(es', s) == if Cached(es, s) || s == sec then Find(es, s) else |es'| {
      FindAppend(es, es'[|es|], s);
    }
  }

  /** Evicting keeps an accessed entry at the back of a list of two or more, and caches
      no new sector. */
  lemma EvictKeeps(es: seq<Entry>, sec: nat)
    requires es != [] && NoDuplicates(es) && !Cached(es, sec)
    ensures var es' := Rotated(es, FirstUnaccessed(es))[1..];
            && !Cached(es', sec)
            && (|es| >= 2 && es[|es| - 1].accessed ==> Cached(es', es[|es| - 1].sec))
  {
    hide Rotated, Find, FirstUnaccessed, Source, Cached;
    EvictCachesNone(es, FirstUnaccessed(es), sec);
    if |es| >= 2 && es[|es| - 1].accessed {
      EvictBack(es, FirstUnaccessed(es));
    }
  }

  lemma EvictCachesNone(es: seq<Entry>, k: nat, sec: nat)
    requires 0 < |es| && k <= |es| && !Cached(es, sec)
    ensures !Cached(Rotated(es, k)[1..], sec)
  {
    hide Rotated, Find;
    var es' := Rotated(es, k)[1..];
    forall j | 0 <= j < |es'| ensures es'[j].sec != sec {
      RotatedAt(es, k, j + 1);
    }
  }

  lemma EvictBack(es: seq<Entry>, k: nat)
    requires k <= |es| && |es| >= 2 && k != |es| - 1
    ensures Cached(Rotated(es, k)[1..], es[|es| - 1].sec)
  {
    hide Rotated, Find;
    var j := if k == |es| then |es| - 2 else |es| - k - 2;
    RotatedAt(es, k, j + 1);
    Present(Rotated(es, k)[1..], j);
  }

  lemma Present(es: seq<Entry>, j: nat)
    requires j < |es|
    ensures Cached(es, es[j].sec)
  {
  }

  lemma WriteBackView(es: seq<Entry>, disk: seq<seq<byte>>, i: nat)
    requires Inv(es, disk) && i < |es|
    ensures var d := disk[es[i].sec := es[i].buffer];
            var es' := es[i := es[i].(dirty := false)];
            Inv(es', d) && View(es', d) == View(es, disk)
  {
    var d := disk[es[i].sec := es[i].buffer];
    var es' := es[i := es[i].(dirty := false)];
    forall s | 0 <= s < |disk| ensures Lookup(es', d, s) == Lookup(es, disk, s) {
      SameSectors(es, es', s);
    }
  }
}
