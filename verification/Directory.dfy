/** Directories (filesys/directory.c) over inodes. */
module Directories {
  import opened Disk
  import opened Bits
  import opened FileLayout
  import opened DirLayout
  import opened Options
  import opened Bitmaps
  import BufferCache
  import MapView
  import Inodes

  lemma SlotsWritten(c: seq<byte>, i: nat, e: Slot)
    requires ENTRY_SIZE * i + ENTRY_SIZE <= |c|
    ensures |Written(c, ENTRY_SIZE * i, e)| == |c|
    ensures Slots(Written(c, ENTRY_SIZE * i, e)) == Slots(c)[i := e]
  {
    var c' := Written(c, ENTRY_SIZE * i, e);
    forall k | 0 <= k < |c| / ENTRY_SIZE ensures Slots(c')[k] == Slots(c)[i := e][k] {
      assert k != i ==> k + 1 <= i || i + 1 <= k;
    }
  }

  lemma SlotsBeyond(c: seq<byte>, e: Slot)
    requires |c| % ENTRY_SIZE == 0
    ensures Slots(Padded(c, |c| + ENTRY_SIZE)) == Slots(c) + [Zeros(ENTRY_SIZE)]
    ensures Slots(Written(Padded(c, |c| + ENTRY_SIZE), |c| + ENTRY_SIZE, e)) == Slots(c) + [Zeros(ENTRY_SIZE), e]
  {
    hide Slots;
    var z := Zeros(ENTRY_SIZE);
    var c1 := Padded(c, |c| + ENTRY_SIZE);
    assert c1 == c + z;
    SlotsAppend(c, z);
    assert Written(c1, |c1|, e) == c1 + e;
    SlotsAppend(c1, e);
    assert Slots(c) + [z] + [e] == Slots(c) + [z, e];
  }

  lemma SlotsAppend(c: seq<byte>, e: Slot)
    requires |c| % ENTRY_SIZE == 0
    ensures Slots(c + e) == Slots(c) + [e]
  {
    var n := |c| / ENTRY_SIZE;
    assert |c| == ENTRY_SIZE * n;
    forall k | 0 <= k < n + 1 ensures Slots(c + e)[k] == (Slots(c) + [e])[k] {
      if k < n {
        assert ENTRY_SIZE * k + ENTRY_SIZE <= |c|;
      } else {
        assert (c + e)[ENTRY_SIZE * k..ENTRY_SIZE * k + ENTRY_SIZE] == e;
      }
    }
  }

  lemma {:induction false} VisibleNext(sl: seq<Slot>, i: nat)
    requires i <= |sl|
    ensures Visible(sl[i..]) == if i == |sl| then []
              else (if IsVisible(sl[i]) then [EntryName(sl[i])] else []) + Visible(sl[i + 1..])
  {
    if i < |sl| {
      assert sl[i..][1..] == sl[i + 1..];
    }
  }

  /** Reading at a multiple of the entry size gives a slot, or too little at the end. */
  lemma ReadSlot(c: seq<byte>, i: nat)
    requires i <= |c| / ENTRY_SIZE
    ensures var e := ReadFrom(c, ENTRY_SIZE * i, ENTRY_SIZE);
            if i < |c| / ENTRY_SIZE then e == Slots(c)[i] else |e| < ENTRY_SIZE
  {
  }

  class Dir {
    const fs: Inodes.FileSys
    const inode: sector
    var pos: nat

    ghost function Objects(): set<object> {
      {this} + fs.Objects()
    }

    /** The bytes of the directory file. */
    ghost function Contents(): seq<byte>
      reads Objects()
    {
      Content(fs.State(), inode)
    }

    ghost predicate Valid()
      reads Objects()
    {
      fs.Valid() && inode in fs.open && fs.NotMap(inode) && DirOk(Contents())
    }

    /** The directory as a map from names to inode sectors. */
    ghost function Map(): map<Name, word>
      reads Objects()
    {
      DirMap(Slots(Contents()))
    }

    /** dir_open */
    constructor (fs: Inodes.FileSys, inode: sector)
      requires fs.Valid() && inode in fs.open && fs.NotMap(inode) && DirOk(Content(fs.Whole(), inode))
      ensures Valid() && this.fs == fs && this.inode == inode && pos == 0
    {
      hide Core, Inodes.Exact, AllHeaders, DirOk, Content;
      fs.WholeIs();
      this.fs, this.inode, pos := fs, inode, 0;
    }

    /** lookup: the slot in use with NAME, which is number INDEX, if there is one. */
    method Lookup(name: Name) returns (found: bool, e: Slot, index: nat)
      requires Valid()
      modifies fs.cache
      ensures Valid() && fs.State() == old(fs.State()) && fs.Whole() == old(fs.Whole()) && fs.Free() == old(fs.Free())
      ensures found <==> name in Map()
      ensures found ==>
                index == FindName(Slots(Contents()), name) < |Slots(Contents())| && e == Slots(Contents())[index]
    {
      hide SlotsOk, EntryName, EntrySector, InUse, Slots, Core, Inodes.Exact, AllHeaders, Content, ReadFrom, FindName,
        Inodes.FileSys.Parts, Inodes.FileSys.State, Inodes.FileSys.Whole;
      ghost var st, w, free := fs.State(), fs.Whole(), fs.Free();
      ghost var c := Contents();
      ghost var sl := Slots(c);
      Found(sl, name);
      index := 0;
      var r := fs.ReadAt(inode, ENTRY_SIZE, 0);
      ReadSlot(c, 0);
      while |r| == ENTRY_SIZE
        invariant fs.Valid() && fs.State() == st && fs.Whole() == w && fs.Free() == free
        invariant index <= FindName(sl, name)
        invariant if index < |sl| then r == sl[index] else |r| < ENTRY_SIZE
        decreases |sl| - index
      {
        if InUse(r) && EntryName(r) == name {
          return true, r, index;
        }
        index := index + 1;
        r := fs.ReadAt(inode, ENTRY_SIZE, ENTRY_SIZE * index);
        ReadSlot(c, index);
      }
      return false, Zeros(ENTRY_SIZE), 0;
    }

    /** The second loop of dir_add: the first slot not in use, or the number of slots and no entry. */
    method FreeSlot() returns (e: seq<byte>, index: nat)
      requires Valid()
      modifies fs.cache
      ensures Valid() && fs.State() == old(fs.State()) && fs.Whole() == old(fs.Whole()) && fs.Free() == old(fs.Free())
      ensures index <= |Slots(Contents())|
      ensures index < |Slots(Contents())| ==> |e| == ENTRY_SIZE && e == Slots(Contents())[index] && !InUse(e)
      ensures index == |Slots(Contents())| ==> Full(Slots(Contents()))
    {
      hide SlotsOk, EntryName, EntrySector, InUse, Slots, Core, Inodes.Exact, AllHeaders, Content, ReadFrom,
        Inodes.FileSys.Parts, Inodes.FileSys.State, Inodes.FileSys.Whole;
      ghost var st, w, free := fs.State(), fs.Whole(), fs.Free();
      ghost var c := Contents();
      ghost var sl := Slots(c);
      index := 0;
      e := fs.ReadAt(inode, ENTRY_SIZE, 0);
      ReadSlot(c, 0);
      while |e| == ENTRY_SIZE && InUse(e)
        invariant fs.Valid() && fs.State() == st && fs.Whole() == w && fs.Free() == free && index <= |sl|
        invariant if index < |sl| then e == sl[index] else |e| < ENTRY_SIZE
        invariant forall k :: 0 <= k < index ==> InUse(sl[k])
        decreases |sl| - index
      {
        index := index + 1;
        e := fs.ReadAt(inode, ENTRY_SIZE, ENTRY_SIZE * index);
        ReadSlot(c, index);
      }
    }

    /** inode_write_at of one entry inside the file or at its end. */
    method WriteEntry(ofs: nat, e: Slot, block: word) returns (ok: bool)
      requires fs.Valid() && inode in fs.open && fs.NotMap(inode) && ofs <= |Contents()|
      requires fs.GrowOk(inode, Inodes.Max(fs.data[inode].length, ofs + ENTRY_SIZE)) && fs.BlockOk(inode, block)
      modifies fs, fs.cache, fs.fm`file, fs.fm.bitmap.bits
      ensures fs.Valid() && inode in fs.open && fs.open[inode].denyWriteCnt == old(fs.open)[inode].denyWriteCnt
      ensures SameOpeners(old(fs.open), fs.open, inode)
      ensures ok <==> old(fs.open)[inode].denyWriteCnt == 0
      ensures Contents() == if ok then Written(old(Contents()), ofs, e) else old(Contents())
      ensures !ok ==> fs.State() == old(fs.State()) && fs.Whole() == old(fs.Whole()) && fs.open == old(fs.open)
      ensures Files(fs.State()) == Files(old(fs.State()))[inode := Contents()]
    {
      hide Core, Inodes.Exact, AllHeaders, Content, Inodes.Extends, Written, Padded, Inodes.Stuck,
        Inodes.FileSys.Parts, Inodes.FileSys.State, Inodes.FileSys.Whole;
      ghost var st := fs.State();
      Inodes.CoreInode(st, fs.own, inode);
      Inodes.NotStuck(fs.data[inode].length, ENTRY_SIZE, ofs);
      var n := fs.WriteAt(inode, e, ofs, block);
      ok := n == ENTRY_SIZE;
      FileOf(st, inode);
      FileOf(fs.State(), inode);
    }

    /** inode_grow by one entry. */
    method GrowEntry(block: word)
      requires fs.Valid() && inode in fs.open && fs.NotMap(inode)
      requires fs.GrowOk(inode, |Contents()| + 2 * ENTRY_SIZE) && fs.BlockOk(inode, block)
      modifies fs, fs.cache, fs.fm`file, fs.fm.bitmap.bits
      ensures fs.Valid() && inode in fs.open && fs.open[inode].denyWriteCnt == old(fs.open)[inode].denyWriteCnt
      ensures SameOpeners(old(fs.open), fs.open, inode)
      ensures Contents() == Padded(old(Contents()), |old(Contents())| + ENTRY_SIZE)
      ensures Files(fs.State()) == Files(old(fs.State()))[inode := Contents()]
      ensures fs.data[inode].length == |Contents()|
      ensures fs.GrowOk(inode, |Contents()| + ENTRY_SIZE) && fs.BlockOk(inode, block)
    {
      hide Core, Inodes.Exact, AllHeaders, Content, Inodes.Extends, Padded, Sectors, Inodes.FileSys.Parts,
        Inodes.FileSys.State, Inodes.FileSys.Whole;
      Inodes.CoreInode(fs.State(), fs.own, inode);
      var length := fs.open[inode].data.length;
      SectorsMonotone(length + ENTRY_SIZE, length + 2 * ENTRY_SIZE);
      SectorsMonotone(length, length + ENTRY_SIZE);
      ghost var st, own0, open0 := fs.State(), fs.own, fs.open;
      fs.GrowOpen(inode, length + ENTRY_SIZE, block);
      Inodes.GrewLength(st, own0, open0, fs.State(), fs.own, fs.open, inode, length + ENTRY_SIZE);
      FileOf(fs.State(), inode);
    }

    /** The part of dir_add for a full directory: the file grows by one entry, and the new
        entry goes one further. */
    method AddPastEnd(name: Name, sector: word, block: word) returns (success: bool)
      requires Valid() && ValidName(name) && 0 !in name && name !in Map()
      requires fs.GrowOk(inode, |Contents()| + 2 * ENTRY_SIZE) && fs.BlockOk(inode, block)
      modifies fs, fs.cache, fs.fm`file, fs.fm.bitmap.bits
      ensures Valid() && Files(fs.State()) == Files(old(fs.State()))[inode := Contents()]
      ensures SameOpeners(old(fs.open), fs.open, inode)
      ensures success <==> old(fs.open)[inode].denyWriteCnt == 0
      ensures Map() == if success then old(Map())[name := sector] else old(Map())
    {
      hide Core, Inodes.Exact, AllHeaders, Content, Written, Padded, Sectors, DirOk, DirMap, FillEntry, ReadFrom,
        Inodes.FileSys.Free, Inodes.FileSys.BlockOk, Inodes.FileSys.Parts, Inodes.FileSys.State, Inodes.FileSys.Whole,
        Files, Slots, ValidName;
      ghost var st, c := fs.State(), Contents();
      GrowEntry(block);
      ghost var c1 := Contents();
      PaddedRead(c, ENTRY_SIZE);
      var e := fs.ReadAt(inode, ENTRY_SIZE, fs.open[inode].data.length - ENTRY_SIZE);
      var e' := FillEntry(e, name, sector);
      success := WriteEntry(fs.open[inode].data.length, e', block);
      PastEnd(c, e, name, sector);
      Inodes.UpdateTwice(Files(st), inode, c1, Contents());
    }

    /** dir_add: succeeds exactly for a proper name that is not in use yet, if the directory
        may be written, and then adds that name alone to the map. */
    method Add(name: Name, sector: word, block: word) returns (success: bool)
      requires Valid() && 0 !in name
      requires ValidName(name) && name !in Map() && Full(Slots(Contents())) ==>
                 fs.GrowOk(inode, |Contents()| + 2 * ENTRY_SIZE)
      requires fs.BlockOk(inode, block)
      modifies fs, fs.cache, fs.fm`file, fs.fm.bitmap.bits
      ensures Valid() && Files(fs.Whole()) == fs.WithMap(Files(old(fs.Whole()))[inode := Contents()])
      ensures success <==> ValidName(name) && name !in old(Map()) && old(fs.open)[inode].denyWriteCnt == 0
      ensures SameOpeners(old(fs.open), fs.open, inode)
      ensures Map() == if success then old(Map())[name := sector] else old(Map())
    {
      hide Core, Inodes.Exact, AllHeaders, Content, Written, Sectors, DirOk, DirMap, FillEntry, ValidName,
        Inodes.FileSys.Parts, Inodes.FileSys.State, Inodes.FileSys.Whole, Files, Slots, Inodes.FileSys.Free;
      ghost var st, w, file, c := fs.State(), fs.Whole(), fs.fm.file, Contents();
      fs.WholeIs();
      FileOf(st, inode);
      fs.WholeChanged(w, st, file, inode, c);
      Inodes.CoreInode(st, fs.own, inode);
      SectorsMonotone(|c|, |c| + 2 * ENTRY_SIZE);
      DirLength(c);
      if !ValidName(name) {
        return false;
      }
      var found, _, _ := Lookup(name);
      if found {
        return false;
      }
      var e, index := FreeSlot();
      if ENTRY_SIZE * index >= fs.open[inode].data.length {
        success := AddPastEnd(name, sector, block);
      } else {
        success := AddInside(index, e, name, sector, block);
      }
      fs.WholeChanged(w, st, file, inode, Contents());
    }

    /** The part of dir_add that fills a free slot. */
    method AddInside(index: nat, e: Slot, name: Name, sector: word, block: word) returns (success: bool)
      requires Valid() && ValidName(name) && 0 !in name && name !in Map()
      requires index < |Slots(Contents())| && e == Slots(Contents())[index] && !InUse(e)
      requires fs.GrowOk(inode, |Contents()|) && fs.BlockOk(inode, block)
      modifies fs, fs.cache, fs.fm`file, fs.fm.bitmap.bits
      ensures Valid() && Files(fs.State()) == Files(old(fs.State()))[inode := Contents()]
      ensures SameOpeners(old(fs.open), fs.open, inode)
      ensures success <==> old(fs.open)[inode].denyWriteCnt == 0
      ensures Map() == if success then old(Map())[name := sector] else old(Map())
    {
      hide Core, Inodes.Exact, AllHeaders, Content, Written, Sectors, DirOk, DirMap, FillEntry, ValidName,
        Inodes.FileSys.Parts, Inodes.FileSys.State, Inodes.FileSys.Whole;
      ghost var c := Contents();
      Inodes.CoreInode(fs.State(), fs.own, inode);
      Inside(c, index, e, name, sector);
      success := WriteEntry(ENTRY_SIZE * index, FillEntry(e, name, sector), block);
    }

    /** dir_readdir: the name of the next visible slot from POS on. */
    method ReadDir() returns (name: Option<Name>)
      requires Valid() && pos % ENTRY_SIZE == 0 && pos <= |Contents()|
      modifies this`pos, fs.cache
      ensures Valid() && fs.State() == old(fs.State()) && fs.Whole() == old(fs.Whole()) && fs.Free() == old(fs.Free())
      ensures pos % ENTRY_SIZE == 0 && old(pos) <= pos <= |Contents()|
      ensures var rest := Slots(Contents())[old(pos) / ENTRY_SIZE..];
              match name
              case Some(n) => old(pos) < pos && Visible(rest) == [n] + Visible(Slots(Contents())[pos / ENTRY_SIZE..])
              case None => Visible(rest) == []
    {
      hide Core, Inodes.Exact, AllHeaders, Content, SlotsOk, EntryName, IsVisible, Slots, ReadFrom, Visible,
        Inodes.FileSys.Parts, Inodes.FileSys.State, Inodes.FileSys.Whole, Inodes.FileSys.Free;
      ghost var st, w, free, c := fs.State(), fs.Whole(), fs.Free(), Contents();
      ghost var sl := Slots(c);
      ghost var i := pos / ENTRY_SIZE;
      ghost var rest := Visible(sl[i..]);
      var e := fs.ReadAt(inode, ENTRY_SIZE, pos);
      ReadSlot(c, i);
      while |e| == ENTRY_SIZE
        invariant fs.Valid() && fs.State() == st && fs.Whole() == w && fs.Free() == free
        invariant i <= |sl| && pos == ENTRY_SIZE * i && old(pos) <= pos
        invariant if i < |sl| then e == sl[i] else |e| < ENTRY_SIZE
        invariant Visible(sl[i..]) == rest
        decreases |sl| - i
      {
        Advance();
        VisibleNext(sl, i);
        i := i + 1;
        if IsVisible(e) {
          return Some(EntryName(e));
        }
        e := fs.ReadAt(inode, ENTRY_SIZE, pos);
        ReadSlot(c, i);
      }
      VisibleNext(sl, |sl|);
      return None;
    }

    method Advance()
      modifies this`pos
      ensures pos == old(pos) + ENTRY_SIZE && fs.Valid() == old(fs.Valid())
      ensures fs.State() == old(fs.State()) && fs.Whole() == old(fs.Whole()) && fs.Free() == old(fs.Free())
    {
      hide Core, Inodes.Exact, AllHeaders, BufferCache.View, BufferCache.Inv, BitsOf, MapView.Masked, MapView.Holds,
        MapView.Apart, FreeCount;
      pos := pos + ENTRY_SIZE;
    }

    /** All of a directory by repeated dir_readdir: every name but "." and "..", once each. */
    method List() returns (names: seq<Name>)
      requires Valid()
      modifies this`pos, fs.cache
      ensures Valid() && fs.State() == old(fs.State()) && fs.Whole() == old(fs.Whole())
      ensures forall n :: n in names <==> n in Map() && n != DOT && n != DOTDOT
      ensures forall i, j :: 0 <= i < j < |names| ==> names[i] != names[j]
    {
      hide Core, Inodes.Exact, AllHeaders, Content, Slots, DirMap, BufferCache.View, BufferCache.Inv, BitsOf,
        MapView.Masked, MapView.Holds, MapView.Apart;
      ghost var st, w, sl := fs.State(), fs.Whole(), Slots(Contents());
      pos, names := 0, [];
      VisibleNames(sl);
      assert sl[0..] == sl;
      while true
        invariant Valid() && fs.State() == st && fs.Whole() == w && pos % ENTRY_SIZE == 0 && pos <= |Contents()|
        invariant names + Visible(sl[pos / ENTRY_SIZE..]) == Visible(sl)
        decreases |Contents()| - pos
      {
        ghost var rest := Visible(sl[pos / ENTRY_SIZE..]);
        var r := ReadDir();
        if r.None? {
          assert names + rest == names;
          break;
        }
        names := names + [r.value];
      }
    }

    /** The loop of dir_remove that counts the entries of the directory to be removed. */
    method CountEntries(t: sector) returns (many: nat)
      requires fs.Valid() && t in fs.open
      modifies fs.cache
      ensures fs.Valid() && fs.State() == old(fs.State()) && fs.Whole() == old(fs.Whole())
      ensures fs.Free() == old(fs.Free())
      ensures many == |UsedSlots(Slots(Content(fs.Whole(), t)))|
    {
      hide Core, Inodes.Exact, AllHeaders, Content, Slots, ReadFrom, InUse, Inodes.FileSys.Parts, Inodes.FileSys.State,
        Inodes.FileSys.Whole;
      ghost var st, w, free, c := fs.State(), fs.Whole(), fs.Free(), Content(fs.Whole(), t);
      ghost var sl := Slots(c);
      many := 0;
      var i := 0;
      var e := fs.ReadAt(t, ENTRY_SIZE, 0);
      ReadSlot(c, 0);
      while |e| == ENTRY_SIZE
        invariant fs.Valid() && fs.State() == st && fs.Whole() == w && fs.Free() == free && i <= |sl|
        invariant if i < |sl| then e == sl[i] else |e| < ENTRY_SIZE
        invariant many == |UsedSlots(sl[..i])|
        decreases |sl| - i
      {
        UsedNext(sl, i);
        if InUse(e) {
          many := many + 1;
        }
        i := i + 1;
        e := fs.ReadAt(t, ENTRY_SIZE, ENTRY_SIZE * i);
        ReadSlot(c, i);
      }
      assert sl[..i] == sl;
    }

    /** The test of dir_remove that refuses directories with three or more entries. */
    method HasEntries(t: sector) returns (busy: bool)
      requires fs.Valid() && t in fs.open
      modifies fs.cache
      ensures fs.Valid() && fs.State() == old(fs.State()) && fs.Whole() == old(fs.Whole())
      ensures fs.Free() == old(fs.Free())
      ensures busy == Busy(fs.Whole(), t)
    {
      hide Core, Inodes.Exact, AllHeaders, Content, Slots;
      busy := false;
      if fs.open[t].data.isdir {
        var many := CountEntries(t);
        busy := many >= 3;
      }
    }

    /** Clears the in_use byte of slot INDEX. */
    method Erase(index: nat, e: Slot, block: word) returns (ok: bool)
      requires Valid() && fs.BlockOk(inode, block)
      requires index < |Slots(Contents())| && e == Slots(Contents())[index] && InUse(e)
      modifies fs, fs.cache, fs.fm`file, fs.fm.bitmap.bits
      ensures Valid() && Files(fs.State()) == Files(old(fs.State()))[inode := Contents()]
      ensures SameOpeners(old(fs.open), fs.open, inode)
      ensures ok <==> old(fs.open)[inode].denyWriteCnt == 0
      ensures Map() == if ok then old(Map()) - {EntryName(e)} else old(Map())
      ensures !ok ==> fs.State() == old(fs.State()) && fs.Whole() == old(fs.Whole()) && fs.open == old(fs.open)
    {
      hide Core, Inodes.Exact, AllHeaders, Content, Written, Sectors, DirOk, DirMap, EntryName, InUse,
        Inodes.FileSys.Parts, Inodes.FileSys.State, Inodes.FileSys.Whole;
      ghost var c := Contents();
      Inodes.CoreInode(fs.State(), fs.own, inode);
      Erased(c, index, e);
      ok := WriteEntry(ENTRY_SIZE * index, e[IN_USE := 0], block);
    }

    /** inode_remove and inode_close of inode T, opened before; this directory stays open
        and keeps its content, even if it is T itself. */
    method Unlink(t: sector)
      requires Valid() && t in fs.open && fs.fm.isOpen && (t == inode || t == MapView.MAP ==> fs.open[t].openCnt >= 2)
      modifies fs, fs.cache, fs.fm`file, fs.fm.bitmap.bits
      ensures Valid() && Contents() == old(Contents())
      ensures Files(fs.State()) ==
              if old(fs.open)[t].openCnt == 1 then Files(old(fs.State())) - {t} else Files(old(fs.State()))
      ensures fs.open == Closed(old(fs.open)[t := old(fs.open)[t].(removed := true)], t)
    {
      hide Core, Inodes.Exact, AllHeaders, Content, DirOk, Inodes.Released, Inodes.FileSys.Parts, Inodes.FileSys.State,
        Inodes.FileSys.Whole;
      ghost var st, own0, last := fs.State(), fs.own, fs.open[t].openCnt == 1;
      fs.Remove(t);
      fs.Close(t);
      if last {
        Inodes.ReleasedFiles(st, own0, fs.State(), fs.own, t);
        FileOf(st, inode);
        FileOf(fs.State(), inode);
      }
    }

    /** inode_close of inode T, opened before only to look at it. */
    method CloseAgain(t: sector)
      requires Valid() && t in fs.open && (t == inode || t == MapView.MAP ==> fs.open[t].openCnt >= 2)
      requires fs.open[t].openCnt == 1 ==> !fs.open[t].removed
      modifies fs, fs.cache, fs.fm`file, fs.fm.bitmap.bits
      ensures Valid() && fs.State() == old(fs.State()) && fs.Whole() == old(fs.Whole())
      ensures fs.open == Closed(old(fs.open), t)
    {
      hide Core, Inodes.Exact, AllHeaders, Content, DirOk, Inodes.FileSys.Parts, Inodes.FileSys.State,
        Inodes.FileSys.Whole;
      fs.Close(t);
    }

    /** dir_remove: takes NAME alone out of the map, unless it is missing, it is a directory
        with three or more entries, or this directory may not be written.  Its inode goes
        at once if nobody else has it open. */
    method Remove(name: Name, block: word) returns (success: bool)
      requires Valid() && fs.BlockOk(inode, block) && fs.fm.isOpen
      requires name in Map() ==> Map()[name] in fs.data
      modifies fs, fs.cache, fs.fm`file, fs.fm.bitmap.bits
      ensures Valid()
      ensures success <==> && name in old(Map()) && old(fs.open)[inode].denyWriteCnt == 0
                           && !Busy(old(fs.Whole()), old(Map())[name])
      ensures name in old(Map()) && DirOk(Content(old(fs.Whole()), old(Map())[name])) ==>
                var t, st := old(Map())[name], old(fs.Whole());
                Busy(st, t) <==> t in st.data && st.data[t].isdir && |DirMap(Slots(Content(st, t)))| >= 3
      ensures Map() == if success then old(Map()) - {name} else old(Map())
      ensures !success ==> Files(fs.Whole()) == Files(old(fs.Whole())) && fs.open == old(fs.open)
      ensures success ==> OpenersAfter(old(fs.open), fs.open, old(Map())[name], inode)
      ensures success ==>
                var t, files := old(Map())[name], Files(old(fs.Whole()))[inode := Contents()];
                Files(fs.Whole()) == fs.WithMap(if t in old(fs.open) then files else files - {t})
    {
      hide Core, Inodes.Exact, AllHeaders, Content, DirOk, DirMap, EntryName, EntrySector, InUse, Busy,
        Inodes.FileSys.Parts, Inodes.FileSys.State, Inodes.FileSys.Whole, Files, Slots, Names, FindName,
        Inodes.FileSys.Free, SameOpeners, OpenersAfter, Closed;
      Found(Slots(Contents()), name);
      var found, e, index := Lookup(name);
      if !found {
        return false;
      }
      var t := EntrySector(e);
      if DirOk(Content(fs.Whole(), t)) {
        BusyNames(fs.Whole(), t);
      }
      success := RemoveTarget(index, e, t, block);
    }

    /** The part of dir_remove after the lookup, which found slot INDEX with inode T. */
    method RemoveTarget(index: nat, e: Slot, t: sector, block: word) returns (success: bool)
      requires Valid() && fs.BlockOk(inode, block) && fs.fm.isOpen && t in fs.data
      requires index < |Slots(Contents())| && e == Slots(Contents())[index] && InUse(e)
      modifies fs, fs.cache, fs.fm`file, fs.fm.bitmap.bits
      ensures Valid()
      ensures success <==> old(fs.open)[inode].denyWriteCnt == 0 && !Busy(old(fs.Whole()), t)
      ensures Map() == if success then old(Map()) - {EntryName(e)} else old(Map())
      ensures !success ==> Files(fs.Whole()) == Files(old(fs.Whole())) && fs.open == old(fs.open)
      ensures success ==> OpenersAfter(old(fs.open), fs.open, t, inode)
      ensures success ==>
                var files := Files(old(fs.Whole()))[inode := Contents()];
                Files(fs.Whole()) == fs.WithMap(if t in old(fs.open) then files else files - {t})
    {
      hide Core, Inodes.Exact, AllHeaders, Content, DirOk, DirMap, EntryName, InUse, Busy, Inodes.FileSys.Parts,
        Inodes.FileSys.State, Inodes.FileSys.Whole, Files, Slots, Inodes.FileSys.Free, SameOpeners, OpenersAfter,
        Closed;
      fs.MapLive();
      ghost var open0, d := fs.open, fs.data[t];
      OpenOnce(open0, t, d);
      fs.Open(t);
      var busy := HasEntries(t);
      if busy {
        CloseAgain(t);
        return false;
      }
      ghost var open1 := fs.open;
      success := RemoveSlot(index, e, t, block);
      if success {
        ghost var o: map<sector, Inodes.OpenInode> :| SameOpeners(open1, o, inode) && t in o
          && fs.open == Closed(o[t := o[t].(removed := true)], t);
        AfterRemoval(open0, open1, o, fs.open, t, inode, d);
      }
    }

    /** The part of dir_remove from the test of its target T, now open, on: the slot goes, and T with it. */
    method RemoveSlot(index: nat, e: Slot, t: sector, block: word) returns (success: bool)
      requires Valid() && fs.BlockOk(inode, block) && fs.fm.isOpen && t in fs.open
      requires t == inode || t == MapView.MAP ==> fs.open[t].openCnt >= 2
      requires fs.open[t].openCnt == 1 ==> !fs.open[t].removed
      requires index < |Slots(Contents())| && e == Slots(Contents())[index] && InUse(e)
      modifies fs, fs.cache, fs.fm`file, fs.fm.bitmap.bits
      ensures Valid() && (success <==> old(fs.open)[inode].denyWriteCnt == 0)
      ensures Map() == if success then old(Map()) - {EntryName(e)} else old(Map())
      ensures !success ==> fs.Whole() == old(fs.Whole()) && fs.open == Closed(old(fs.open), t)
      ensures success ==> exists o: map<sector, Inodes.OpenInode> :: SameOpeners(old(fs.open), o, inode) && t in o
                                      && fs.open == Closed(o[t := o[t].(removed := true)], t)
      ensures success ==>
                var files := Files(old(fs.Whole()))[inode := Contents()];
                Files(fs.Whole()) == fs.WithMap(if old(fs.open)[t].openCnt == 1 then files - {t} else files)
    {
      hide Core, Inodes.Exact, AllHeaders, Content, DirOk, DirMap, EntryName, InUse, Inodes.FileSys.Parts,
        Inodes.FileSys.State, Inodes.FileSys.Whole, Files, Slots, Inodes.FileSys.Free;
      ghost var st, w, file, last := fs.State(), fs.Whole(), fs.fm.file, fs.open[t].openCnt == 1;
      fs.WholeIs();
      success := Erase(index, e, block);
      if success {
        Unlink(t);
        WholeRemoved(w, st, file, t, last);
      } else {
        CloseAgain(t);
      }
    }

    lemma WholeRemoved(w: Fs, st: Fs, file: seq<byte>, t: sector, gone: bool)
      requires fs.Base() && fs.fm.isOpen && Files(w) == Files(st)[MapView.MAP := file]
      requires Files(fs.State()) ==
               if gone then Files(st)[inode := Contents()] - {t} else Files(st)[inode := Contents()]
      ensures Files(fs.Whole()) == fs.WithMap(
                if gone then Files(w)[inode := Contents()] - {t} else Files(w)[inode := Contents()])
    {
      hide Core, Content, Files;
      fs.WholeIs();
    }
  }

  /** From A to B no inode was opened or closed; only the header of inode I may be another. */
  ghost predicate SameOpeners(a: map<sector, Inodes.OpenInode>, b: map<sector, Inodes.OpenInode>, i: sector) {
    && b.Keys == a.Keys && (forall h :: h in a && h != i ==> b[h] == a[h])
    && (i in a ==> b[i] == a[i].(data := b[i].data))
  }

  /** The open inodes after one close of T. */
  ghost function Closed(open: map<sector, Inodes.OpenInode>, t: sector): map<sector, Inodes.OpenInode>
    requires t in open
  {
    if open[t].openCnt > 1 then open[t := open[t].(openCnt := open[t].openCnt - 1)] else open - {t}
  }

  /** As before, but that T is marked removed if it is open. */
  ghost predicate OpenersAfter(a: map<sector, Inodes.OpenInode>, b: map<sector, Inodes.OpenInode>,
                               t: sector, i: sector) {
    && b.Keys == a.Keys && (forall h :: h in a && h != i && h != t ==> b[h] == a[h])
    && (i in a && i != t ==> b[i] == a[i].(data := b[i].data))
    && (t in a ==> b[t] == a[t].(data := b[t].data, removed := true))
  }

  /** Opening T and closing it again changes nothing. */
  lemma OpenOnce(open: map<sector, Inodes.OpenInode>, t: sector, d: InodeDisk)
    requires t in open ==> open[t].openCnt >= 1
    ensures var o := if t in open then open[t].(openCnt := open[t].openCnt + 1) else Inodes.OpenInode(1, false, 0, d);
            Closed(open[t := o], t) == open
  {
  }

  lemma AfterRemoval(open0: map<sector, Inodes.OpenInode>, open1: map<sector, Inodes.OpenInode>,
                     o: map<sector, Inodes.OpenInode>, open2: map<sector, Inodes.OpenInode>, t: sector, i: sector,
                     d: InodeDisk)
    requires t in open0 ==> open0[t].openCnt >= 1
    requires open1 == open0[t := if t in open0 then open0[t].(openCnt := open0[t].openCnt + 1)
                                 else Inodes.OpenInode(1, false, 0, d)]
    requires SameOpeners(open1, o, i) && t in o && open2 == Closed(o[t := o[t].(removed := true)], t)
    ensures OpenersAfter(open0, open2, t, i)
  {
  }

  /** What dir_add does to a directory with a free slot. */
  lemma Inside(c: seq<byte>, i: nat, e: Slot, name: Name, sector: word)
    requires DirOk(c) && ValidName(name) && 0 !in name && name !in DirMap(Slots(c))
    requires i < |Slots(c)| && e == Slots(c)[i] && !InUse(e)
    ensures ENTRY_SIZE * i + ENTRY_SIZE <= |c|
    ensures var c' := Written(c, ENTRY_SIZE * i, FillEntry(e, name, sector));
            DirOk(c') && DirMap(Slots(c')) == DirMap(Slots(c))[name := sector]
  {
    var e' := FillEntry(e, name, sector);
    FillEntryReads(e, name, sector);
    SlotsWritten(c, i, e');
    AddAt(Slots(c), i, e');
  }

  /** What dir_add does to a full directory. */
  lemma PastEnd(c: seq<byte>, e: Slot, name: Name, sector: word)
    requires DirOk(c) && ValidName(name) && 0 !in name && name !in DirMap(Slots(c))
    ensures var c1 := Padded(c, |c| + ENTRY_SIZE);
            && DirOk(c1) && DirMap(Slots(c1)) == DirMap(Slots(c))
            && var c2 := Written(c1, |c1|, FillEntry(e, name, sector));
               DirOk(c2) && DirMap(Slots(c2)) == DirMap(Slots(c))[name := sector]
  {
    var e' := FillEntry(e, name, sector);
    FillEntryReads(e, name, sector);
    SlotsBeyond(c, e');
    Unused(Slots(c), Zeros(ENTRY_SIZE));
    AddBeyond(Slots(c), Zeros(ENTRY_SIZE), e');
  }

  lemma DirLength(c: seq<byte>)
    requires DirOk(c)
    ensures |c| == ENTRY_SIZE * |Slots(c)|
  {
  }

  /** What dir_remove does to the directory file. */
  lemma Erased(c: seq<byte>, i: nat, e: Slot)
    requires DirOk(c) && i < |Slots(c)| && e == Slots(c)[i] && InUse(e)
    ensures ENTRY_SIZE * i + ENTRY_SIZE <= |c|
    ensures var c' := Written(c, ENTRY_SIZE * i, e[IN_USE := 0]);
            DirOk(c') && DirMap(Slots(c')) == DirMap(Slots(c)) - {EntryName(e)}
  {
    var e' := e[IN_USE := 0];
    SlotsWritten(c, i, e');
    RemoveAt(Slots(c), i, e');
  }

  /** A directory that dir_remove refuses: one with three or more entries. */
  ghost predicate Busy(st: Fs, t: sector) {
    t in st.data && st.data[t].isdir && |UsedSlots(Slots(Content(st, t)))| >= 3
  }

  /** That is, one with three or more names, "." and ".." among them. */
  lemma BusyNames(st: Fs, t: sector)
    requires DirOk(Content(st, t))
    ensures Busy(st, t) <==> t in st.data && st.data[t].isdir && |DirMap(Slots(Content(st, t)))| >= 3
  {
    OneSlotEach(Slots(Content(st, t)));
  }

  lemma PaddedRead(c: seq<byte>, n: nat)
    ensures ReadFrom(Padded(c, |c| + n), |c|, n) == Zeros(n)
  {
  }
}
