/**
 Inodes (filesys/inode.c): growth, creation, opening, closing, reading and writing, over
 the buffer cache and the free map.
 */
module Inodes {
  import opened Disk
  import opened Bits
  import opened Options
  import opened Bitmaps
  import opened FileLayout
  import opened MapView
  import FreeMaps
  import BufferCache

  /** An open inode in memory; DATA is its copy of the header. */
  datatype OpenInode = OpenInode(openCnt: nat, removed: bool, denyWriteCnt: nat, data: InodeDisk)

  /** First fit finds a sector below the last one if there is a free sector there. */
  lemma FirstFit(used: seq<bool>, s: nat)
    requires |used| > 0 && FreeCount(used[..|used| - 1]) > 0
    requires FirstGroup(used, 0, 1, false, s)
    ensures s + 1 < |used| && !used[s]
  {
    FreeExists(used[..|used| - 1]);
    var i :| 0 <= i < |used| - 1 && !used[..|used| - 1][i];
    assert Group(used, i, 1, false);
  }

  /** Sector S is the header or a data sector of the live inode that owns it. */
  ghost predicate OwnedExactly(fs: Fs, own: Owners, s: sector)
    requires s in own
  {
    && own[s].inode in fs.data && DataOk(fs.tables, fs.data[own[s].inode])
    && var secs := Secs(fs.tables, fs.data[own[s].inode]);
       own[s] == Use(s, -1) || (0 <= own[s].slot < |secs| && secs[own[s].slot] == s)
  }

  ghost predicate Exact(fs: Fs, own: Owners) {
    forall s :: s in own ==> OwnedExactly(fs, own, s)
  }

  class FileSys {
    const cache: BufferCache.Cache
    const fm: FreeMaps.FreeMap
    var tables: Tables
    var open: map<sector, OpenInode>
    ghost var data: map<sector, InodeDisk>
    ghost var own: Owners

    ghost function Objects(): set<object> {
      {this, cache, fm, fm.bitmap, fm.bitmap.bits}
    }

    constructor (cache: BufferCache.Cache, fm: FreeMaps.FreeMap)
      requires cache.Valid() && fm.Valid() && !fm.isOpen && 0 < |cache.disk| == fm.bitmap.bitCnt <= B32
      ensures Base() && data == map[] && own == map[] && open == map[] && this.cache == cache && this.fm == fm
    {
      this.cache, this.fm := cache, fm;
      tables, open, data, own := map[], map[], map[], map[];
    }

    /** The data sectors of the map file, once that file is open. */
    ghost function MapSecs(): seq<sector>
      reads this, fm
    {
      if fm.isOpen && MAP in data && DataOk(tables, data[MAP]) then Secs(tables, data[MAP]) else []
    }

    /** The map file is an open inode that may be written and has one bit for each sector of the disk. */
    ghost predicate MapOpen()
      reads Objects()
      requires fm.Valid()
    {
      && MAP in open && open[MAP].denyWriteCnt == 0 && MAP in data && open[MAP].data == data[MAP]
      && DataOk(tables, data[MAP]) && data[MAP].length == ByteCnt(fm.bitmap.bitCnt)
      && Apart(MapSecs(), fm.Used())
    }

    /** The parts fit together: the free map has one bit per sector of the disk. */
    ghost predicate Linked()
      reads Objects()
    {
      && cache.Valid() && fm.Valid()
      && 0 < |cache.disk| == fm.bitmap.bitCnt <= B32
      && (fm.isOpen ==> MapOpen())
    }

    /** The map file is up to date: its sectors hold bytes that decode to the map in memory. */
    ghost predicate Saved()
      reads Objects()
      requires Linked()
    {
      fm.isOpen ==> && fm.Synced() && |fm.file| == ByteCnt(fm.bitmap.bitCnt)
                    && Holds(cache.Contents(), MapSecs(), fm.file)
    }

    ghost predicate Parts()
      reads Objects()
    {
      Linked() && Saved()
    }

    /** The file system as it is. */
    ghost function Whole(): (fs: Fs)
      reads Objects()
    {
      if Linked() then Fs(cache.Contents(), fm.Used(), tables, data) else Fs([], [], map[], map[])
    }

    /** The file system apart from the map file, the data sectors of which are blank here. */
    ghost function State(): (fs: Fs)
      reads Objects()
      ensures Parts() ==> && fs.tables == tables && fs.data == data && |fs.view| == |cache.disk| == |fs.used| <= B32
                          && fs.used == Whole().used && |fs.used| == fm.bitmap.bitCnt
    {
      Whole().(view := Masked(Whole().view, MapSecs()))
    }

    /** The files FILES with the map file as it now is. */
    ghost function WithMap(files: map<sector, seq<byte>>): map<sector, seq<byte>>
      reads fm
    {
      if fm.isOpen then files[MAP := fm.file] else files
    }

    ghost predicate Base()
      reads Objects()
    {
      Parts() && Core(State(), own)
    }

    /** Only the free map itself writes its file once that is open. */
    ghost predicate NotMap(h: sector)
      reads fm
    {
      fm.isOpen ==> h != MAP
    }

    /** Sectors that can still be handed out; the very last one cannot, since read-ahead
        would run past the end of the disk. */
    ghost function Free(): nat
      reads Objects()
    {
      if Parts() then FreeCount(fm.Used()[..fm.bitmap.bitCnt - 1]) else 0
    }

    /** The map file is there and open once it is in use. */
    lemma MapLive()
      requires Parts()
      ensures fm.isOpen ==> MAP in data && MAP in open && open[MAP].denyWriteCnt == 0 && open[MAP].data == data[MAP]
    {
    }

    /** A sector that nobody owns is not the header of the map file. */
    lemma UnownedNotMap(h: sector)
      requires Base() && h !in own
      ensures NotMap(h)
    {
      hide Core;
      MapLive();
      if fm.isOpen {
        CoreInode(State(), own, MAP);
      }
    }

    /** The files of the whole system are those of the state and the map file. */
    lemma WholeIs()
      requires Base()
      ensures Core(Whole(), own) && Files(Whole()) == WithMap(Files(State()))
      ensures forall h :: h in data && NotMap(h) ==> Content(Whole(), h) == Content(State(), h)
      ensures Whole() == State().(view := Whole().view)
    {
      hide Core, Content, Masked, Holds, Apart;
      if fm.isOpen {
        WholeFiles(Whole(), own, fm.file);
      } else {
        MaskedNone(Whole().view);
      }
    }

    /** If H is what changed in the state since it was ST, with the map file FILE, then H and the map file
        are what changed in the whole system since it was W. */
    lemma WholeChanged(w: Fs, st: Fs, file: seq<byte>, h: sector, c: seq<byte>)
      requires Base() && Files(w) == if fm.isOpen then Files(st)[MAP := file] else Files(st)
      ensures Files(State()) == Files(st)[h := c] ==> Files(Whole()) == WithMap(Files(w)[h := c])
      ensures Files(State()) == Files(st) ==> Files(Whole()) == WithMap(Files(w))
      ensures Files(State()) == Files(st) - {h} ==> Files(Whole()) == WithMap(Files(w) - {h})
    {
      hide Core, Content, Masked, Holds, Apart, Files, FileSys.Parts;
      WholeIs();
    }

    /** A sector in use by an inode other than the map, or a header, is no data sector of the map file. */
    lemma NotMapSec(s: sector)
      requires Base() && s in own && (NotMap(own[s].inode) || own[s].slot < 0)
      ensures s !in MapSecs()
    {
      hide Masked, Holds, Apart;
      if fm.isOpen {
        CoreInode(State(), own, MAP);
        NotOfMap(own, MapSecs(), s);
      }
    }

    lemma UnownedNotMapSec(s: sector)
      requires Base() && s !in own
      ensures s !in MapSecs()
    {
      hide Core, Masked, Holds, Apart;
      MapLive();
      if fm.isOpen {
        CoreInode(State(), own, MAP);
      }
    }

    /** A live inode's sectors are not the map file's, unless it is the map file. */
    lemma NotMapSecs(h: sector)
      requires Base() && h in data && NotMap(h)
      ensures DataOk(tables, data[h]) && h !in MapSecs()
      ensures forall i :: 0 <= i < Sectors(data[h].length) ==> Secs(tables, data[h])[i] !in MapSecs()
    {
      hide Core, Masked, Holds, Apart, DataOk, Sectors;
      CoreInode(State(), own, h);
      NotMapSec(h);
      var secs := Secs(tables, data[h]);
      forall i | 0 <= i < |secs| ensures secs[i] !in MapSecs() {
        assert own[secs[i]] == Use(h, i);
        NotMapSec(secs[i]);
      }
    }

    /** bitmap_write to the map file: inode_write_at of IMAGE at offset 0, which never has to grow the
        file, and which changes the sectors of that file alone. */
    method WriteMap(image: seq<byte>)
      requires Linked() && cache.Valid() && fm.isOpen && |image| == ByteCnt(fm.bitmap.bitCnt)
      requires HoldsTo(cache.Contents(), MapSecs(), image, 0)
      modifies cache
      ensures Linked() && State() == old(State()) && Holds(cache.Contents(), MapSecs(), image)
      ensures |cache.disk| == old(|cache.disk|)
    {
      hide HoldsTo, Holds, FileSys.Linked, FileSys.Parts, FileSys.State, FileSys.Whole;
      ghost var fs := State();
      var pos := 0;
      while pos < |image|
        invariant Aligned(pos, |image|)
        invariant Linked() && cache.Valid() && State() == fs && |image| == ByteCnt(fm.bitmap.bitCnt)
        invariant HoldsTo(cache.Contents(), MapSecs(), image, pos) && |cache.disk| == old(|cache.disk|)
      {
        var chunk := WriteMapChunk(image, pos);
        pos := pos + chunk;
      }
      HoldsEnd(cache.Contents(), MapSecs(), image);
    }

    /** One pass of that write, from the start of a sector on. */
    method WriteMapChunk(image: seq<byte>, pos: nat) returns (chunk: nat)
      requires Linked() && fm.isOpen && |image| == ByteCnt(fm.bitmap.bitCnt)
      requires pos < |image| && pos % SECTOR_SIZE == 0 && HoldsTo(cache.Contents(), MapSecs(), image, pos)
      modifies cache
      ensures Linked() && cache.Valid() && State() == old(State()) && |cache.disk| == old(|cache.disk|)
      ensures 0 < chunk && Aligned(pos + chunk, |image|)
      ensures HoldsTo(cache.Contents(), MapSecs(), image, pos + chunk)
    {
      hide HoldsTo, Masked, BufferCache.View, BufferCache.Inv, BitsOf, DataOk, Sectors, WriteChunkSize, FileSys.Parts,
        FileSys.Saved, Aligned, BufferCache.Cached;
      var d := open[MAP].data;
      chunk := WriteChunkSize(d.length, |image| - pos, pos % SECTOR_SIZE);
      MapChunk(|image|, pos);
      SectorOf(pos, chunk);
      HoldsMore(cache.Contents(), MapSecs(), image, pos, chunk);
      // byte_to_sector, whose inode_grow has nothing to do here
      var s := Table(tables, d)[Sectors(pos + chunk) - 1];
      assert s == MapSecs()[pos / SECTOR_SIZE];
      ghost var view := cache.Contents();
      cache.Write(s, image[pos..pos + chunk], pos % SECTOR_SIZE);
      assert cache.Contents() == view[s := Patch(view[s], 0, image[pos..pos + chunk])];
    }

    /** There is room to grow inode H to LENGTH bytes; otherwise inode_grow panics. */
    ghost predicate GrowOk(h: sector, length: nat)
      reads this, Objects()
      requires h in data
    {
      || length <= data[h].length
      || (&& Sectors(length) <= MAX_SECTORS && length <= SECTOR_SIZE * |cache.disk|
          && Sectors(length) - Sectors(data[h].length) <= Free())
    }

    /** BLOCK is what calloc() returns if inode H comes to need an indirect table. */
    ghost predicate BlockOk(h: sector, block: word)
      reads this
    {
      h in data && (data[h].indirect == 0 ==> block != 0 && block !in tables)
    }

    /** Stores a header in memory, with the tables as they now are. */
    method Install(h: sector, d: InodeDisk, tables': Tables)
      requires Parts() && NotMap(h)
      requires fm.isOpen && data[MAP].indirect != 0 ==>
                 data[MAP].indirect in tables' && tables'[data[MAP].indirect] == tables[data[MAP].indirect]
      modifies this`tables, this`data
      ensures Parts() && tables == tables' && data == old(data)[h := d]
      ensures State() == old(State()).(tables := tables', data := old(State()).data[h := d])
      ensures Free() == old(Free())
    {
      tables, data := tables', data[h := d];
    }

    /** Writes DATA into sector S through the cache. */
    method PutSector(s: sector, data: seq<byte>, offset: nat)
      requires Parts() && s + 1 < |cache.disk| && offset + |data| <= SECTOR_SIZE && s !in MapSecs()
      modifies cache
      ensures Parts() && s < |old(State()).view| && IsSector(old(State()).view[s])
      ensures State() == old(State()).(view := old(State()).view[s := Patch(old(State()).view[s], offset, data)])
      ensures Free() == old(Free())
    {
      hide BufferCache.Cached;
      ghost var view := cache.Contents();
      cache.Write(s, data, offset);
      MaskedElsewhere(view, MapSecs(), s, cache.Contents()[s]);
      if fm.isOpen {
        HoldsElsewhere(view, MapSecs(), fm.file, s, cache.Contents()[s]);
      }
    }

    /** Takes the first free sector for data sector SLOT of inode H and zeroes it. */
    method NewBlock(h: sector, ghost slot: nat) returns (s: sector)
      requires Base() && Free() > 0
      modifies this`own, cache, fm`file, fm.bitmap.bits
      ensures Base() && |cache.disk| == old(|cache.disk|)
      ensures s !in old(own) && s + 1 < |cache.disk| && own == old(own)[s := Use(h, slot)]
      ensures s < |old(State()).view| == |old(State()).used| && !old(State()).used[s]
      ensures State() == old(State()).(view := old(State()).view[s := Blank()], used := old(State()).used[s := true])
      ensures Files(Whole()) == WithMap(Files(old(Whole())))
      ensures Free() == old(Free()) - 1
    {
      hide Core, Content, Files, FileSys.Free, FileSys.Parts, FileSys.State, FileSys.Whole;
      ghost var fs, w, file := State(), Whole(), fm.file;
      WholeIs();
      s := TakeBlank();
      MarkUsed(fs, own, s);
      TakeSector(fs, own, s, Use(h, slot), Blank());
      SetOwner(s, Use(h, slot));
      WholeChanged(w, fs, file, h, []);
    }

    /** Takes the first free sector and zeroes it. */
    method TakeBlank() returns (s: sector)
      requires Parts() && Free() > 0
      modifies cache, fm`file, fm.bitmap.bits
      ensures Parts() && |cache.disk| == old(|cache.disk|) && s + 1 < |cache.disk|
      ensures s < |old(State()).view| == |old(State()).used| && !old(State()).used[s]
      ensures State() == old(State()).(view := old(State()).view[s := Blank()], used := old(State()).used[s := true])
      ensures Free() == old(Free()) - 1
    {
      hide FileSys.Free, FileSys.Parts, FileSys.State, FileSys.Whole;
      ghost var fs := State();
      s := TakeFree();
      PutSector(s, Blank(), 0);
      assert Patch(fs.view[s], 0, Blank()) == Blank();
    }

    ghost method SetOwner(s: sector, u: Use)
      requires Parts()
      modifies this`own
      ensures Parts() && own == old(own)[s := u] && State() == old(State()) && Free() == old(Free())
    {
      hide Holds, Apart, Masked, BufferCache.View, BufferCache.Inv, BitsOf;
      own := own[s := u];
    }

    /** The loop of inode_grow: fills TABLE from the current sector count of inode H up to
        NEEDED with newly taken, zeroed sectors. */
    method FillTable(h: sector, table: seq<sector>, current: nat, needed: nat)
      returns (t: seq<sector>, ghost more: seq<sector>)
      requires Base() && current <= needed <= |table| && Free() >= needed - current
      modifies this`own, cache, fm`file, fm.bitmap.bits
      ensures Base()
      ensures |t| == |table| && t[..needed] == table[..current] + more && |more| == needed - current
      ensures Taken(old(State()), old(own), State(), own, h, current, more)
      ensures Free() == old(Free()) - |more|
    {
      hide Holds, Apart, Masked, BufferCache.View, BufferCache.Inv, BitsOf;
      t, more := table, [];
      hide Core, Taken, FileSys.Free, BufferCache.View, BufferCache.Inv, BitsOf;
      ghost var fs, own0, free := State(), own, Free();
      TakenNone(fs, own0, h, current);
      var i := current;
      while i < needed
        invariant current <= i <= needed && |t| == |table|
        invariant Base() && Free() == free - |more|
        invariant |more| == i - current && t[..i] == table[..current] + more
        invariant Taken(fs, own0, State(), own, h, current, more)
      {
        ghost var fs1, own1 := State(), own;
        var s := NewBlock(h, i);
        TakenMore(fs, own0, fs1, own1, State(), own, h, current, more, s);
        AppendAt(t, i, s);
        t := t[i := s];
        more := more + [s];
        i := i + 1;
      }
    }

    /** The part of inode_grow that fills the table, once growth is known to be needed. */
    method GrowTable(h: sector, d: InodeDisk, length: nat, block: word) returns (d': InodeDisk)
      requires Base() && h in data && data[h] == d
      requires GrowOk(h, length) && BlockOk(h, block) && length > d.length && NotMap(h)
      modifies this`own, this`tables, this`data, cache, fm`file, fm.bitmap.bits
      ensures Base() && data == old(data)[h := d'] && d'.length == length && d'.isdir == d.isdir
      ensures Extends(old(State()), old(own), State(), own, h)
      ensures Files(State()) == Files(old(State()))[h := Padded(Content(old(State()), h), length)]
      ensures Free() == old(Free()) - (Sectors(length) - Sectors(d.length))
      ensures BlockOk(h, block)
      ensures Exact(old(State()), old(own)) ==> Exact(State(), own)
    {
      hide Core, Taken, Extends, Exact, FileSys.Free, BufferCache.View, BufferCache.Inv, BitsOf, Holds, Apart, Masked,
        FileSys.Parts, FileSys.State, FileSys.Whole, Files, Content, Padded, Sectors;
      ghost var fs, own0 := State(), own;
      CoreInode(fs, own0, h);
      var needed, current := Sectors(length), Sectors(d.length);
      SectorsMonotone(d.length, length);
      var p := if d.indirect == 0 then block else d.indirect;
      var table := TableToFill(tables, d, needed);
      var t, more := FillTable(h, table, current, needed);
      TakenState(fs, own0, State(), own, h, current, more);
      d' := SetTable(h, d, length, p, t, fs, own0, more);
    }

    /** The end of inode_grow: the table T, which is at P if it is indirect, and the length go into the header. */
    method SetTable(h: sector, d: InodeDisk, length: nat, p: word, t: seq<sector>,
                    ghost fs: Fs, ghost own0: Owners, ghost more: seq<sector>) returns (d': InodeDisk)
      requires Base() && h in data && data[h] == d && length > d.length && Sectors(length) <= MAX_SECTORS && NotMap(h)
      requires Core(fs, own0) && fs.data == data && fs.tables == tables && DataOk(tables, d)
      requires Taken(fs, own0, State(), own, h, Sectors(d.length), more)
      requires p != 0 && (p == d.indirect || (d.indirect == 0 && p !in tables))
      requires |t| == if Sectors(length) <= DIRECT then DIRECT else TABLE_SIZE
      requires t[..Sectors(length)] == Secs(tables, d) + more
      modifies this`tables, this`data
      ensures Base() && data == old(data)[h := d'] && d'.length == length && d'.isdir == d.isdir
      ensures d'.indirect == d.indirect || (d'.indirect == p && d.indirect == 0)
      ensures d'.indirect == 0 ==> tables == old(tables)
      ensures Extends(fs, own0, State(), own, h) && (Exact(fs, own0) ==> Exact(State(), own))
      ensures Files(State()) == Files(fs)[h := Padded(Content(fs, h), length)]
      ensures Free() == old(Free())
    {
      hide Core, Taken, Extends, Exact, FileSys.Free, FileSys.Parts, FileSys.State, FileSys.Whole, Files, Content,
        Padded, Sectors;
      var direct := Sectors(length) <= DIRECT;
      d' := if direct then d.(length := length, start := t) else d.(length := length, indirect := p);
      var tables' := if direct then tables else tables[p := t];
      ghost var fs1 := State();
      GrowResult(fs, own0, fs1, own, fs1.(tables := tables', data := fs1.data[h := d']), h, p, t, more);
      MapTable(fs1, own, h, p);
      MapLive();
      Install(h, d', tables');
    }

    /** Writes header D to sector H. */
    method PutHeader(h: sector, d: InodeDisk)
      requires Base() && h in data && data[h] == d
      modifies cache
      ensures Base() && HeaderAt(State(), h)
                && State() == old(State()).(view := old(State()).view[h := State().view[h]])
      ensures Files(State()) == Files(old(State())) && Free() == old(Free())
    {
      hide Holds, Apart, Masked, BufferCache.View, BufferCache.Inv, BitsOf;
      ghost var fs := State();
      assert InodeOk(fs, own, h);
      NotMapSec(h);
      PutSector(h, Encode(d), 0);
      assert Patch(fs.view[h], 0, Encode(d)) == Encode(d);
      WriteHeader(fs, own, h, Encode(d));
    }

    /** inode_grow, for the header D of inode H; BLOCK is the memory calloc() would return. */
    method Grow(h: sector, d: InodeDisk, length: nat, block: word) returns (d': InodeDisk)
      requires Base() && h in data && data[h] == d
      requires GrowOk(h, length) && BlockOk(h, block) && NotMap(h)
      modifies this`own, this`tables, this`data, cache, fm`file, fm.bitmap.bits
      ensures Base() && data == old(data)[h := d'] && d'.length == Max(d.length, length) && d'.isdir == d.isdir
      ensures Extends(old(State()), old(own), State(), own, h)
      ensures Files(State()) == Files(old(State()))[h := Padded(Content(old(State()), h), length)]
      ensures Files(Whole()) == WithMap(Files(old(Whole()))[h := Padded(Content(old(Whole()), h), length)])
      ensures length > d.length ==> HeaderAt(State(), h)
      ensures length <= d.length ==> State() == old(State()) && own == old(own) && tables == old(tables)
      ensures Free() == old(Free()) - (Sectors(d'.length) - Sectors(d.length))
      ensures BlockOk(h, block)
      ensures Exact(old(State()), old(own)) ==> Exact(State(), own)
    {
      hide Core, Extends, Exact, Files, Content, Padded, FileSys.Parts, FileSys.State, FileSys.Whole;
      ghost var fs, w, own0, file := State(), Whole(), own, fm.file;
      WholeIs();
      CoreInode(fs, own0, h);
      ghost var c := Padded(Content(fs, h), length);
      if length <= d.length {
        SameExtends(fs, own0, h, length);
        WholeChanged(w, fs, file, h, c);
        return d;
      }
      d' := GrowTable(h, d, length, block);
      ghost var fs1, own1 := State(), own;
      PutHeader(h, d');
      ExtendsHeader(fs, own0, fs1, own1, h, State().view[h]);
      ExactView(fs1, own1, State());
      WholeChanged(w, fs, file, h, c);
    }

    // ---- Open inodes ----

    ghost predicate OpenOk()
      reads this
    {
      forall h :: h in open ==> h in data && open[h].data == data[h] && open[h].openCnt >= 1
    }

    /** The file system is in order: sectors have one owner each, headers are on disk, and
        open inodes carry their headers. */
    ghost predicate Valid()
      reads Objects()
    {
      Base() && Exact(State(), own) && AllHeaders(State(), {}) && OpenOk()
    }

    /** inode_grow on an open inode. */
    method GrowOpen(h: sector, length: nat, block: word)
      requires Valid() && h in open && GrowOk(h, length) && BlockOk(h, block) && NotMap(h)
      modifies this, cache, fm`file, fm.bitmap.bits
      ensures Valid() && Grew(old(State()), old(own), old(open), State(), own, open, h, length)
      ensures Files(Whole()) == WithMap(Files(old(Whole()))[h := Padded(Content(old(Whole()), h), length)])
      ensures Free() == old(Free()) - (Sectors(data[h].length) - Sectors(old(data)[h].length))
      ensures BlockOk(h, block)
    {
      hide Core, Extends, Exact, AllHeaders, FileSys.Free, BufferCache.View, BufferCache.Inv, BitsOf, FileSys.Parts,
        FileSys.State, FileSys.Whole, Content, Padded, Sectors, Files;
      ghost var fs, own0 := State(), own;
      var d := Grow(h, open[h].data, length, block);
      HeadersBut(fs, h);
      GrownHeaders(fs, own0, State(), own, h);
      HeadersBut(State(), h);
      SetOpen(h, open[h].(data := d));
    }

    /** free_map_allocate for the header of a new inode. */
    method AllocateSector() returns (s: sector)
      requires Valid() && Free() > 0
      modifies cache, fm`file, fm.bitmap.bits
      ensures Valid() && s !in own && s + 1 < |cache.disk|
      ensures s < |old(State()).used| && !old(State()).used[s]
      ensures State() == old(State()).(used := old(State()).used[s := true])
      ensures Files(Whole()) == WithMap(Files(old(Whole())))
      ensures Free() == old(Free()) - 1
    {
      hide Core, Exact, AllHeaders, Content, FileSys.Parts, FileSys.State, FileSys.Whole;
      ghost var fs, w, file := State(), Whole(), fm.file;
      WholeIs();
      s := TakeFree();
      MarkUsed(fs, own, s);
      ExactView(fs, own, State());
      HeadersUsed(fs, State());
      UsedFiles(fs, State());
      WholeChanged(w, fs, file, s, []);
    }

    /** Takes the first free sector, which is not the last one of the disk. */
    method TakeFree() returns (s: sector)
      requires Parts() && Free() > 0
      modifies cache, fm`file, fm.bitmap.bits
      ensures Parts() && s + 1 < |cache.disk| == old(|cache.disk|) && s !in MapSecs()
      ensures s < |old(State()).used| && !old(State()).used[s]
      ensures State() == old(State()).(used := old(State()).used[s := true])
      ensures Free() == old(Free()) - 1
    {
      hide Holds, HoldsTo, Masked, BufferCache.View, BufferCache.Inv, BitsOf, DataOk, FreeMaps.Decodes;
      ghost var used := fm.Used();
      FreeExists(used[..|used| - 1]);
      ghost var i :| 0 <= i < |used| - 1 && !used[..|used| - 1][i];
      assert Group(used, i, 1, false);
      var r := fm.Allocate(1, ByteCnt(fm.bitmap.bitCnt));
      FirstFit(used, r.value);
      s := r.value;
      assert fm.Used() == used[s := true];
      assert used[s := true][..|used| - 1] == used[..|used| - 1][s := true];
      FreeCountTake(used[..|used| - 1], s);
      if fm.isOpen {
        HoldsStart(cache.Contents(), MapSecs(), old(fm.file), fm.file);
        WriteMap(fm.file);
      }
    }

    /** The first part of inode_create: an empty header D for sector H, not yet on disk. */
    method Begin(h: sector, d: InodeDisk)
      requires Base() && Exact(State(), own) && AllHeaders(State(), {})
      requires h !in own && h + 1 < |cache.disk| && State().used[h] && NotMap(h)
      requires d.length == 0 && |d.start| == DIRECT && d.indirect == 0
      modifies this`own, this`data, this`tables
      ensures Base() && Exact(State(), own) && AllHeaders(State(), {h})
      ensures own == old(own)[h := Use(h, -1)] && tables == old(tables) && h !in old(data)
      ensures State() == old(State()).(data := old(State()).data[h := d]) && data == old(data)[h := d]
      ensures Files(State()) == Files(old(State()))[h := []] && Content(State(), h) == [] && Free() == old(Free())
    {
      hide Core, Exact, AllHeaders, Content, Holds, Apart, Masked, BufferCache.View, BufferCache.Inv, BitsOf;
      NewInode(State(), own, h, d);
      own := own[h := Use(h, -1)];
      Install(h, d, tables);
    }

    /** inode_create up to the point where the header is written. */
    method CreateGrown(h: sector, length: nat, isdir: bool, block: word) returns (d: InodeDisk)
      requires Base() && Exact(State(), own) && AllHeaders(State(), {})
      requires h !in own && h + 1 < |cache.disk| && State().used[h] && NotMap(h)
      requires Sectors(length) <= MAX_SECTORS && length <= SECTOR_SIZE * |cache.disk| && Sectors(length) <= Free()
      requires block != 0 && block !in tables
      modifies this`own, this`tables, this`data, cache, fm`file, fm.bitmap.bits
      ensures Base() && Exact(State(), own) && AllHeaders(State(), {h})
      ensures h !in old(data) && data == old(data)[h := d] && d.length == length && d.isdir == isdir
      ensures Files(State()) == Files(old(State()))[h := Zeros(length)]
      ensures Extends(old(State()), old(own)[h := Use(h, -1)], State(), own, h)
      ensures Free() == old(Free()) - Sectors(length) && BlockOk(h, block)
    {
      hide Core, Extends, Exact, AllHeaders, Content, Padded, FileSys.Parts, FileSys.State, FileSys.Whole;
      ghost var fs, data0 := State(), data;
      d := InodeDisk(0, seq(DIRECT, _ => 0), 0, isdir);
      Begin(h, d);
      ghost var fs1, own1, d0 := State(), own, d;
      d := Grow(h, d, length, block);
      UpdateTwice(data0, h, d0, d);
      UpdateTwice(Files(fs), h, [], Zeros(length));
      GrownHeaders(fs1, own1, State(), own, h);
      EmptyPadded(length);
      ExtendsSame(fs, fs1, own1, State(), own, h);
    }

    /** inode_create on a freshly allocated sector H. */
    method Create(h: sector, length: nat, isdir: bool, block: word)
      requires Valid() && h !in own && h + 1 < |cache.disk| && State().used[h]
      requires Sectors(length) <= MAX_SECTORS && length <= SECTOR_SIZE * |cache.disk| && Sectors(length) <= Free()
      requires block != 0 && block !in tables
      modifies this`own, this`tables, this`data, cache, fm`file, fm.bitmap.bits
      ensures Valid() && h in data && data == old(data)[h := data[h]]
      ensures data[h].length == length && data[h].isdir == isdir
      ensures Files(State()) == Files(old(State()))[h := Zeros(length)]
      ensures Files(Whole()) == WithMap(Files(old(Whole()))[h := Zeros(length)])
      ensures Extends(old(State()), old(own)[h := Use(h, -1)], State(), own, h)
      ensures Free() == old(Free()) - Sectors(length) && BlockOk(h, block)
    {
      hide Core, Extends, Exact, AllHeaders, Content, Sectors, FileSys.Parts, FileSys.State, FileSys.Whole, Files,
        Zeros, FileSys.Free;
      ghost var fs, w, own0, file := State(), Whole(), own, fm.file;
      WholeIs();
      UnownedNotMap(h);
      var d := CreateGrown(h, length, isdir, block);
      ghost var fs2 := State();
      Finish(h, d);
      ExtendsTwice(fs, own0[h := Use(h, -1)], fs2, own, State(), own, h);
      WholeChanged(w, fs, file, h, Zeros(length));
    }

    /** The last part of inode_create: the header goes to disk. */
    method Finish(h: sector, d: InodeDisk)
      requires Base() && Exact(State(), own) && AllHeaders(State(), {h}) && h in data && data[h] == d
      modifies cache
      ensures Base() && Exact(State(), own) && AllHeaders(State(), {})
      ensures Files(State()) == Files(old(State())) && Free() == old(Free())
      ensures Extends(old(State()), own, State(), own, h)
    {
      hide Core, Extends, Exact, AllHeaders;
      ghost var fs := State();
      CoreInode(fs, own, h);
      PutHeader(h, d);
      ExactView(fs, own, State());
      SelfExtends(fs, own, h);
      CreatedHeaders(fs, own, fs, own, h, State().view[h]);
    }

    /** inode_open of a live inode: the one in memory if it is open already. */
    method Open(h: sector)
      requires Valid() && h in data
      modifies this`open, cache
      ensures Valid() && State() == old(State()) && Whole() == old(Whole()) && own == old(own) && Free() == old(Free())
      ensures open == old(open)[h := if h in old(open) then old(open)[h].(openCnt := old(open)[h].openCnt + 1)
                                     else OpenInode(1, false, 0, data[h])]
    {
      hide Core, Exact, AllHeaders, Decode, Encode, Holds, Apart, Masked, BufferCache.View, BufferCache.Inv, BitsOf;
      if h in open {
        Reopen(h);
        return;
      }
      CoreInode(State(), own, h);
      HeadersBut(State(), h);
      NotMapSec(h);
      var header := GetHeader(h);
      HeaderRoundTrip(data[h]);
      SetOpen(h, OpenInode(1, false, 0, Decode(header)));
    }

    /** Reads sector H through the cache, without read-ahead. */
    method GetHeader(h: sector) returns (bytes: seq<byte>)
      requires Parts() && h < |cache.disk|
      modifies cache
      ensures Parts() && State() == old(State()) && Whole() == old(Whole()) && Free() == old(Free())
      ensures h < |Whole().view| && bytes == Whole().view[h] && IsSector(bytes)
      ensures h !in MapSecs() ==> bytes == State().view[h]
    {
      hide Holds, HoldsTo, Apart, Masked, BufferCache.View, BufferCache.Inv, BitsOf, BufferCache.Cached;
      bytes := cache.Read(h, 0, SECTOR_SIZE, false);
      if h !in MapSecs() {
        MaskedElsewhere(cache.Contents(), MapSecs(), h, bytes);
      }
    }

    /** inode_reopen */
    method Reopen(h: sector)
      requires Valid() && h in open
      modifies this`open
      ensures Valid() && State() == old(State()) && Whole() == old(Whole()) && own == old(own) && Free() == old(Free())
      ensures open == old(open)[h := old(open)[h].(openCnt := old(open)[h].openCnt + 1)]
    {
      hide Core, Exact, AllHeaders, FileSys.Parts, FileSys.State, FileSys.Whole;
      MapLive();
      SetOpen(h, open[h].(openCnt := open[h].openCnt + 1));
    }

    /** inode_remove */
    method Remove(h: sector)
      requires Valid() && h in open
      modifies this`open
      ensures Valid() && State() == old(State()) && Whole() == old(Whole()) && own == old(own) && Free() == old(Free())
      ensures open == old(open)[h := old(open)[h].(removed := true)]
    {
      hide Core, Exact, AllHeaders, FileSys.Parts, FileSys.State, FileSys.Whole;
      MapLive();
      SetOpen(h, open[h].(removed := true));
    }

    /** inode_close: the last close of a removed inode gives back its header sector and its
        data sectors, and no other. */
    method Close(h: sector)
      requires Valid() && h in open
      requires open[h].openCnt == 1 ==> NotMap(h) && (open[h].removed ==> fm.isOpen)
      modifies this, cache, fm`file, fm.bitmap.bits
      ensures Valid() && tables == old(tables)
      ensures old(open)[h].openCnt > 1 ==>
                State() == old(State()) && Whole() == old(Whole()) && own == old(own)
                && open == old(open)[h := old(open)[h].(openCnt := old(open)[h].openCnt - 1)]
      ensures old(open)[h].openCnt == 1 ==> open == old(open) - {h}
      ensures old(open)[h].openCnt == 1 && !old(open)[h].removed ==>
                State() == old(State()) && Whole() == old(Whole()) && own == old(own)
      ensures old(open)[h].openCnt == 1 && old(open)[h].removed ==>
                && Released(old(State()), old(own), State(), own, h)
                && Files(Whole()) == WithMap(Files(old(Whole())) - {h})
    {
      hide Core, Exact, AllHeaders, Released, FileSys.Parts, FileSys.State, FileSys.Whole, Files, Content;
      var o := open[h];
      ghost var fs, w, own0, file := State(), Whole(), own, fm.file;
      MapLive();
      WholeIs();
      if o.openCnt > 1 {
        SetOpen(h, o.(openCnt := o.openCnt - 1));
        return;
      }
      DropOpen(h);
      if o.removed {
        Reclaim(h, o.data);
        ReleasedFiles(fs, own0, State(), own, h);
        WholeChanged(w, fs, file, h, []);
      }
    }

    /** The part of inode_close that gives back the sectors of a removed inode. */
    method Reclaim(h: sector, d: InodeDisk)
      requires Base() && Exact(State(), own) && AllHeaders(State(), {}) && h in data && d == data[h]
      requires fm.isOpen && h != MAP
      modifies this`data, this`own, cache, fm`file, fm.bitmap.bits
      ensures Base() && Exact(State(), own) && AllHeaders(State(), {})
      ensures data == old(data) - {h} && Released(old(State()), old(own), State(), own, h)
    {
      hide Core, Exact, AllHeaders, Released, Cleared, DataOk, Holds, Apart, Masked, BufferCache.View, BufferCache.Inv,
        BitsOf;
      ghost var fs, own0 := State(), own;
      CoreInode(fs, own0, h);
      ReleaseAll(h, d);
      ghost var fs1 := State();
      own := map s | s in own0 && own0[s].inode != h :: own0[s];
      Reclaimed(fs, own0, fs1.(data := fs.data - {h}), own, h);
      Forget(h);
    }

    /** Releases the header sector and the data sectors of an inode; each is in use when its
        turn comes, so no assertion of free_map_release fails. */
    method ReleaseAll(h: sector, d: InodeDisk)
      requires Base() && h in data && d == data[h] && DataOk(tables, d) && fm.isOpen && h != MAP
      modifies cache, fm`file, fm.bitmap.bits
      ensures Parts() && State() == old(State()).(used := State().used)
      ensures Cleared(old(State()).used, State().used, [h] + Secs(tables, d))
    {
      hide Core, Cleared, Sectors, DataOk, FileSys.Free, BufferCache.View, BufferCache.Inv, BitsOf, Holds, Masked,
        SecsOwned, FileSys.Parts, FileSys.State, FileSys.Whole, FileSys.Linked;
      ghost var fs := State();
      CoreInode(fs, own, h);
      CoreUsed(fs, own, h);
      ghost var secs := Secs(tables, d);
      SecsDistinct(own, h, secs);
      ghost var mapSecs := MapSecs();
      NotMapSecs(h);
      ReleaseSector(h);
      ClearedFirst(fs.used, h);
      var i, n := 0, Sectors(d.length);
      while i < n
        invariant 0 <= i <= n && Parts()
        invariant State() == fs.(used := State().used) && Cleared(fs.used, State().used, [h] + secs[..i])
        invariant MapSecs() == mapSecs
      {
        assert secs[i] == Table(tables, d)[i] && InUse(fs, secs[i]);
        ClearedNext(fs.used, State().used, [h] + secs[..i], secs[i]);
        ReleaseSector(Table(tables, d)[i]);
        PrefixNext(h, secs, i);
        i := i + 1;
      }
      assert secs[..n] == secs;
    }

    ghost method Forget(h: sector)
      requires Parts() && NotMap(h)
      modifies this`data
      ensures Parts() && data == old(data) - {h} && State() == old(State()).(data := old(State()).data - {h})
      ensures Free() == old(Free())
    {
      data := data - {h};
    }

    method ReleaseSector(s: sector)
      requires Parts() && fm.isOpen && s < |State().used| && State().used[s] && s !in MapSecs()
      modifies cache, fm`file, fm.bitmap.bits
      ensures Parts() && |cache.disk| == old(|cache.disk|)
      ensures && State() == old(State()).(used := old(State()).used[s := false])
    {
      hide Holds, HoldsTo, Masked, BufferCache.View, BufferCache.Inv, BitsOf, DataOk, FreeMaps.Decodes;
      fm.Release(s, 1, ByteCnt(fm.bitmap.bitCnt));
      assert fm.Used() == old(fm.Used())[s := false];
      HoldsStart(cache.Contents(), MapSecs(), old(fm.file), fm.file);
      WriteMap(fm.file);
    }

    method DropOpen(h: sector)
      requires Parts() && NotMap(h)
      modifies this`open
      ensures Parts() && State() == old(State()) && Whole() == old(Whole())
      ensures open == old(open) - {h} && Free() == old(Free())
    {
      open := open - {h};
    }

    /** A new inode, created and opened. */
    method CreateOpen(length: nat, isdir: bool, block: word) returns (h: sector)
      requires Valid() && 1 + Sectors(length) <= Free()
      requires Sectors(length) <= MAX_SECTORS && length <= SECTOR_SIZE * |cache.disk|
      requires block != 0 && block !in tables
      modifies this, cache, fm`file, fm.bitmap.bits
      ensures Valid() && h !in old(data) && h !in old(own) && h in data && data == old(data)[h := data[h]]
      ensures data[h].length == length && open == old(open)[h := OpenInode(1, false, 0, data[h])]
      ensures |cache.disk| == old(|cache.disk|)
      ensures h < |old(State()).used| && !old(State()).used[h]
      ensures var fs1 := old(State()).(used := old(State()).used[h := true]);
              && Extends(fs1, old(own)[h := Use(h, -1)], State(), own, h)
              && Files(State()) == Files(fs1)[h := Zeros(length)]
      ensures Free() == old(Free()) - 1 - Sectors(length) && BlockOk(h, block)
    {
      hide Core, Extends, Exact, AllHeaders, Content, Sectors, Zeros, FileSys.Parts, FileSys.State, FileSys.Whole;
      ghost var fs, own0 := State(), own;
      h := AllocateSector();
      NewOwner(fs, own0, h);
      Create(h, length, isdir, block);
      ExtendsSize(fs.(used := fs.used[h := true]), own0[h := Use(h, -1)], State(), own, h);
      Open(h);
    }

    /** A call that works on open inode H. */
    method Apply(h: sector, call: Call, block: word)
      requires Valid() && h in open && NotMap(h) && open[h].denyWriteCnt == 0
      requires GrowOk(h, After(data[h].length, call)) && BlockOk(h, block)
      modifies this, cache, fm`file, fm.bitmap.bits
      ensures Valid() && Worked(old(State()), old(own), old(open), State(), own, open, h) && BlockOk(h, block)
      ensures h in data && data[h].length == After(old(data)[h].length, call)
      ensures Free() == old(Free()) - (Sectors(data[h].length) - Sectors(old(data)[h].length))
    {
      hide Core, Extends, Exact, AllHeaders, Content, Padded, Written, Sectors, Files, FileSys.Parts, FileSys.State,
        FileSys.Whole, FileSys.Free;
      ghost var fs, own0, open0 := State(), own, open;
      WorkedNone(fs, own0, open0, h);
      match call {
        case Grow(length) =>
          GrowOpen(h, length, block);
        case Write(bytes, offset) =>
          var _ := WriteAt(h, bytes, offset, block);
      }
      FileOf(State(), h);
    }

    /** Any number of such calls. */
    method ApplyAll(h: sector, calls: seq<Call>, block: word)
      requires Valid() && h in open && NotMap(h) && open[h].denyWriteCnt == 0
      requires GrowOk(h, AfterAll(data[h].length, calls)) && BlockOk(h, block)
      modifies this, cache, fm`file, fm.bitmap.bits
      ensures Valid() && Worked(old(State()), old(own), old(open), State(), own, open, h)
    {
      hide Core, Extends, Exact, AllHeaders, Content, Sectors, Files, FileSys.Parts, FileSys.State, FileSys.Whole,
        FileSys.Free, Worked, FileSys.BlockOk;
      ghost var fs, own0, open0, length, free := State(), own, open, data[h].length, Free();
      ghost var total := AfterAll(length, calls);
      WorkedNone(fs, own0, open0, h);
      var i := 0;
      while i < |calls|
        invariant i <= |calls| && Valid() && BlockOk(h, block)
        invariant Worked(fs, own0, open0, State(), own, open, h)
        invariant h in data && data[h].length == AfterAll(length, calls[..i])
        invariant Free() == free - (Sectors(data[h].length) - Sectors(length))
      {
        ghost var fs1, own1, open1 := State(), own, open;
        WorkedOpen(fs, own0, open0, fs1, own1, open1, h);
        AfterNext(length, calls, i);
        AfterAtLeast(length, calls[..i]);
        SectorsMonotone(AfterAll(length, calls[..i + 1]), total);
        Apply(h, calls[i], block);
        WorkedTwice(fs, own0, open0, fs1, own1, open1, State(), own, open, h);
        i := i + 1;
      }
    }

    /** A new inode, created, opened and worked on. */
    method CreateAndApply(length: nat, isdir: bool, calls: seq<Call>, block: word) returns (h: sector)
      requires Valid() && 1 + Sectors(AfterAll(length, calls)) <= Free()
      requires var n := AfterAll(length, calls); Sectors(n) <= MAX_SECTORS && n <= SECTOR_SIZE * |cache.disk|
      requires block != 0 && block !in tables && fm.isOpen
      modifies this, cache, fm`file, fm.bitmap.bits
      ensures Valid() && h != MAP && h !in old(data) && h in open && open[h].openCnt == 1
      ensures open == old(open)[h := open[h]] && h in data && data == old(data)[h := data[h]]
      ensures Files(State()) == Files(old(State()))[h := Content(State(), h)]
      ensures Gained(old(State()).used, State().used, own, h)
    {
      hide Core, Extends, Exact, AllHeaders, Content, Zeros, Sectors, Gained, Worked, Files, FileSys.Parts,
        FileSys.State, FileSys.Whole, FileSys.Free, FileSys.BlockOk;
      ghost var fs, own0, open0 := State(), own, open;
      AfterAtLeast(length, calls);
      SectorsMonotone(length, AfterAll(length, calls));
      NewOwners(fs, own0);
      MapLive();
      h := CreateOpen(length, isdir, block);
      ghost var fs2, own2, open2 := State(), own, open;
      ApplyAll(h, calls, block);
      GainedBy(fs, own0, open0, fs.(used := fs.used[h := true]), fs2, own2, open2, State(), own, open, h);
    }

    /** Creating an inode, growing and writing it any number of times, removing and closing it brings the
        free map back exactly to what it was, and leaves every file but that of the map and every open
        inode alone. */
    method CreateAndReclaim(length: nat, isdir: bool, calls: seq<Call>, block: word)
      requires Valid() && 1 + Sectors(AfterAll(length, calls)) <= Free()
      requires var n := AfterAll(length, calls); Sectors(n) <= MAX_SECTORS && n <= SECTOR_SIZE * |cache.disk|
      requires block != 0 && block !in tables && fm.isOpen
      modifies this, cache, fm`file, fm.bitmap.bits
      ensures Valid() && Whole().used == old(Whole()).used
      ensures Files(Whole()) == WithMap(Files(old(Whole()))) && open == old(open) && data == old(data)
    {
      hide Core, Exact, AllHeaders, Content, Sectors, Gained, Released, Files, FileSys.Parts, FileSys.State,
        FileSys.Whole, FileSys.Free;
      ghost var fs, w, file, open0 := State(), Whole(), fm.file, open;
      WholeIs();
      OpenLive();
      var h := CreateAndApply(length, isdir, calls, block);
      ghost var fs1, own1, open1 := State(), own, open;
      Remove(h);
      ghost var open2 := open;
      Close(h);
      GivenBack(fs, fs1, own1, State(), own, h);
      WholeChanged(w, fs, file, h, []);
      TakenOut(open0, h, open1[h], open2[h]);
    }

    lemma OpenLive()
      requires Valid()
      ensures forall h :: h in open ==> h in data
    {
    }

    lemma NotOpen(h: sector)
      requires Valid() && h !in own
      ensures h !in open
    {
      hide Core, Exact, AllHeaders;
      if h in data {
        CoreInode(State(), own, h);
      }
    }

    /** byte_to_sector for a position inside or at the end of the file's growth: the sector
        that holds byte POS - 1. */
    method ByteToSector(h: sector, pos: nat, block: word) returns (s: sector)
      requires Valid() && h in open && GrowOk(h, pos) && BlockOk(h, block) && NotMap(h)
      modifies this, cache, fm`file, fm.bitmap.bits
      ensures Valid() && Grew(old(State()), old(own), old(open), State(), own, open, h, pos)
      ensures Free() == old(Free()) - (Sectors(data[h].length) - Sectors(old(data)[h].length))
      ensures BlockOk(h, block) && DataOk(tables, data[h])
      ensures pos > 0 ==> 0 < Sectors(pos) <= Sectors(data[h].length) && s == Secs(tables, data[h])[Sectors(pos) - 1]
    {
      hide Core, Extends, Exact, AllHeaders, Content, Grew, Sectors, FileSys.GrowOk, FileSys.BlockOk, FileSys.Free,
        BufferCache.View, BufferCache.Inv, BitsOf;
      ghost var fs, own0, open0 := State(), own, open;
      GrowOpen(h, pos, block);
      GrewLength(fs, own0, open0, State(), own, open, h, pos);
      CoreInode(State(), own, h);
      SectorsBounds(pos);
      var d := open[h].data;
      var current, target := Sectors(d.length), Sectors(pos);
      SectorsMonotone(pos, d.length);
      if pos == 0 {
        s := d.start[0];
      } else if current <= DIRECT {
        s := d.start[target - 1];
      } else {
        s := tables[d.indirect][target - 1];
      }
    }

    /** inode_read_at: exactly the bytes of the file from OFFSET on, as far as it goes. */
    method ReadAt(h: sector, size: nat, offset: nat) returns (buffer: seq<byte>)
      requires Valid() && h in open
      modifies cache
      ensures Valid() && State() == old(State()) && Whole() == old(Whole()) && Free() == old(Free())
      ensures buffer == ReadFrom(Content(Whole(), h), offset, size)
      ensures NotMap(h) ==> Content(Whole(), h) == Content(State(), h)
    {
      hide Core, Exact, AllHeaders, Content, Readable, Sectors, DataOk, ReadChunkSize, ReadFrom, FileSys.Parts,
        FileSys.State, FileSys.Whole, FileSys.Free;
      ghost var fs, st := Whole(), State();
      WholeIs();
      CoreInode(fs, own, h);
      ghost var c := Content(fs, h);
      buffer := [];
      var left, pos := size, offset;
      while left > 0
        invariant Parts() && Whole() == fs && State() == st && Free() == old(Free())
        invariant 0 <= left && left + |buffer| == size && pos == offset + |buffer|
        invariant if pos <= |c| then buffer == c[offset..pos] else buffer == [] && pos == offset
        decreases left
      {
        var chunk := ReadOnce(h, pos, left);
        if chunk == [] {
          break;
        }
        Join(c, offset, pos, pos + |chunk|);
        buffer := buffer + chunk;
        left, pos := left - |chunk|, pos + |chunk|;
      }
      ReadDone(c, offset, size, pos, buffer);
    }

    /** One pass through the loop of inode_read_at: the next bytes of the file, none only at its end. */
    method ReadOnce(h: sector, pos: nat, left: nat) returns (chunk: seq<byte>)
      requires Parts() && Core(Whole(), own) && h in open && h in data && open[h].data == data[h] && left > 0
      modifies cache
      ensures Parts() && State() == old(State()) && Whole() == old(Whole()) && Free() == old(Free())
      ensures |chunk| <= left && (chunk == [] <==> pos >= |Content(Whole(), h)|)
      ensures chunk != [] ==> pos + |chunk| <= |Content(Whole(), h)| && chunk == Content(Whole(), h)[pos..pos + |chunk|]
    {
      hide Core, Content, Readable, Sectors, DataOk, ReadChunkSize, FileSys.State, FileSys.Free, BufferCache.View,
        BufferCache.Inv, BitsOf, BufferCache.Cached;
      ghost var fs := Whole();
      CoreInode(fs, own, h);
      var d := open[h].data;
      var chunkSize := ReadChunkSize(d.length, pos, left);
      if chunkSize <= 0 {
        return [];
      }
      SectorOf(pos, chunkSize);
      SectorsMonotone(pos + chunkSize, d.length);
      // byte_to_sector, whose inode_grow has nothing to do here
      var s := Table(tables, d)[Sectors(pos + chunkSize) - 1];
      chunk := GetSector(s, pos % SECTOR_SIZE, chunkSize);
      ReadChunk(fs, h, pos, chunkSize);
    }

    /** The start of a pass through the loop of inode_write_at: grows the file if the
        in-sector offset is not below its length. */
    method GrowForWrite(h: sector, size: nat, offset: nat, block: word, ghost total: nat)
      requires Valid() && h in open && size > 0 && NotMap(h)
      requires LengthBeforeChunk(data[h].length, size, offset) <= total && GrowOk(h, total) && BlockOk(h, block)
      modifies this, cache, fm`file, fm.bitmap.bits
      ensures Valid()
                && Grew(old(State()), old(own), old(open), State(), own, open, h,
                    LengthBeforeChunk(old(data)[h].length, size, offset))
      ensures Free() == old(Free()) - (Sectors(data[h].length) - Sectors(old(data)[h].length))
      ensures BlockOk(h, block) && GrowOk(h, total)
    {
      hide Core, Extends, Exact, AllHeaders, Content, Padded, Sectors, FileSys.Free;
      ghost var before := LengthBeforeChunk(data[h].length, size, offset);
      SectorsMonotone(before, total);
      var inodeLeft := open[h].data.length - offset % SECTOR_SIZE;
      if inodeLeft <= 0 {
        var growth := if size < SECTOR_SIZE then size else SECTOR_SIZE;
        GrowOpen(h, open[h].data.length + growth, block);
      } else {
        GrewNone(State(), own, open, h);
      }
    }

    /** The part of a pass that finds the sector and the size of the chunk; the file now
        reaches the end of the chunk. */
    method PrepareChunk(h: sector, size: nat, offset: nat, block: word) returns (s: sector, chunk: nat)
      requires Valid() && h in open && size > 0 && NotMap(h)
      requires GrowOk(h, Reach(data[h].length, size, offset)) && BlockOk(h, block)
      modifies this, cache, fm`file, fm.bitmap.bits
      ensures Valid()
                && Grew(old(State()), old(own), old(open), State(), own, open, h,
                    LengthAfterChunk(old(data)[h].length, size, offset))
      ensures Free() == old(Free()) - (Sectors(data[h].length) - Sectors(old(data)[h].length))
      ensures BlockOk(h, block)
      ensures chunk == ChunkOf(old(data)[h].length, size, offset) && DataOk(tables, data[h])
      ensures chunk > 0 ==> offset / SECTOR_SIZE < Sectors(data[h].length)
                            && s == Secs(tables, data[h])[offset / SECTOR_SIZE]
    {
      hide Core, Extends, Exact, AllHeaders, Content, Padded, DataOk, Sectors, Grew, LengthBeforeChunk, Reach,
        FileSys.GrowOk, FileSys.BlockOk, FileSys.Free, BufferCache.View, BufferCache.Inv, BitsOf, FileSys.Parts,
        FileSys.State, FileSys.Whole;
      ghost var fs, own0, open0, length0 := State(), own, open, data[h].length;
      ghost var before := LengthBeforeChunk(length0, size, offset);
      CoreInode(fs, own0, h);
      ReachCovers(length0, size, offset);
      GrowForWrite(h, size, offset, block, Reach(length0, size, offset));
      ghost var fs1, own1, open1 := State(), own, open;
      GrewLength(fs, own0, open0, fs1, own1, open1, h, before);
      chunk := WriteChunkSize(open[h].data.length, size, offset % SECTOR_SIZE);
      Smaller(h, offset + chunk, Reach(length0, size, offset));
      s := ByteToSector(h, offset + chunk, block);
      GrewTwice(fs, own0, open0, fs1, own1, open1, State(), own, open, h, before, offset + chunk);
      if chunk > 0 {
        SectorOf(offset, chunk);
      }
    }

    /** Room to grow is room to grow less. */
    lemma Smaller(h: sector, m: nat, n: nat)
      requires h in data && GrowOk(h, n) && m <= n
      ensures GrowOk(h, m)
    {
      SectorsMonotone(m, n);
    }

    /** Writes DATA at POS of inode H, inside one sector and below the length. */
    method PutChunk(h: sector, s: sector, bytes: seq<byte>, pos: nat)
      requires Valid() && h in data && DataOk(tables, data[h]) && NotMap(h)
      requires 0 < |bytes| <= SECTOR_SIZE - pos % SECTOR_SIZE && pos + |bytes| <= data[h].length
      requires pos / SECTOR_SIZE < Sectors(data[h].length) && s == Secs(tables, data[h])[pos / SECTOR_SIZE]
      modifies cache
      ensures Valid() && Free() == old(Free()) && |cache.disk| == old(|cache.disk|)
      ensures Files(State()) == Files(old(State()))[h := Written(Content(old(State()), h), pos, bytes)]
      ensures Extends(old(State()), own, State(), own, h)
    {
      hide Core, Extends, Exact, AllHeaders, Content, Written, DataOk, Sectors, Holds, Apart, Masked, BufferCache.View,
        BufferCache.Inv, BitsOf;
      ghost var fs := State();
      CoreInode(fs, own, h);
      NotMapSecs(h);
      PutSector(s, bytes, pos % SECTOR_SIZE);
      DataWriteKeeps(fs, own, h, pos, bytes);
    }

    /** One pass through the loop of inode_write_at: writes a chunk of BYTES at OFFSET, none
        exactly in the case Stuck describes. */
    method WriteOnce(h: sector, bytes: seq<byte>, offset: nat, block: word, ghost total: nat) returns (chunk: nat)
      requires Valid() && h in open && |bytes| > 0 && NotMap(h)
      requires Reach(data[h].length, |bytes|, offset) <= total && GrowOk(h, total) && BlockOk(h, block)
      modifies this, cache, fm`file, fm.bitmap.bits
      ensures Valid() && BlockOk(h, block) && h in data && GrowOk(h, total)
      ensures h in open && |cache.disk| == old(|cache.disk|)
      ensures chunk == ChunkOf(old(data)[h].length, |bytes|, offset)
      ensures Wrote(old(State()), old(own), old(open), State(), own, open, h, offset, bytes[..chunk])
      ensures data[h].length == LengthAfterChunk(old(data)[h].length, |bytes|, offset)
      ensures Free() == old(Free()) - (Sectors(data[h].length) - Sectors(old(data)[h].length))
    {
      hide Core, Extends, Exact, AllHeaders, Content, Padded, Written, DataOk, Sectors, Grew, LengthAfterChunk, Reach,
        FileSys.Parts, FileSys.State, FileSys.Whole;
      ghost var fs, own0, open0, length0 := State(), own, open, data[h].length;
      CoreInode(fs, own0, h);
      ReachCovers(length0, |bytes|, offset);
      SectorsMonotone(Reach(length0, |bytes|, offset), total);
      var s;
      s, chunk := PrepareChunk(h, |bytes|, offset, block);
      ghost var fs1, own1 := State(), own;
      GrewLength(fs, own0, open0, fs1, own1, open, h, LengthAfterChunk(length0, |bytes|, offset));
      if chunk == 0 {
        assert bytes[..chunk] == [];
        WroteNothing(fs, own0, open0, fs1, own1, open, h, LengthAfterChunk(length0, |bytes|, offset), offset);
        return;
      }
      PutChunk(h, s, bytes[..chunk], offset);
      WroteChunk(fs, own0, open0, fs1, own1, State(), own, open, h, LengthAfterChunk(length0, |bytes|, offset),
          offset, bytes[..chunk]);
    }

    /** inode_write_at: writes all of BUFFER at OFFSET, growing the file as far as needed,
        unless writing is denied or the write is Stuck, in which case it writes nothing but
        may still extend the file with zeros. */
    method WriteAt(h: sector, buffer: seq<byte>, offset: nat, block: word) returns (written: nat)
      requires Valid() && h in open && NotMap(h)
      requires open[h].denyWriteCnt == 0 ==> GrowOk(h, Reach(data[h].length, |buffer|, offset))
      requires BlockOk(h, block)
      modifies this, cache, fm`file, fm.bitmap.bits
      ensures Valid() && BlockOk(h, block)
      ensures written == 0 || written == |buffer|
      ensures written == |buffer| <==>
              |buffer| == 0 || (old(open)[h].denyWriteCnt == 0 && !Stuck(old(data)[h].length, |buffer|, offset))
      ensures |buffer| == 0 || old(open)[h].denyWriteCnt > 0 ==>
                State() == old(State()) && Whole() == old(Whole()) && own == old(own) && open == old(open)
      ensures |buffer| > 0 && old(open)[h].denyWriteCnt == 0 ==>
                && data == old(data)[h := data[h]] && data[h].isdir == old(data)[h].isdir
                && open == old(open)[h := old(open)[h].(data := data[h])]
                && Extends(old(State()), old(own), State(), own, h)
                && var c := Content(old(State()), h);
                   Files(State()) == Files(old(State()))
                     [h := if written > 0 then Written(c, offset, buffer) else Padded(c, offset)]
      ensures h in data && Free() == old(Free()) - (Sectors(data[h].length) - Sectors(old(data)[h].length))
      ensures old(open)[h].denyWriteCnt == 0 ==> data[h].length == Reach(old(data)[h].length, |buffer|, offset)
      ensures |buffer| > 0 && old(open)[h].denyWriteCnt == 0 ==>
                var c := Content(old(Whole()), h);
                Files(Whole()) == WithMap(Files(old(Whole()))
                  [h := if written > 0 then Written(c, offset, buffer) else Padded(c, offset)])
    {
      hide Core, Extends, Exact, AllHeaders, Content, Padded, Written, Sectors, Wrote, Stuck, FileSys.Parts,
        FileSys.State, FileSys.Whole;
      if open[h].denyWriteCnt > 0 || |buffer| == 0 {
        return 0;
      }
      ghost var fs, w, own0, open0, file := State(), Whole(), own, open, fm.file;
      WholeIs();
      CoreInode(fs, own0, h);
      written := WriteLoop(h, buffer, offset, block);
      WroteAll(fs, own0, open0, State(), own, open, h, offset, buffer[..written]);
      assert written == |buffer| ==> buffer[..written] == buffer;
      ghost var c := Content(fs, h);
      WholeChanged(w, fs, file, h, if written > 0 then Written(c, offset, buffer) else Padded(c, offset));
    }

    /** The loop of inode_write_at. */
    method WriteLoop(h: sector, buffer: seq<byte>, offset: nat, block: word) returns (written: nat)
      requires Valid() && h in open && |buffer| > 0 && NotMap(h)
      requires GrowOk(h, Reach(data[h].length, |buffer|, offset)) && BlockOk(h, block)
      modifies this, cache, fm`file, fm.bitmap.bits
      ensures Valid() && BlockOk(h, block)
      ensures written == if Stuck(old(data)[h].length, |buffer|, offset) then 0 else |buffer|
      ensures written == 0 ==> old(data)[h].length <= offset
      ensures Wrote(old(State()), old(own), old(open), State(), own, open, h, offset, buffer[..written])
      ensures data[h].length == Max(old(data)[h].length, offset + written)
      ensures Free() == old(Free()) - (Sectors(data[h].length) - Sectors(old(data)[h].length))
    {
      hide Core, Extends, Exact, AllHeaders, Content, Sectors, Wrote, ChunkOf, Stuck, Reach, Progress, FileSys.GrowOk,
        FileSys.BlockOk, FileSys.Free, BufferCache.View, BufferCache.Inv, BitsOf, FileSys.Parts, FileSys.State,
        FileSys.Whole;
      CoreInode(State(), own, h);
      written := 0;
      ghost var fs, own0, open0, length, free := State(), own, open, data[h].length, Free();
      ghost var total := Reach(data[h].length, |buffer|, offset);
      ProgressNone(fs, own0, open0, h, offset, buffer);
      while written < |buffer|
        invariant written <= |buffer| && Valid() && h in open && BlockOk(h, block) && GrowOk(h, total)
        invariant Progress(fs, own0, open0, State(), own, open, h, offset, buffer, written)
        invariant Free() == free - (Sectors(data[h].length) - Sectors(length))
        decreases |buffer| - written
      {
        ghost var fs1, own1, open1, length1 := State(), own, open, data[h].length;
        ProgressReach(fs, own0, open0, fs1, own1, open1, h, offset, buffer, written);
        var chunk := WriteOnce(h, buffer[written..], offset + written, block, total);
        ProgressMore(fs, own0, open0, fs1, own1, open1, State(), own, open, h, offset, buffer, written, chunk);
        if chunk == 0 {
          return;
        }
        written := written + chunk;
      }
      ProgressDone(fs, own0, open0, State(), own, open, h, offset, buffer);
    }

    /** Reads SIZE bytes of sector S through the cache, with read-ahead. */
    method GetSector(s: sector, offset: nat, size: nat) returns (bytes: seq<byte>)
      requires Parts() && s + 1 < |cache.disk| && offset + size <= SECTOR_SIZE
      modifies cache
      ensures Parts() && State() == old(State()) && Whole() == old(Whole()) && Free() == old(Free())
      ensures s < |Whole().view| && IsSector(Whole().view[s]) && bytes == Whole().view[s][offset..offset + size]
      ensures !old(BufferCache.Cached(cache.entries, s)) ==> BufferCache.Cached(cache.entries, s + 1)
    {
      hide Holds, HoldsTo, Apart, Masked, BufferCache.View, BufferCache.Inv, BitsOf, BufferCache.Cached;
      bytes := cache.Read(s, offset, size, true);
    }

    method SetOpen(h: sector, o: OpenInode)
      requires Parts()
      requires fm.isOpen && h == MAP ==> o.denyWriteCnt == 0 && o.data == data[MAP]
      modifies this`open
      ensures Parts() && State() == old(State()) && Whole() == old(Whole())
      ensures open == old(open)[h := o] && Free() == old(Free())
    {
      open := open[h := o];
    }
  }

  /** The table that inode_grow fills: direct, or indirect and if need be copied from direct. */
  function TableToFill(tables: Tables, d: InodeDisk, needed: nat): (t: seq<sector>)
    requires DataOk(tables, d) && Sectors(d.length) <= needed <= MAX_SECTORS
    ensures |t| == (if needed <= DIRECT then DIRECT else TABLE_SIZE)
    ensures t[..Sectors(d.length)] == Secs(tables, d)
  {
    if needed <= DIRECT then d.start
    else if d.indirect == 0 then d.start[..Sectors(d.length)] + seq(TABLE_SIZE - Sectors(d.length), _ => 0)
    else tables[d.indirect]
  }

  /** How much inode_read_at copies out of the sector at POS. */
  function ReadChunkSize(length: nat, pos: nat, size: nat): (n: int)
    requires size > 0
    ensures n <= 0 <==> pos >= length
    ensures n <= size && n <= SECTOR_SIZE - pos % SECTOR_SIZE && (n > 0 ==> pos + n <= length)
  {
    var sectorOfs := pos % SECTOR_SIZE;
    var inodeLeft := length - pos;
    var sectorLeft := SECTOR_SIZE - sectorOfs;
    var minLeft := if inodeLeft < sectorLeft then inodeLeft else sectorLeft;
    if size < minLeft then size else minLeft
  }

  /** A 32-bit signed quantity as C converts it to unsigned. */
  function Unsigned(x: int): nat
    requires -B32 < x
  {
    if x < 0 then x + B32 else x
  }

  /** How much inode_write_at writes into the sector: the in-sector offset is taken from the
      length, and the comparison is unsigned. */
  function WriteChunkSize(length: nat, size: nat, sectorOfs: nat): (n: nat)
    requires sectorOfs < SECTOR_SIZE
    ensures n <= size && n <= SECTOR_SIZE - sectorOfs
    ensures n == 0 <==> size == 0 || length == sectorOfs
    ensures length >= SECTOR_SIZE && size > 0 ==>
              n == if size < SECTOR_SIZE - sectorOfs then size else SECTOR_SIZE - sectorOfs
  {
    var inodeLeft := length - sectorOfs;
    var sectorLeft := SECTOR_SIZE - sectorOfs;
    var minLeft := if Unsigned(inodeLeft) < sectorLeft then Unsigned(inodeLeft) else sectorLeft;
    if size < minLeft then size else minLeft
  }

  /** POS is the start of a sector, or the end of a file of N bytes. */
  ghost predicate Aligned(pos: nat, n: nat) {
    pos <= n && (pos < n ==> pos % SECTOR_SIZE == 0)
  }

  /** A file written whole from its start is written sector by sector. */
  lemma MapChunk(n: nat, pos: nat)
    requires pos < n && pos % SECTOR_SIZE == 0
    ensures var chunk := WriteChunkSize(n, n - pos, pos % SECTOR_SIZE);
            0 < chunk <= SECTOR_SIZE && pos + chunk <= n && Aligned(pos + chunk, n)
  {
  }

  /** The one case in which inode_write_at gives up: growing a file of LENGTH bytes by SIZE
      lands exactly on the in-sector offset. */
  predicate Stuck(length: nat, size: nat, offset: nat) {
    length + size == offset % SECTOR_SIZE
  }

  /** The length of the file when inode_write_at computes its chunk. */
  function LengthBeforeChunk(length: nat, size: nat, offset: nat): (n: nat)
    requires size > 0
    ensures length <= n <= Max(length, offset + size)
    ensures n == offset % SECTOR_SIZE <==> Stuck(length, size, offset)
  {
    if length <= offset % SECTOR_SIZE then length + if size < SECTOR_SIZE then size else SECTOR_SIZE else length
  }

  /** How far a permitted write of SIZE bytes makes the file reach. */
  function Reach(length: nat, size: nat, offset: nat): (n: nat)
    ensures length <= n
    ensures size > 0 && !Stuck(length, size, offset) ==> n == Max(length, offset + size)
  {
    if size == 0 then length else Max(length, if Stuck(length, size, offset) then offset else offset + size)
  }

  /** A pass of inode_write_at grows the file no further than that. */
  lemma ReachCovers(length: nat, size: nat, offset: nat)
    requires size > 0
    ensures LengthBeforeChunk(length, size, offset) <= Reach(length, size, offset)
    ensures offset + ChunkOf(length, size, offset) <= Reach(length, size, offset)
    ensures LengthAfterChunk(length, size, offset) <= Reach(length, size, offset)
  {
  }

  /** Later passes do not reach further. */
  lemma ReachRest(length0: nat, length: nat, size: nat, offset: nat, written: nat)
    requires written < size && length0 <= length <= Reach(length0, size, offset)
    requires written == 0 ==> length == length0
    requires written > 0 ==> offset + written <= length && !Stuck(length0, size, offset)
    ensures Reach(length, size - written, offset + written) <= Reach(length0, size, offset)
    ensures written == 0 ==> Reach(length, size - written, offset + written) == Reach(length0, size, offset)
  {
  }

  /** The chunk that a pass of inode_write_at writes, and the length it leaves. */
  function ChunkOf(length: nat, size: nat, offset: nat): (n: nat)
    requires size > 0
    ensures n <= size && n <= SECTOR_SIZE - offset % SECTOR_SIZE
    ensures n == 0 <==> Stuck(length, size, offset)
  {
    WriteChunkSize(LengthBeforeChunk(length, size, offset), size, offset % SECTOR_SIZE)
  }

  function LengthAfterChunk(length: nat, size: nat, offset: nat): (n: nat)
    requires size > 0
    ensures Max(length, offset + ChunkOf(length, size, offset)) <= n <= Max(length, offset + size)
  {
    Max(LengthBeforeChunk(length, size, offset), offset + ChunkOf(length, size, offset))
  }

  /** A chunk that does not cross a sector boundary lies in the sector of its first byte. */
  lemma SectorOf(pos: nat, chunk: nat)
    requires 0 < chunk <= SECTOR_SIZE - pos % SECTOR_SIZE
    ensures Sectors(pos + chunk) - 1 == pos / SECTOR_SIZE
  {
  }

  /** Those bytes of the sector are those bytes of the file. */
  lemma ReadChunk(fs: Fs, h: sector, pos: nat, chunk: nat)
    requires Readable(fs, h) && 0 < chunk <= SECTOR_SIZE - pos % SECTOR_SIZE && pos + chunk <= fs.data[h].length
    ensures pos / SECTOR_SIZE < Sectors(fs.data[h].length)
    ensures var s := Secs(fs.tables, fs.data[h])[pos / SECTOR_SIZE];
            fs.view[s][pos % SECTOR_SIZE..pos % SECTOR_SIZE + chunk] == Content(fs, h)[pos..pos + chunk]
  {
    SectorsBounds(fs.data[h].length);
    var q, r := pos / SECTOR_SIZE, pos % SECTOR_SIZE;
    var secs := Secs(fs.tables, fs.data[h]);
    var a, b := fs.view[secs[q]][r..r + chunk], Content(fs, h)[pos..pos + chunk];
    forall k | 0 <= k < chunk ensures a[k] == b[k] {
      SameSector(pos, k);
      assert b[k] == Flat(fs.view, secs)[pos + k];
    }
  }

  lemma SameSector(pos: nat, k: nat)
    requires pos % SECTOR_SIZE + k < SECTOR_SIZE
    ensures (pos + k) / SECTOR_SIZE == pos / SECTOR_SIZE && (pos + k) % SECTOR_SIZE == pos % SECTOR_SIZE + k
  {
  }

  lemma ReadDone(c: seq<byte>, offset: nat, size: nat, pos: nat, buffer: seq<byte>)
    requires offset <= pos <= offset + size && (pos == offset + size || pos >= |c|)
    requires if pos <= |c| then buffer == c[offset..pos] else buffer == [] && pos == offset
    ensures buffer == ReadFrom(c, offset, size)
  {
  }

  lemma Join(c: seq<byte>, a: nat, b: nat, e: nat)
    requires a <= b <= e <= |c|
    ensures c[a..b] + c[b..e] == c[a..e]
  {
  }

  function Max(a: nat, b: nat): nat {
    if a < b then b else a
  }

  lemma AppendAt(t: seq<sector>, i: nat, s: sector)
    requires i < |t|
    ensures t[i := s][..i + 1] == t[..i] + [s]
  {
  }

  /** FS' and OWN' differ from FS and OWN by the sectors MORE, which were free, now belong
      to inode H from slot FROM on, and hold zeros. */
  ghost predicate Taken(fs: Fs, own: Owners, fs': Fs, own': Owners, h: sector, from: nat, more: seq<sector>) {
    && fs'.tables == fs.tables && fs'.data == fs.data
    && |fs'.view| == |fs.view| && |fs'.used| == |fs.used| == |fs.view|
    && SecsOwned(own', h, more, from)
    && (forall i :: 0 <= i < |more| ==> more[i] + 1 < |fs.view| && !fs.used[more[i]] && fs'.view[more[i]] == Blank())
    && (forall s :: s in own ==> s < |fs.view| && s in own' && own'[s] == own[s] && fs'.view[s] == fs.view[s])
    && (forall s :: s in own' ==> s in own || s in more)
    && (forall s: sector :: s < |fs.used| ==> fs'.used[s] == (fs.used[s] || s in more))
  }

  lemma TakenNone(fs: Fs, own: Owners, h: sector, from: nat)
    requires Core(fs, own)
    ensures Taken(fs, own, fs, own, h, from, [])
  {
  }

  lemma TakenMore(fs: Fs, own: Owners, fs1: Fs, own1: Owners, fs2: Fs, own2: Owners,
                  h: sector, from: nat, more: seq<sector>, s: sector)
    requires Taken(fs, own, fs1, own1, h, from, more)
    requires s !in own1 && s + 1 < |fs1.view| == |fs1.used| && !fs1.used[s]
    requires fs2 == fs1.(view := fs1.view[s := Blank()], used := fs1.used[s := true])
    requires own2 == own1[s := Use(h, from + |more|)]
    ensures Taken(fs, own, fs2, own2, h, from, more + [s])
  {
  }

  /** Inode H and nobody else gained sectors, which were free. */
  ghost predicate Extends(fs: Fs, own: Owners, fs': Fs, own': Owners, h: sector) {
    && |fs'.view| == |fs.view| && |fs'.used| == |fs.used| == |fs.view|
    && (forall s :: s in own ==> s in own' && own'[s] == own[s])
    && (forall s :: s in own' && s !in own ==> own'[s].inode == h && s < |fs.used| && !fs.used[s])
    && (forall s: sector :: s < |fs.used| ==> fs'.used[s] == (fs.used[s] || (s in own' && s !in own)))
    && (forall s :: s in own && own[s].inode != h ==> s < |fs.view| && fs'.view[s] == fs.view[s])
  }

  /** FS is the state before inode H grows by the sectors MORE, FS1 after they have been
      taken, FS2 after table and length have been updated. */
  ghost predicate Growing(fs: Fs, own: Owners, fs1: Fs, own1: Owners, fs2: Fs, h: sector, more: seq<sector>) {
    && Core(fs, own) && h in fs.data && DataOk(fs.tables, fs.data[h])
    && Taken(fs, own, fs1, own1, h, Sectors(fs.data[h].length), more)
    && h in fs2.data && fs2 == fs1.(tables := fs2.tables, data := fs1.data[h := fs2.data[h]])
    && DataOk(fs2.tables, fs2.data[h]) && fs2.data[h].length >= fs.data[h].length
    && Secs(fs2.tables, fs2.data[h]) == Secs(fs.tables, fs.data[h]) + more
    && TableFresh(fs, fs2, h)
    && forall p :: p in fs.tables && p != fs2.data[h].indirect ==> p in fs2.tables && fs2.tables[p] == fs.tables[p]
  }

  lemma GrowFramed(fs: Fs, own: Owners, fs1: Fs, own1: Owners, fs2: Fs, h: sector, more: seq<sector>)
    requires Growing(fs, own, fs1, own1, fs2, h, more)
    ensures Framed(fs, own, fs2, h)
  {
    forall g | g in fs.data && g != h && fs.data[g].indirect != 0 && fs.data[g].indirect in fs.tables
      ensures fs.data[g].indirect in fs2.tables && fs2.tables[fs.data[g].indirect] == fs.tables[fs.data[g].indirect]
    {
      assert TablesDistinct(fs.data);
    }
  }

  lemma GrowInode(fs: Fs, own: Owners, fs1: Fs, own1: Owners, fs2: Fs, h: sector, more: seq<sector>)
    requires Growing(fs, own, fs1, own1, fs2, h, more) && Core(fs1, own1)
    ensures InodeOk(fs2, own1, h)
    ensures Content(fs2, h) == Padded(Content(fs, h), fs2.data[h].length)
  {
    hide Flat, Padded, ZeroFrom, Sectors, Growing, Core;
    GrowFlat(fs, own, fs1, own1, fs2, h, more);
    SectorsBounds(fs.data[h].length);
    SectorsBounds(fs2.data[h].length);
    var secs := Secs(fs.tables, fs.data[h]);
    PaddedPrefix(Flat(fs.view, secs), fs.data[h].length, SECTOR_SIZE * |more|, fs2.data[h].length);
  }

  /** The sectors of an inode that has grown, and what they hold. */
  lemma GrowFlat(fs: Fs, own: Owners, fs1: Fs, own1: Owners, fs2: Fs, h: sector, more: seq<sector>)
    requires Growing(fs, own, fs1, own1, fs2, h, more) && Core(fs1, own1)
    ensures h in fs.data && h in fs2.data && DataOk(fs.tables, fs.data[h]) && DataOk(fs2.tables, fs2.data[h])
    ensures Readable(fs, h) && Readable(fs2, h) && fs2.data[h].length >= fs.data[h].length
    ensures h in own1 && own1[h] == Use(h, -1) && forall s :: s in own1 ==> s < |fs2.view|
    ensures var secs, secs' := Secs(fs.tables, fs.data[h]), Secs(fs2.tables, fs2.data[h]);
            && secs' == secs + more && SecsOwned(own1, h, secs', 0) && ZeroFrom(Flat(fs.view, secs), fs.data[h].length)
            && Flat(fs2.view, secs') == Flat(fs.view, secs) + Zeros(SECTOR_SIZE * |more|)
  {
    hide Flat, ZeroFrom, Sectors;
    assert InodeOk(fs, own, h);
    var secs := Secs(fs.tables, fs.data[h]);
    FlatFrame(fs.view, fs2.view, secs);
    FlatAppend(fs2.view, secs, more);
    assert SecsOwned(own1, h, secs + more, 0);
  }

  lemma PaddedPrefix(f: seq<byte>, n: nat, zeros: nat, m: nat)
    requires n <= |f| && ZeroFrom(f, n) && n <= m <= |f| + zeros
    ensures ZeroFrom(f + Zeros(zeros), m)
    ensures (f + Zeros(zeros))[..m] == Padded(f[..n], m)
  {
  }

  lemma GrowCommit(fs: Fs, own: Owners, fs1: Fs, own1: Owners, fs2: Fs, h: sector, more: seq<sector>)
    requires Growing(fs, own, fs1, own1, fs2, h, more) && Core(fs1, own1)
    ensures StepOn(fs, own, fs2, own1, h)
    ensures Content(fs2, h) == Padded(Content(fs, h), fs2.data[h].length)
  {
    GrowFramed(fs, own, fs1, own1, fs2, h, more);
    GrowInode(fs, own, fs1, own1, fs2, h, more);
  }

  lemma GrowExtends(fs: Fs, own: Owners, fs1: Fs, own1: Owners, fs2: Fs, h: sector, more: seq<sector>)
    requires Growing(fs, own, fs1, own1, fs2, h, more)
    ensures Extends(fs, own, fs2, own1, h)
  {
  }

  lemma GrowExact(fs: Fs, own: Owners, fs1: Fs, own1: Owners, fs2: Fs, h: sector, more: seq<sector>)
    requires Growing(fs, own, fs1, own1, fs2, h, more) && Exact(fs, own) && Framed(fs, own, fs2, h)
    ensures Exact(fs2, own1)
  {
    hide Growing, Framed, OwnedExactly;
    GrowingFacts(fs, own, fs1, own1, fs2, h, more);
    forall s | s in own1 ensures OwnedExactly(fs2, own1, s) {
      if s in own {
        ExactOld(fs, own, fs1, own1, fs2, h, more, s);
      } else {
        ExactNew(fs, own, fs1, own1, fs2, h, more, s);
      }
    }
  }

  lemma GrowingFacts(fs: Fs, own: Owners, fs1: Fs, own1: Owners, fs2: Fs, h: sector, more: seq<sector>)
    requires Growing(fs, own, fs1, own1, fs2, h, more)
    ensures forall s :: s in own1 ==> s in own || s in more
  {
  }

  lemma ExactOld(fs: Fs, own: Owners, fs1: Fs, own1: Owners, fs2: Fs, h: sector, more: seq<sector>, s: sector)
    requires Growing(fs, own, fs1, own1, fs2, h, more) && Framed(fs, own, fs2, h) && s in own
               && OwnedExactly(fs, own, s)
    ensures s in own1 && OwnedExactly(fs2, own1, s)
  {
    hide Core, Sectors;
    var secs, secs' := Secs(fs.tables, fs.data[h]), Secs(fs2.tables, fs2.data[h]);
    if own[s].inode == h && own[s].slot >= 0 {
      assert secs'[own[s].slot] == secs[own[s].slot];
    }
  }

  lemma ExactNew(fs: Fs, own: Owners, fs1: Fs, own1: Owners, fs2: Fs, h: sector, more: seq<sector>, s: sector)
    requires Growing(fs, own, fs1, own1, fs2, h, more) && s in own1 && s !in own
    ensures OwnedExactly(fs2, own1, s)
  {
    hide Core, Sectors;
    var secs, secs' := Secs(fs.tables, fs.data[h]), Secs(fs2.tables, fs2.data[h]);
    var i :| 0 <= i < |more| && more[i] == s;
    assert secs'[|secs| + i] == s;
  }

  lemma ExactView(fs: Fs, own: Owners, fs': Fs)
    requires fs'.data == fs.data && fs'.tables == fs.tables
    ensures Exact(fs, own) ==> Exact(fs', own)
  {
    if Exact(fs, own) {
      forall s | s in own ensures OwnedExactly(fs', own, s) {
        assert OwnedExactly(fs, own, s);
      }
    }
  }

  /** Memory for the table of inode H is not the table of the map file. */
  lemma MapTable(fs: Fs, own: Owners, h: sector, p: word)
    requires Core(fs, own) && h in fs.data && (p == fs.data[h].indirect || p !in fs.tables) && p != 0
    ensures MAP in fs.data && h != MAP && fs.data[MAP].indirect != 0 ==>
              p != fs.data[MAP].indirect && fs.data[MAP].indirect in fs.tables
  {
    if MAP in fs.data {
      assert InodeOk(fs, own, MAP);
    }
  }

  /** The header and tables after inode H was given the table T at address P. */
  ghost predicate Installed(fs1: Fs, fs2: Fs, h: sector, p: word, t: seq<sector>)
    requires h in fs1.data
  {
    && h in fs2.data
    && var d, d' := fs1.data[h], fs2.data[h];
       && fs2 == fs1.(tables := fs2.tables, data := fs1.data[h := d'])
       && d'.length > d.length && Sectors(d'.length) <= MAX_SECTORS
       && if Sectors(d'.length) <= DIRECT
          then d' == d.(length := d'.length, start := t) && fs2.tables == fs1.tables && |t| == DIRECT
          else d' == d.(length := d'.length, indirect := p) && fs2.tables == fs1.tables[p := t] && |t| == TABLE_SIZE
  }

  lemma InstalledGrowing(fs: Fs, own: Owners, fs1: Fs, own1: Owners, fs2: Fs, h: sector, p: word, t: seq<sector>,
                         more: seq<sector>)
    requires Core(fs, own) && h in fs.data && DataOk(fs.tables, fs.data[h])
    requires Taken(fs, own, fs1, own1, h, Sectors(fs.data[h].length), more)
    requires Installed(fs1, fs2, h, p, t)
    requires p != 0 && (p == fs.data[h].indirect || (fs.data[h].indirect == 0 && p !in fs.tables))
    requires Sectors(fs2.data[h].length) <= |t|
             && t[..Sectors(fs2.data[h].length)] == Secs(fs.tables, fs.data[h]) + more
    ensures Growing(fs, own, fs1, own1, fs2, h, more)
  {
    SectorsMonotone(fs.data[h].length, fs2.data[h].length);
  }

  lemma GrowResult(fs: Fs, own: Owners, fs1: Fs, own1: Owners, fs2: Fs, h: sector, p: word, t: seq<sector>,
                   more: seq<sector>)
    requires Core(fs, own) && h in fs.data && DataOk(fs.tables, fs.data[h]) && Core(fs1, own1)
    requires Taken(fs, own, fs1, own1, h, Sectors(fs.data[h].length), more)
    requires Installed(fs1, fs2, h, p, t)
    requires p != 0 && (p == fs.data[h].indirect || (fs.data[h].indirect == 0 && p !in fs.tables))
    requires Sectors(fs2.data[h].length) <= |t|
             && t[..Sectors(fs2.data[h].length)] == Secs(fs.tables, fs.data[h]) + more
    ensures Core(fs2, own1) && Extends(fs, own, fs2, own1, h) && (Exact(fs, own) ==> Exact(fs2, own1))
    ensures Files(fs2) == Files(fs)[h := Padded(Content(fs, h), fs2.data[h].length)]
  {
    InstalledGrowing(fs, own, fs1, own1, fs2, h, p, t, more);
    GrowCommit(fs, own, fs1, own1, fs2, h, more);
    GrowExtends(fs, own, fs1, own1, fs2, h, more);
    if Exact(fs, own) {
      GrowExact(fs, own, fs1, own1, fs2, h, more);
    }
    FrameFiles(fs, own, fs2, own1, h);
  }

  ghost predicate InUse(fs: Fs, s: sector) {
    s < |fs.used| && fs.used[s]
  }

  /** What Core says of one inode. */
  lemma CoreInode(fs: Fs, own: Owners, h: sector)
    requires Core(fs, own) && h in fs.data
    ensures DataOk(fs.tables, fs.data[h]) && h in own && own[h] == Use(h, -1) && h + 1 < |fs.view|
    ensures Readable(fs, h) && SecsOwned(own, h, Secs(fs.tables, fs.data[h]), 0)
    ensures forall i :: 0 <= i < Sectors(fs.data[h].length) ==> Secs(fs.tables, fs.data[h])[i] + 1 < |fs.view|
    ensures |Content(fs, h)| == fs.data[h].length
  {
    assert InodeOk(fs, own, h);
  }

  lemma CoreUsed(fs: Fs, own: Owners, h: sector)
    requires Core(fs, own) && h in fs.data && DataOk(fs.tables, fs.data[h])
    ensures InUse(fs, h) && forall i :: 0 <= i < Sectors(fs.data[h].length) ==>
              InUse(fs, Secs(fs.tables, fs.data[h])[i])
  {
    assert InodeOk(fs, own, h);
  }

  lemma TakenState(fs: Fs, own: Owners, fs1: Fs, own1: Owners, h: sector, from: nat, more: seq<sector>)
    requires Taken(fs, own, fs1, own1, h, from, more)
    ensures fs1.tables == fs.tables && fs1.data == fs.data
  {
  }

  lemma SameExtends(fs: Fs, own: Owners, h: sector, length: nat)
    requires Core(fs, own) && h in fs.data && length <= |Content(fs, h)|
    ensures Extends(fs, own, fs, own, h)
    ensures Files(fs) == Files(fs)[h := Padded(Content(fs, h), length)]
  {
  }

  lemma ExtendsHeader(fs: Fs, own: Owners, fs1: Fs, own1: Owners, h: sector, bytes: seq<byte>)
    requires Core(fs1, own1) && h in fs1.data && h < |fs1.view| && Extends(fs, own, fs1, own1, h)
    ensures Extends(fs, own, fs1.(view := fs1.view[h := bytes]), own1, h)
  {
    assert InodeOk(fs1, own1, h);
  }

  /** Header sectors are not file content. */
  lemma WriteHeader(fs: Fs, own: Owners, h: sector, bytes: seq<byte>)
    requires Core(fs, own) && h in fs.data && h < |fs.view| && IsSector(bytes)
    ensures var fs' := fs.(view := fs.view[h := bytes]); Core(fs', own) && Files(fs') == Files(fs)
  {
    var fs' := fs.(view := fs.view[h := bytes]);
    forall g | g in fs.data
      ensures InodeOk(fs', own, g)
      ensures Content(fs', g) == Content(fs, g)
    {
      assert InodeOk(fs, own, h) && InodeOk(fs, own, g);
      FlatFrame(fs.view, fs'.view, Secs(fs.tables, fs.data[g]));
    }
    SameFiles(fs, fs');
  }

  lemma SameFiles(fs: Fs, fs': Fs)
    requires fs'.data.Keys == fs.data.Keys && forall g :: g in fs.data ==> Content(fs', g) == Content(fs, g)
    ensures Files(fs') == Files(fs)
  {
  }

  /** Growing inode H leaves the headers of all others alone. */
  lemma GrownHeaders(fs: Fs, own: Owners, fs': Fs, own': Owners, h: sector)
    requires Core(fs, own) && h in fs.data && Extends(fs, own, fs', own', h) && AllHeaders(fs, {h})
    requires h in fs'.data && fs'.data == fs.data[h := fs'.data[h]]
    ensures AllHeaders(fs', {h})
  {
    forall g | g in fs'.data && g != h ensures HeaderAt(fs', g) {
      assert HeaderAt(fs, g) && InodeOk(fs, own, g);
    }
  }

  lemma HeadersBut(fs: Fs, h: sector)
    ensures AllHeaders(fs, {}) ==> AllHeaders(fs, {h})
    ensures AllHeaders(fs, {h}) && HeaderAt(fs, h) ==> AllHeaders(fs, {})
    ensures AllHeaders(fs, {}) && h in fs.data ==> HeaderAt(fs, h)
  {
  }

  /** Writing inside a data sector of inode H, below its length. */
  lemma DataWriteInode(fs: Fs, own: Owners, h: sector, pos: nat, data: seq<byte>)
    requires Core(fs, own) && h in fs.data && DataOk(fs.tables, fs.data[h])
    requires 0 < |data| <= SECTOR_SIZE - pos % SECTOR_SIZE && pos + |data| <= fs.data[h].length
    requires pos / SECTOR_SIZE < Sectors(fs.data[h].length)
    ensures var s := Secs(fs.tables, fs.data[h])[pos / SECTOR_SIZE];
            && s < |fs.view| && IsSector(fs.view[s])
            && var fs' := fs.(view := fs.view[s := Patch(fs.view[s], pos % SECTOR_SIZE, data)]);
               && WellFormed(fs'.view) && InodeOk(fs', own, h)
               && Content(fs', h) == Written(Content(fs, h), pos, data)
  {
    hide Flat, Sectors, Written, ZeroFrom;
    assert InodeOk(fs, own, h);
    CoreInode(fs, own, h);
    var secs, q, r, n := Secs(fs.tables, fs.data[h]), pos / SECTOR_SIZE, pos % SECTOR_SIZE, fs.data[h].length;
    var s := secs[q];
    var fs' := fs.(view := fs.view[s := Patch(fs.view[s], r, data)]);
    FlatPatch(fs.view, secs, q, r, data);
    var f := Flat(fs.view, secs);
    SectorsBounds(n);
    assert SECTOR_SIZE * q + r == pos;
    PatchWritten(f, n, pos, data);
    assert Readable(fs', h);
  }

  lemma PatchWritten(f: seq<byte>, n: nat, pos: nat, data: seq<byte>)
    requires n <= |f| && ZeroFrom(f, n) && pos + |data| <= n
    ensures ZeroFrom(Patch(f, pos, data), n)
    ensures Patch(f, pos, data)[..n] == Written(f[..n], pos, data)
  {
  }

  lemma DataWrite(fs: Fs, own: Owners, h: sector, pos: nat, data: seq<byte>)
    requires Core(fs, own) && h in fs.data && DataOk(fs.tables, fs.data[h])
    requires 0 < |data| <= SECTOR_SIZE - pos % SECTOR_SIZE && pos + |data| <= fs.data[h].length
    requires pos / SECTOR_SIZE < Sectors(fs.data[h].length)
    ensures var s := Secs(fs.tables, fs.data[h])[pos / SECTOR_SIZE];
            && s < |fs.view| && IsSector(fs.view[s])
            && var fs' := fs.(view := fs.view[s := Patch(fs.view[s], pos % SECTOR_SIZE, data)]);
               StepOn(fs, own, fs', own, h) && Content(fs', h) == Written(Content(fs, h), pos, data)
  {
    hide InodeOk, Content, Written, Sectors;
    DataWriteInode(fs, own, h, pos, data);
    CoreInode(fs, own, h);
    var s := Secs(fs.tables, fs.data[h])[pos / SECTOR_SIZE];
    var fs' := fs.(view := fs.view[s := Patch(fs.view[s], pos % SECTOR_SIZE, data)]);
    assert Framed(fs, own, fs', h);
  }

  /** From FS, OWN, OPEN to FS', OWN', OPEN' open inode H has grown to LENGTH bytes if it
      was shorter, by zeros, and nothing else has changed. */
  ghost predicate Grew(fs: Fs, own: Owners, open: map<sector, OpenInode>,
                       fs': Fs, own': Owners, open': map<sector, OpenInode>, h: sector, length: nat) {
    && h in fs.data && h in fs'.data && fs'.data == fs.data[h := fs'.data[h]]
    && h in open && open' == open[h := open[h].(data := fs'.data[h])]
    && fs'.data[h].length == Max(fs.data[h].length, length) && fs'.data[h].isdir == fs.data[h].isdir
    && Files(fs') == Files(fs)[h := Padded(Content(fs, h), length)]
    && Extends(fs, own, fs', own', h)
  }

  lemma GrewNone(fs: Fs, own: Owners, open: map<sector, OpenInode>, h: sector)
    requires Core(fs, own) && h in fs.data && h in open && open[h].data == fs.data[h]
    ensures Grew(fs, own, open, fs, own, open, h, fs.data[h].length)
  {
    CoreInode(fs, own, h);
    SameExtends(fs, own, h, fs.data[h].length);
  }

  lemma GrewLength(fs: Fs, own: Owners, open: map<sector, OpenInode>,
                   fs': Fs, own': Owners, open': map<sector, OpenInode>, h: sector, length: nat)
    requires Grew(fs, own, open, fs', own', open', h, length)
    ensures h in fs.data && h in fs'.data && h in open'
    ensures fs'.data[h].length == Max(fs.data[h].length, length) && |fs'.view| == |fs.view|
  {
  }

  lemma ExtendsSize(fs: Fs, own: Owners, fs': Fs, own': Owners, h: sector)
    requires Extends(fs, own, fs', own', h)
    ensures |fs'.view| == |fs.view|
  {
  }

  lemma ExtendsTwice(fs: Fs, own: Owners, fs1: Fs, own1: Owners, fs2: Fs, own2: Owners, h: sector)
    requires Extends(fs, own, fs1, own1, h) && Extends(fs1, own1, fs2, own2, h)
    ensures Extends(fs, own, fs2, own2, h)
  {
  }

  lemma GrewTwice(fs: Fs, own: Owners, open: map<sector, OpenInode>,
                  fs1: Fs, own1: Owners, open1: map<sector, OpenInode>,
                  fs2: Fs, own2: Owners, open2: map<sector, OpenInode>, h: sector, a: nat, b: nat)
    requires Grew(fs, own, open, fs1, own1, open1, h, a) && Grew(fs1, own1, open1, fs2, own2, open2, h, b)
    requires |Content(fs, h)| == fs.data[h].length
    ensures Grew(fs, own, open, fs2, own2, open2, h, Max(a, b))
  {
    hide Extends, Content;
    ExtendsTwice(fs, own, fs1, own1, fs2, own2, h);
    var c := Content(fs, h);
    assert Files(fs1)[h] == Padded(c, a);
    assert Padded(Padded(c, a), b) == Padded(c, Max(a, b));
    assert Files(fs2) == Files(fs)[h := Padded(c, a)][h := Padded(Padded(c, a), b)];
  }

  lemma DataWriteKeeps(fs: Fs, own: Owners, h: sector, pos: nat, data: seq<byte>)
    requires Core(fs, own) && h in fs.data && DataOk(fs.tables, fs.data[h])
    requires Exact(fs, own) && AllHeaders(fs, {})
    requires 0 < |data| <= SECTOR_SIZE - pos % SECTOR_SIZE && pos + |data| <= fs.data[h].length
    requires pos / SECTOR_SIZE < Sectors(fs.data[h].length)
    ensures var s := Secs(fs.tables, fs.data[h])[pos / SECTOR_SIZE];
            && s < |fs.view| && IsSector(fs.view[s])
            && var fs' := fs.(view := fs.view[s := Patch(fs.view[s], pos % SECTOR_SIZE, data)]);
               && Core(fs', own) && Exact(fs', own) && AllHeaders(fs', {}) && Extends(fs, own, fs', own, h)
               && Files(fs') == Files(fs)[h := Written(Content(fs, h), pos, data)]
  {
    DataWrite(fs, own, h, pos, data);
    CoreInode(fs, own, h);
    var s := Secs(fs.tables, fs.data[h])[pos / SECTOR_SIZE];
    var fs' := fs.(view := fs.view[s := Patch(fs.view[s], pos % SECTOR_SIZE, data)]);
    FrameFiles(fs, own, fs', own, h);
    ExactView(fs, own, fs');
    ViewElsewhere(fs, own, h, pos / SECTOR_SIZE, fs'.view[s]);
  }

  /** A data sector is no header and belongs to one inode. */
  lemma ViewElsewhere(fs: Fs, own: Owners, h: sector, i: nat, bytes: seq<byte>)
    requires Core(fs, own) && h in fs.data && DataOk(fs.tables, fs.data[h]) && AllHeaders(fs, {})
    requires i < Sectors(fs.data[h].length)
    ensures var s := Secs(fs.tables, fs.data[h])[i];
            s < |fs.view| && var fs' := fs.(view := fs.view[s := bytes]);
            AllHeaders(fs', {}) && Extends(fs, own, fs', own, h)
  {
    CoreInode(fs, own, h);
    var s := Secs(fs.tables, fs.data[h])[i];
    var fs' := fs.(view := fs.view[s := bytes]);
    forall g | g in fs'.data ensures HeaderAt(fs', g) {
      assert HeaderAt(fs, g);
      CoreInode(fs, own, g);
    }
  }

  /** From FS, OWN, OPEN to FS', OWN', OPEN' the bytes DATA have been written at OFFSET of open
      inode H, which may have grown by zeros, and nothing else has changed. */
  ghost predicate Wrote(fs: Fs, own: Owners, open: map<sector, OpenInode>,
                        fs': Fs, own': Owners, open': map<sector, OpenInode>,
                        h: sector, offset: nat, data: seq<byte>) {
    && h in fs.data && h in fs'.data && fs'.data == fs.data[h := fs'.data[h]]
    && h in open && open' == open[h := open[h].(data := fs'.data[h])]
    && fs'.data[h].isdir == fs.data[h].isdir
    && Files(fs') == Files(fs)[h := Written(Padded(Content(fs, h), fs'.data[h].length), offset, data)]
    && Extends(fs, own, fs', own', h)
  }

  lemma WroteNothing(fs: Fs, own: Owners, open: map<sector, OpenInode>,
                     fs1: Fs, own1: Owners, open1: map<sector, OpenInode>, h: sector, length: nat, offset: nat)
    requires Grew(fs, own, open, fs1, own1, open1, h, length)
    requires |Content(fs, h)| == fs.data[h].length && fs.data[h].length <= length && offset <= length
    ensures Wrote(fs, own, open, fs1, own1, open1, h, offset, [])
  {
    hide Extends, Content;
    var c := Padded(Content(fs, h), length);
    assert Written(c, offset, []) == c;
  }

  lemma WroteChunk(fs: Fs, own: Owners, open: map<sector, OpenInode>, fs1: Fs, own1: Owners,
                   fs2: Fs, own2: Owners, open1: map<sector, OpenInode>,
                   h: sector, length: nat, offset: nat, data: seq<byte>)
    requires Grew(fs, own, open, fs1, own1, open1, h, length)
    requires Extends(fs1, own1, fs2, own2, h) && fs2.data == fs1.data
    requires h in fs1.data && Files(fs2) == Files(fs1)[h := Written(Content(fs1, h), offset, data)]
    requires fs.data[h].length <= length
    ensures Wrote(fs, own, open, fs2, own2, open1, h, offset, data)
  {
    hide Extends, Content, Padded, Written;
    ExtendsTwice(fs, own, fs1, own1, fs2, own2, h);
    assert Content(fs1, h) == Files(fs1)[h] == Padded(Content(fs, h), length);
  }

  /** A call on an open inode: inode_grow or inode_write_at. */
  datatype Call = Grow(length: nat) | Write(bytes: seq<byte>, offset: nat)

  /** The length of an inode of LENGTH bytes after a call. */
  function After(length: nat, call: Call): (n: nat)
    ensures length <= n
  {
    match call
    case Grow(m) => Max(length, m)
    case Write(bytes, offset) => Reach(length, |bytes|, offset)
  }

  function AfterAll(length: nat, calls: seq<Call>): nat {
    if calls == [] then length else After(AfterAll(length, calls[..|calls| - 1]), calls[|calls| - 1])
  }

  lemma {:induction false} AfterAtLeast(length: nat, calls: seq<Call>)
    ensures length <= AfterAll(length, calls)
  {
    if calls != [] {
      AfterAtLeast(length, calls[..|calls| - 1]);
    }
  }

  lemma {:induction false} AfterNext(length: nat, calls: seq<Call>, i: nat)
    requires i < |calls|
    ensures AfterAll(length, calls[..i + 1]) == After(AfterAll(length, calls[..i]), calls[i])
    ensures AfterAll(length, calls[..i + 1]) <= AfterAll(length, calls)
    decreases |calls|
  {
    assert calls[..i + 1][..i] == calls[..i];
    if i + 1 < |calls| {
      var most := calls[..|calls| - 1];
      AfterNext(length, most, i);
      assert most[..i + 1] == calls[..i + 1];
    } else {
      assert calls[..i + 1] == calls;
    }
  }

  /** From FS, OWN, OPEN to FS', OWN', OPEN' the content and the sectors of open inode H may have changed,
      and nothing else has. */
  ghost predicate Worked(fs: Fs, own: Owners, open: map<sector, OpenInode>,
                         fs': Fs, own': Owners, open': map<sector, OpenInode>, h: sector) {
    && h in fs.data && h in fs'.data && fs'.data == fs.data[h := fs'.data[h]]
    && h in open && open' == open[h := open[h].(data := fs'.data[h])]
    && Files(fs') == Files(fs)[h := Content(fs', h)]
    && Extends(fs, own, fs', own', h)
  }

  lemma WorkedNone(fs: Fs, own: Owners, open: map<sector, OpenInode>, h: sector)
    requires Core(fs, own) && h in fs.data && h in open && open[h].data == fs.data[h]
    ensures Worked(fs, own, open, fs, own, open, h)
  {
    hide Content;
    SelfExtends(fs, own, h);
    FileOf(fs, h);
  }

  lemma WorkedOpen(fs: Fs, own: Owners, open: map<sector, OpenInode>,
                   fs': Fs, own': Owners, open': map<sector, OpenInode>, h: sector)
    requires Worked(fs, own, open, fs', own', open', h)
    ensures h in open && h in open' && open'[h].denyWriteCnt == open[h].denyWriteCnt && |fs'.view| == |fs.view|
  {
  }

  lemma WorkedTwice(fs: Fs, own: Owners, open: map<sector, OpenInode>,
                    fs1: Fs, own1: Owners, open1: map<sector, OpenInode>,
                    fs2: Fs, own2: Owners, open2: map<sector, OpenInode>, h: sector)
    requires Worked(fs, own, open, fs1, own1, open1, h) && Worked(fs1, own1, open1, fs2, own2, open2, h)
    ensures Worked(fs, own, open, fs2, own2, open2, h)
  {
    hide Extends, Content, Files;
    ExtendsTwice(fs, own, fs1, own1, fs2, own2, h);
    UpdateTwice(fs.data, h, fs1.data[h], fs2.data[h]);
    UpdateTwice(Files(fs), h, Content(fs1, h), Content(fs2, h));
  }

  lemma NotStuck(length: nat, size: nat, offset: nat)
    requires size > 0
    ensures offset <= length ==> !Stuck(length, size, offset)
  {
  }

  /** Ten bytes cannot be written at offset 20 of a file of ten bytes: the file grows to twenty bytes,
      and the chunk is then empty. */
  lemma StuckExample()
    ensures LengthBeforeChunk(10, 10, 20) == 20 && ChunkOf(10, 10, 20) == 0
  {
    assert Stuck(10, 10, 20);
  }

  lemma StuckLength(length: nat, size: nat, offset: nat)
    requires size > 0 && Stuck(length, size, offset)
    ensures LengthAfterChunk(length, size, offset) == offset && length <= offset
  {
  }

  lemma WrittenTwice(c: seq<byte>, l1: nat, l2: nat, offset: nat, a: seq<byte>, b: seq<byte>)
    requires |c| <= l1 <= l2 && offset + |a| <= l1 && offset + |a| + |b| <= l2
    ensures Written(Padded(Written(Padded(c, l1), offset, a), l2), offset + |a|, b)
            == Written(Padded(c, l2), offset, a + b)
  {
  }

  lemma WroteTwice(fs: Fs, own: Owners, open: map<sector, OpenInode>,
                   fs1: Fs, own1: Owners, open1: map<sector, OpenInode>,
                   fs2: Fs, own2: Owners, open2: map<sector, OpenInode>,
                   h: sector, offset: nat, a: seq<byte>, b: seq<byte>)
    requires Wrote(fs, own, open, fs1, own1, open1, h, offset, a)
    requires Wrote(fs1, own1, open1, fs2, own2, open2, h, offset + |a|, b)
    requires |Content(fs, h)| <= fs1.data[h].length <= fs2.data[h].length
    requires offset + |a| <= fs1.data[h].length && offset + |a| + |b| <= fs2.data[h].length
    ensures Wrote(fs, own, open, fs2, own2, open2, h, offset, a + b)
  {
    hide Extends, Content, Written, Padded;
    ExtendsTwice(fs, own, fs1, own1, fs2, own2, h);
    var c, l1, l2 := Content(fs, h), fs1.data[h].length, fs2.data[h].length;
    assert Content(fs1, h) == Files(fs1)[h] == Written(Padded(c, l1), offset, a);
    WrittenTwice(c, l1, l2, offset, a, b);
  }

  lemma WroteMore(fs: Fs, own: Owners, open: map<sector, OpenInode>,
                  fs1: Fs, own1: Owners, open1: map<sector, OpenInode>,
                  fs2: Fs, own2: Owners, open2: map<sector, OpenInode>,
                  h: sector, offset: nat, buffer: seq<byte>, written: nat, chunk: nat)
    requires h in fs.data && h in fs1.data && h in fs2.data && written + chunk <= |buffer|
    requires written == 0 ==> fs1 == fs && own1 == own && open1 == open
    requires written > 0 ==> offset + written <= fs1.data[h].length
                             && Wrote(fs, own, open, fs1, own1, open1, h, offset, buffer[..written])
    requires Wrote(fs1, own1, open1, fs2, own2, open2, h, offset + written, buffer[written..][..chunk])
    requires |Content(fs, h)| <= fs1.data[h].length <= fs2.data[h].length
    requires offset + written + chunk <= fs2.data[h].length
    ensures Wrote(fs, own, open, fs2, own2, open2, h, offset, buffer[..written + chunk])
  {
    hide Extends, Content, Padded, Written, Files;
    assert buffer[..written + chunk] == buffer[..written] + buffer[written..][..chunk];
    if written > 0 {
      hide Wrote;
      WroteTwice(fs, own, open, fs1, own1, open1, fs2, own2, open2, h, offset, buffer[..written],
          buffer[written..][..chunk]);
    }
  }

  /** The loop of inode_write_at has written so many bytes of BUFFER. */
  ghost predicate Progress(fs: Fs, own: Owners, open: map<sector, OpenInode>,
                           fs1: Fs, own1: Owners, open1: map<sector, OpenInode>,
                           h: sector, offset: nat, buffer: seq<byte>, written: nat) {
    && h in fs.data && h in fs1.data && written <= |buffer| && |Content(fs, h)| == fs.data[h].length
    && fs.data[h].length <= fs1.data[h].length <= Reach(fs.data[h].length, |buffer|, offset)
    && (written == 0 ==> fs1 == fs && own1 == own && open1 == open)
    && (written > 0 ==> offset + written <= fs1.data[h].length && !Stuck(fs.data[h].length, |buffer|, offset)
                        && Wrote(fs, own, open, fs1, own1, open1, h, offset, buffer[..written]))
  }

  lemma ProgressNone(fs: Fs, own: Owners, open: map<sector, OpenInode>, h: sector, offset: nat, buffer: seq<byte>)
    requires h in fs.data && |Content(fs, h)| == fs.data[h].length
    ensures Progress(fs, own, open, fs, own, open, h, offset, buffer, 0)
  {
  }

  /** The next pass stays within the reach of the write. */
  lemma ProgressReach(fs: Fs, own: Owners, open: map<sector, OpenInode>,
                      fs1: Fs, own1: Owners, open1: map<sector, OpenInode>,
                      h: sector, offset: nat, buffer: seq<byte>, written: nat)
    requires Progress(fs, own, open, fs1, own1, open1, h, offset, buffer, written) && written < |buffer|
    ensures h in fs.data && h in fs1.data
    ensures Reach(fs1.data[h].length, |buffer[written..]|, offset + written)
            <= Reach(fs.data[h].length, |buffer|, offset)
  {
    hide Reach, Wrote, Stuck, Content;
    ReachRest(fs.data[h].length, fs1.data[h].length, |buffer|, offset, written);
  }

  /** A pass that writes a chunk makes progress; one that writes none is the first, and stuck. */
  lemma ProgressMore(fs: Fs, own: Owners, open: map<sector, OpenInode>,
                     fs1: Fs, own1: Owners, open1: map<sector, OpenInode>,
                     fs2: Fs, own2: Owners, open2: map<sector, OpenInode>,
                     h: sector, offset: nat, buffer: seq<byte>, written: nat, chunk: nat)
    requires Progress(fs, own, open, fs1, own1, open1, h, offset, buffer, written) && written < |buffer|
    requires h in fs1.data && h in fs2.data
               && chunk == ChunkOf(fs1.data[h].length, |buffer[written..]|, offset + written)
    requires Wrote(fs1, own1, open1, fs2, own2, open2, h, offset + written, buffer[written..][..chunk])
    requires fs2.data[h].length == LengthAfterChunk(fs1.data[h].length, |buffer[written..]|, offset + written)
    ensures h in fs.data && written + chunk <= |buffer|
    ensures chunk > 0 ==> Progress(fs, own, open, fs2, own2, open2, h, offset, buffer, written + chunk)
    ensures chunk == 0 ==> && written == 0 && Stuck(fs.data[h].length, |buffer|, offset) && fs.data[h].length <= offset
                           && Wrote(fs, own, open, fs2, own2, open2, h, offset, buffer[..0])
                           && fs2.data[h].length == Max(fs.data[h].length, offset)
  {
    hide Reach, Wrote, ChunkOf, LengthAfterChunk, Content;
    var rest, length0, length1 := buffer[written..], fs.data[h].length, fs1.data[h].length;
    ReachRest(length0, length1, |buffer|, offset, written);
    ReachCovers(length1, |rest|, offset + written);
    NotStuck(length1, |rest|, offset + written);
    if chunk == 0 {
      StuckLength(length0, |buffer|, offset);
      assert rest[..chunk] == buffer[..0];
    } else {
      WroteMore(fs, own, open, fs1, own1, open1, fs2, own2, open2, h, offset, buffer, written, chunk);
    }
  }

  lemma ProgressDone(fs: Fs, own: Owners, open: map<sector, OpenInode>,
                     fs1: Fs, own1: Owners, open1: map<sector, OpenInode>, h: sector, offset: nat, buffer: seq<byte>)
    requires |buffer| > 0 && Progress(fs, own, open, fs1, own1, open1, h, offset, buffer, |buffer|)
    ensures h in fs.data && h in fs1.data && !Stuck(fs.data[h].length, |buffer|, offset)
    ensures fs1.data[h].length == Max(fs.data[h].length, offset + |buffer|)
    ensures Wrote(fs, own, open, fs1, own1, open1, h, offset, buffer[..|buffer|])
  {
    hide Wrote, Content;
  }

  lemma WroteAll(fs: Fs, own: Owners, open: map<sector, OpenInode>,
                 fs': Fs, own': Owners, open': map<sector, OpenInode>, h: sector, offset: nat, data: seq<byte>)
    requires Wrote(fs, own, open, fs', own', open', h, offset, data)
    requires |Content(fs, h)| == fs.data[h].length
    requires fs'.data[h].length == Max(fs.data[h].length, offset + |data|)
    ensures fs'.data == fs.data[h := fs'.data[h]] && fs'.data[h].isdir == fs.data[h].isdir
    ensures open' == open[h := open[h].(data := fs'.data[h])] && Extends(fs, own, fs', own', h)
    ensures Files(fs') == Files(fs)[h := Written(Content(fs, h), offset, data)]
    ensures data == [] && offset >= fs.data[h].length ==>
              Written(Content(fs, h), offset, data) == Padded(Content(fs, h), offset)
  {
    hide Extends, Content;
    var c := Content(fs, h);
    assert Written(Padded(c, fs'.data[h].length), offset, data) == Written(c, offset, data);
  }

  /** Marking a sector used that nobody owns. */
  lemma MarkUsed(fs: Fs, own: Owners, s: sector)
    requires Core(fs, own) && s < |fs.used| && !fs.used[s]
    ensures s !in own && Core(fs.(used := fs.used[s := true]), own)
  {
    var fs' := fs.(used := fs.used[s := true]);
    forall h | h in fs'.data ensures InodeOk(fs', own, h) {
      assert InodeOk(fs, own, h);
    }
  }

  lemma HeadersUsed(fs: Fs, fs': Fs)
    requires fs' == fs.(used := fs'.used)
    ensures AllHeaders(fs, {}) ==> AllHeaders(fs', {})
  {
    if AllHeaders(fs, {}) {
      forall g | g in fs'.data ensures HeaderAt(fs', g) {
        assert HeaderAt(fs, g);
      }
    }
  }

  /** An empty inode with header sector H. */
  lemma NewInode(fs: Fs, own: Owners, h: sector, d: InodeDisk)
    requires Core(fs, own) && Exact(fs, own) && AllHeaders(fs, {})
    requires h !in own && h + 1 < |fs.view| && fs.used[h]
    requires d.length == 0 && |d.start| == DIRECT && d.indirect == 0
    ensures h !in fs.data
    ensures var fs', own' := fs.(data := fs.data[h := d]), own[h := Use(h, -1)];
            && Core(fs', own') && Exact(fs', own') && AllHeaders(fs', {h})
            && Files(fs') == Files(fs)[h := []] && Content(fs', h) == []
  {
    NewOwner(fs, own, h);
    NewStep(fs, own, h, d);
    NewExact(fs, own, h, d);
    hide Core, Exact, AllHeaders, StepOn, Content;
    FrameFiles(fs, own, fs.(data := fs.data[h := d]), own[h := Use(h, -1)], h);
  }

  lemma NewExact(fs: Fs, own: Owners, h: sector, d: InodeDisk)
    requires Exact(fs, own) && AllHeaders(fs, {}) && h !in fs.data
    requires d.length == 0 && |d.start| == DIRECT && d.indirect == 0
    ensures var fs', own' := fs.(data := fs.data[h := d]), own[h := Use(h, -1)];
            Exact(fs', own') && AllHeaders(fs', {h})
  {
    var fs', own' := fs.(data := fs.data[h := d]), own[h := Use(h, -1)];
    forall g | g in fs'.data && g != h ensures HeaderAt(fs', g) {
      assert HeaderAt(fs, g);
    }
    assert Sectors(0) == 0;
    forall s | s in own' ensures OwnedExactly(fs', own', s) {
      if s != h {
        assert OwnedExactly(fs, own, s);
      }
    }
  }

  lemma NewStep(fs: Fs, own: Owners, h: sector, d: InodeDisk)
    requires Core(fs, own) && h !in fs.data && (forall s :: s in own ==> own[s].inode != h)
    requires h !in own && h + 1 < |fs.view| && fs.used[h]
    requires d.length == 0 && |d.start| == DIRECT && d.indirect == 0
    ensures var fs', own' := fs.(data := fs.data[h := d]), own[h := Use(h, -1)];
            StepOn(fs, own, fs', own', h) && Content(fs', h) == []
  {
    var fs', own' := fs.(data := fs.data[h := d]), own[h := Use(h, -1)];
    assert Sectors(0) == 0;
    assert InodeOk(fs', own', h);
  }

  lemma CreatedHeaders(fs1: Fs, own1: Owners, fs2: Fs, own2: Owners, h: sector, bytes: seq<byte>)
    requires Core(fs2, own2) && h in fs2.data && h < |fs2.view| && AllHeaders(fs2, {h})
    requires Extends(fs1, own1, fs2, own2, h)
    requires HeaderAt(fs2.(view := fs2.view[h := bytes]), h)
    ensures AllHeaders(fs2.(view := fs2.view[h := bytes]), {})
    ensures Extends(fs1, own1, fs2.(view := fs2.view[h := bytes]), own2, h)
  {
    hide Extends;
    var fs' := fs2.(view := fs2.view[h := bytes]);
    forall g | g in fs'.data && g != h ensures HeaderAt(fs', g) {
      assert HeaderAt(fs2, g);
    }
    ExtendsHeader(fs1, own1, fs2, own2, h, bytes);
  }

  lemma ExtendsSame(fs: Fs, fs1: Fs, own1: Owners, fs2: Fs, own2: Owners, h: sector)
    requires Extends(fs1, own1, fs2, own2, h) && fs1.view == fs.view && fs1.used == fs.used
    ensures Extends(fs, own1, fs2, own2, h)
  {
  }

  lemma SelfExtends(fs: Fs, own: Owners, h: sector)
    requires Core(fs, own)
    ensures Extends(fs, own, fs, own, h)
  {
  }

  lemma UpdateTwice<K, V>(m: map<K, V>, k: K, a: V, b: V)
    ensures m[k := a][k := b] == m[k := b]
  {
  }

  lemma TakenOut<K, V>(m: map<K, V>, k: K, a: V, b: V)
    requires k !in m
    ensures m[k := a][k := b] - {k} == m
  {
  }

  lemma EmptyPadded(n: nat)
    ensures Padded([], n) == Zeros(n)
  {
  }

  /** USED' is USED with the sectors GONE cleared. */
  ghost predicate Cleared(used: seq<bool>, used': seq<bool>, gone: seq<sector>) {
    |used'| == |used| && forall s: sector :: s < |used| ==> used'[s] == (used[s] && s !in gone)
  }

  lemma PrefixNext(h: sector, secs: seq<sector>, i: nat)
    requires i < |secs|
    ensures [h] + secs[..i + 1] == [h] + secs[..i] + [secs[i]]
  {
  }

  lemma ClearedFirst(used: seq<bool>, h: sector)
    requires h < |used|
    ensures Cleared(used, used[h := false], [h] + [])
  {
  }

  lemma ClearedNext(used: seq<bool>, used1: seq<bool>, gone: seq<sector>, s: sector)
    requires Cleared(used, used1, gone) && s < |used| && used[s] && s !in gone
    ensures s < |used1| && used1[s] && Cleared(used, used1[s := false], gone + [s])
  {
  }

  /** Taking inode H away, together with exactly the sectors it owned. */
  lemma Reclaimed(fs: Fs, own: Owners, fs': Fs, own': Owners, h: sector)
    requires Core(fs, own) && Exact(fs, own) && AllHeaders(fs, {}) && h in fs.data && DataOk(fs.tables, fs.data[h])
    requires fs' == fs.(used := fs'.used, data := fs.data - {h})
    requires Cleared(fs.used, fs'.used, [h] + Secs(fs.tables, fs.data[h]))
    requires own' == map s | s in own && own[s].inode != h :: own[s]
    ensures Core(fs', own') && Exact(fs', own') && AllHeaders(fs', {}) && Released(fs, own, fs', own', h)
  {
    OwnedSectors(fs, own, h);
    ReclaimedCore(fs, own, fs', own', h);
    ReclaimedExact(fs, own, fs', own', h);
    ReclaimedFiles(fs, fs', h);
    hide Core, Exact, AllHeaders;
  }

  /** What inode H owns is its header sector and its data sectors. */
  lemma OwnedSectors(fs: Fs, own: Owners, h: sector)
    requires Core(fs, own) && Exact(fs, own) && h in fs.data && DataOk(fs.tables, fs.data[h])
    ensures forall s :: s in own ==> (own[s].inode == h <==> s in [h] + Secs(fs.tables, fs.data[h]))
    ensures forall s :: s in [h] + Secs(fs.tables, fs.data[h]) ==> s in own
  {
    hide Core, OwnedExactly, SecsOwned;
    CoreInode(fs, own, h);
    var secs := Secs(fs.tables, fs.data[h]);
    forall s | s in own ensures own[s].inode == h <==> s in [h] + secs {
      OwnedBy(fs, own, h, s);
    }
    forall s | s in secs ensures s in own {
      SecsIn(own, h, secs, s);
    }
  }

  lemma OwnedBy(fs: Fs, own: Owners, h: sector, s: sector)
    requires s in own && OwnedExactly(fs, own, s) && h in fs.data && DataOk(fs.tables, fs.data[h])
    requires h in own && own[h] == Use(h, -1) && SecsOwned(own, h, Secs(fs.tables, fs.data[h]), 0)
    ensures own[s].inode == h <==> s in [h] + Secs(fs.tables, fs.data[h])
  {
    hide Sectors;
    if s in Secs(fs.tables, fs.data[h]) {
      SecsIn(own, h, Secs(fs.tables, fs.data[h]), s);
    }
  }

  lemma SecsIn(own: Owners, h: sector, secs: seq<sector>, s: sector)
    requires SecsOwned(own, h, secs, 0) && s in secs
    ensures s in own && own[s].inode == h
  {
  }

  lemma ReclaimedExact(fs: Fs, own: Owners, fs': Fs, own': Owners, h: sector)
    requires Exact(fs, own) && fs' == fs.(used := fs'.used, data := fs.data - {h})
    requires own' == map s | s in own && own[s].inode != h :: own[s]
    ensures Exact(fs', own')
  {
    forall s | s in own' ensures OwnedExactly(fs', own', s) {
      assert OwnedExactly(fs, own, s);
    }
  }

  lemma ReclaimedFiles(fs: Fs, fs': Fs, h: sector)
    requires AllHeaders(fs, {}) && fs' == fs.(used := fs'.used, data := fs.data - {h})
    ensures AllHeaders(fs', {}) && Files(fs') == Files(fs) - {h}
  {
    forall g | g in fs'.data ensures HeaderAt(fs', g) && Content(fs', g) == Content(fs, g) {
      assert HeaderAt(fs, g);
    }
  }

  lemma ReclaimedCore(fs: Fs, own: Owners, fs': Fs, own': Owners, h: sector)
    requires Core(fs, own) && fs' == fs.(used := fs'.used, data := fs.data - {h}) && |fs'.used| == |fs.used|
    requires own' == map s | s in own && own[s].inode != h :: own[s]
    requires forall s :: s in own && own[s].inode != h ==> s < |fs.used| && fs'.used[s] == fs.used[s]
    ensures Core(fs', own')
  {
    forall g | g in fs'.data ensures InodeOk(fs', own', g) {
      assert InodeOk(fs, own, g);
    }
  }

  lemma SecsDistinct(own: Owners, h: sector, secs: seq<sector>)
    requires SecsOwned(own, h, secs, 0) && h in own && own[h] == Use(h, -1)
    ensures forall i :: 0 <= i < |secs| ==> secs[i] != h && secs[i] !in secs[..i]
  {
  }

  /** Inode H is gone, and exactly the sectors that it owned are free again. */
  ghost predicate Released(fs: Fs, own: Owners, fs': Fs, own': Owners, h: sector) {
    && fs'.data == fs.data - {h} && Files(fs') == Files(fs) - {h}
    && own' == (map s | s in own && own[s].inode != h :: own[s])
    && |fs'.used| == |fs.used|
    && forall s: sector :: s < |fs.used| ==> fs'.used[s] == (fs.used[s] && !(s in own && own[s].inode == h))
  }

  lemma ReleasedFiles(fs: Fs, own: Owners, fs': Fs, own': Owners, h: sector)
    requires Released(fs, own, fs', own', h)
    ensures Files(fs') == Files(fs) - {h}
  {
  }

  /** USED' has, over USED, exactly the sectors that inode H owns, which were all free. */
  ghost predicate Gained(used: seq<bool>, used': seq<bool>, own': Owners, h: sector) {
    && |used'| == |used| <= B32
    && (forall s :: s in own' && own'[s].inode == h ==> s < |used| && !used[s])
    && (forall s: sector :: s < |used| ==> used'[s] == (used[s] || (s in own' && own'[s].inode == h)))
  }

  lemma NewOwner(fs: Fs, own: Owners, h: sector)
    requires Core(fs, own) && Exact(fs, own) && h !in own
    ensures h !in fs.data && forall s :: s in own ==> own[s].inode != h
  {
    assert h in fs.data ==> InodeOk(fs, own, h);
    forall s | s in own ensures own[s].inode != h {
      assert OwnedExactly(fs, own, s);
    }
  }

  lemma NewOwners(fs: Fs, own: Owners)
    requires Core(fs, own) && Exact(fs, own)
    ensures forall h, s :: h !in own && s in own ==> own[s].inode != h
  {
    forall h | h !in own ensures forall s :: s in own ==> own[s].inode != h {
      NewOwner(fs, own, h);
    }
  }

  lemma UsedFiles(fs: Fs, fs1: Fs)
    requires fs1 == fs.(used := fs1.used)
    ensures Files(fs1) == Files(fs)
  {
  }

  lemma GainedSectors(fs: Fs, own: Owners, fs1: Fs, fs2: Fs, own2: Owners, fs3: Fs, own3: Owners, h: sector)
    requires |fs.used| <= B32 && h < |fs.used| && !fs.used[h] && fs1 == fs.(used := fs.used[h := true])
    requires h !in own && forall s :: s in own ==> own[s].inode != h
    requires Extends(fs1, own[h := Use(h, -1)], fs2, own2, h) && Extends(fs2, own2, fs3, own3, h)
    ensures Gained(fs.used, fs3.used, own3, h)
  {
    ExtendsTwice(fs1, own[h := Use(h, -1)], fs2, own2, fs3, own3, h);
  }

  lemma GainedBy(fs: Fs, own: Owners, open: map<sector, OpenInode>, fs1: Fs,
                 fs2: Fs, own2: Owners, open2: map<sector, OpenInode>,
                 fs3: Fs, own3: Owners, open3: map<sector, OpenInode>, h: sector)
    requires |fs.used| <= B32 && h < |fs.used| && !fs.used[h] && fs1 == fs.(used := fs.used[h := true])
    requires h !in own && forall s :: s in own ==> own[s].inode != h
    requires Extends(fs1, own[h := Use(h, -1)], fs2, own2, h) && Worked(fs2, own2, open2, fs3, own3, open3, h)
    requires h in fs2.data && fs2.data == fs.data[h := fs2.data[h]]
    requires h in open2 && open2 == open[h := open2[h]]
    requires h in Files(fs2) && Files(fs2) == Files(fs1)[h := Files(fs2)[h]]
    ensures Gained(fs.used, fs3.used, own3, h)
    ensures h in fs3.data && fs3.data == fs.data[h := fs3.data[h]]
    ensures h in open3 && open3 == open[h := open3[h]] && open3[h].openCnt == open2[h].openCnt
    ensures Files(fs3) == Files(fs)[h := Content(fs3, h)]
  {
    hide Extends, Content, Gained, Files;
    UsedFiles(fs, fs1);
    GainedSectors(fs, own, fs1, fs2, own2, fs3, own3, h);
  }

  lemma GivenBack(fs: Fs, fs1: Fs, own1: Owners, fs2: Fs, own2: Owners, h: sector)
    requires Gained(fs.used, fs1.used, own1, h) && Released(fs1, own1, fs2, own2, h)
    requires h !in fs.data && h in fs1.data && fs1.data == fs.data[h := fs1.data[h]]
    requires h in Files(fs1) && Files(fs1) == Files(fs)[h := Files(fs1)[h]]
    ensures fs2.used == fs.used && fs2.data == fs.data && Files(fs2) == Files(fs)
  {
    forall i | 0 <= i < |fs.used| ensures fs2.used[i] == fs.used[i] {
      var s: sector := i;
      assert fs1.used[s] == (fs.used[s] || (s in own1 && own1[s].inode == h));
    }
  }
}
