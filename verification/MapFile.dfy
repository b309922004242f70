/** The free map's file as an inode of the file system it maps (filesys/free-map.c). */
module MapFile {
  import opened Disk
  import opened Options
  import opened Bits
  import opened Bitmaps
  import opened FileLayout
  import opened FreeMaps
  import opened MapView
  import opened Inodes
  import BufferCache

  /** Every operation leaves the file system valid, and so leaves the content of the map file decoding to
      the map in memory. */
  lemma MapInStep(fs: FileSys)
    requires fs.Valid() && fs.fm.isOpen
    ensures MAP in fs.data && Decodes(Content(fs.Whole(), MAP), fs.Whole().used)
  {
    hide Core, Content, Holds, Masked, Apart, Decodes;
    fs.WholeIs();
    FileOf(fs.Whole(), MAP);
  }

  /** free_map_release of a sector that no inode owns, as when a file could not be created. */
  method Release(fs: FileSys, s: sector)
    requires fs.Valid() && fs.fm.isOpen && s !in fs.own && s < |fs.Whole().used| && fs.Whole().used[s]
    modifies fs.cache, fs.fm`file, fs.fm.bitmap.bits
    ensures fs.Valid() && fs.Whole().used == old(fs.Whole()).used[s := false]
    ensures Files(fs.Whole()) == fs.WithMap(Files(old(fs.Whole())))
  {
    hide Core, Exact, AllHeaders, Content, FileSys.Parts, FileSys.State, FileSys.Whole;
    ghost var st, w, file := fs.State(), fs.Whole(), fs.fm.file;
    fs.WholeIs();
    fs.UnownedNotMapSec(s);
    MarkFree(st, fs.own, s);
    fs.ReleaseSector(s);
    UsedFiles(st, fs.State());
    fs.WholeChanged(w, st, file, s, []);
  }

  lemma MarkFree(st: Fs, own: Owners, s: sector)
    requires Core(st, own) && s < |st.used| && s !in own
    ensures var st' := st.(used := st.used[s := false]);
            && Core(st', own) && (Exact(st, own) ==> Exact(st', own)) && (AllHeaders(st, {}) ==> AllHeaders(st', {}))
  {
    var st' := st.(used := st.used[s := false]);
    forall h | h in st'.data ensures InodeOk(st', own, h) {
      assert InodeOk(st, own, h);
    }
    ExactView(st, own, st');
    HeadersUsed(st, st');
  }

  /** The map file is a file of one bit for each sector. */
  ghost predicate MapThere(fs: FileSys)
    reads fs.Objects()
  {
    && fs.Valid() && !fs.fm.isOpen && MAP in fs.data && fs.data[MAP].length == ByteCnt(fs.fm.bitmap.bitCnt)
    && MAP in fs.open && fs.open[MAP].denyWriteCnt == 0
  }

  /** The map file, which holds FILE, is put to use. */
  method StartUsing(fs: FileSys, ghost file: seq<byte>)
    requires MapThere(fs) && file == Content(fs.Whole(), MAP)
    modifies fs.fm`isOpen
    ensures fs.fm.isOpen && fs.Linked() && fs.Whole() == old(fs.Whole())
    ensures Holds(fs.cache.Contents(), fs.MapSecs(), file)
    ensures Core(fs.State(), fs.own) && Exact(fs.State(), fs.own) && AllHeaders(fs.State(), {})
    ensures Files(fs.Whole()) == Files(fs.State())[MAP := file]
  {
    hide Core, Exact, AllHeaders, Content, Holds, Masked, BufferCache.View, BufferCache.Inv, BitsOf, DataOk, Apart;
    ghost var w, own := fs.Whole(), fs.own;
    MaskedNone(w.view);
    CoreInode(w, own, MAP);
    MaskKeeps(w, own);
    WholeFiles(w, own, file);
    fs.fm.isOpen := true;
  }

  /** The map file can be set apart in any file system that is in order. */
  lemma MaskKeeps(fs: Fs, own: Owners)
    requires Core(fs, own) && MAP in fs.data && DataOk(fs.tables, fs.data[MAP])
    ensures var secs := Secs(fs.tables, fs.data[MAP]);
            && Apart(secs, fs.used) && Holds(fs.view, secs, Content(fs, MAP))
            && var fs1 := fs.(view := Masked(fs.view, secs));
               && Core(fs1, own) && (Exact(fs, own) ==> Exact(fs1, own))
               && (AllHeaders(fs, {}) ==> AllHeaders(fs1, {}))
  {
    var secs := Secs(fs.tables, fs.data[MAP]);
    var fs1 := fs.(view := Masked(fs.view, secs));
    MaskHolds(fs, own);
    MaskStep(fs, own);
    FrameCore(fs, own, fs1, own, MAP);
    ExactView(fs, own, fs1);
    hide Core, Masked, Holds, Content, Exact, AllHeaders, StepOn;
    WholeHeaders(fs, own, Content(fs, MAP), {});
  }

  lemma MaskHolds(fs: Fs, own: Owners)
    requires Core(fs, own) && MAP in fs.data && DataOk(fs.tables, fs.data[MAP])
    ensures var secs := Secs(fs.tables, fs.data[MAP]);
            && Apart(secs, fs.used) && Holds(fs.view, secs, Content(fs, MAP))
            && |Content(fs, MAP)| == fs.data[MAP].length
  {
    hide Sectors, Flat, Holds;
    assert InodeOk(fs, own, MAP);
    SectorsBounds(fs.data[MAP].length);
    HeldContent(fs.view, Secs(fs.tables, fs.data[MAP]), fs.data[MAP].length);
    assert Readable(fs, MAP);
  }

  lemma MaskStep(fs: Fs, own: Owners)
    requires Core(fs, own) && MAP in fs.data && DataOk(fs.tables, fs.data[MAP])
    ensures StepOn(fs, own, fs.(view := Masked(fs.view, Secs(fs.tables, fs.data[MAP]))), own, MAP)
  {
    hide Sectors, Flat;
    var secs := Secs(fs.tables, fs.data[MAP]);
    assert InodeOk(fs, own, MAP);
    FlatBlank(Masked(fs.view, secs), secs);
    MaskFramed(fs, own);
  }

  lemma MaskFramed(fs: Fs, own: Owners)
    requires MAP in fs.data && DataOk(fs.tables, fs.data[MAP]) && (forall s :: s in own ==> s < |fs.view|)
    requires SecsOwned(own, MAP, Secs(fs.tables, fs.data[MAP]), 0)
    ensures Framed(fs, own, fs.(view := Masked(fs.view, Secs(fs.tables, fs.data[MAP]))), MAP)
  {
    hide DataOk;
  }

  lemma FlatBlank(view: seq<seq<byte>>, secs: seq<sector>)
    requires WellFormed(view) && forall i :: 0 <= i < |secs| ==> secs[i] < |view| && view[secs[i]] == Blank()
    ensures ZeroFrom(Flat(view, secs), 0)
  {
  }

  lemma HeldContent(view: seq<seq<byte>>, secs: seq<sector>, n: nat)
    requires WellFormed(view) && (forall i :: 0 <= i < |secs| ==> secs[i] < |view|) && n <= SECTOR_SIZE * |secs|
    requires ZeroFrom(Flat(view, secs), n)
    ensures Holds(view, secs, Flat(view, secs)[..n])
  {
  }

  /** free_map_create: the map file becomes an inode in its own sector, with zeroed sectors from the map,
      and then holds the map.  file_open counts one opener more than inode_open. */
  method Create(fs: FileSys, block: word)
    requires fs.Valid() && !fs.fm.isOpen && MAP !in fs.own && fs.Whole().used[MAP] && MAP + 1 < |fs.cache.disk|
    requires var n := Sectors(ByteCnt(fs.fm.bitmap.bitCnt)); n <= MAX_SECTORS && n <= fs.Free()
    requires block != 0 && block !in fs.tables
    modifies fs, fs.cache, fs.fm`file, fs.fm`isOpen, fs.fm.bitmap.bits
    ensures fs.Valid() && fs.fm.isOpen && MAP in fs.data && MAP in fs.open && fs.open[MAP].openCnt == 2
    ensures fs.data[MAP].length == ByteCnt(fs.fm.bitmap.bitCnt) && !fs.data[MAP].isdir
    ensures Files(fs.Whole()) == Files(old(fs.Whole()))[MAP := fs.fm.file]
  {
    hide Core, Exact, AllHeaders, Content, Sectors, Extends, Holds, Files, Zeros, FileSys.Parts, FileSys.State,
      FileSys.Whole;
    ghost var files := Files(fs.Whole());
    var n := ByteCnt(fs.fm.bitmap.bitCnt);
    MapFits(fs.fm.bitmap.bitCnt);
    fs.NotOpen(MAP);
    fs.Create(MAP, n, false, block);
    fs.Open(MAP);
    fs.Reopen(MAP);
    fs.WholeIs();
    CoreInode(fs.Whole(), fs.own, MAP);
    ghost var file := Content(fs.Whole(), MAP);
    StartUsing(fs, file);
    Save(fs, file);
    fs.WholeIs();
    SameElsewhere(files, Files(fs.State()), MAP, Zeros(n), file, fs.fm.file);
  }

  /** The first write to the map file, which makes it record the map. */
  method Save(fs: FileSys, ghost file: seq<byte>)
    requires fs.Linked() && fs.fm.isOpen && Holds(fs.cache.Contents(), fs.MapSecs(), file)
    requires |file| == ByteCnt(fs.fm.bitmap.bitCnt) && fs.OpenOk()
    requires Core(fs.State(), fs.own) && Exact(fs.State(), fs.own) && AllHeaders(fs.State(), {})
    modifies fs.cache, fs.fm`file
    ensures fs.Valid() && fs.State() == old(fs.State())
  {
    hide Core, Exact, AllHeaders, BitsOf, Holds, HoldsTo, Masked, Apart, BufferCache.View, BufferCache.Inv, DataOk;
    var image := fs.fm.bitmap.Image();
    ImageDecodes(fs.fm.bitmap.bits[..], fs.fm.bitmap.bitCnt);
    fs.fm.file := image;
    HoldsStart(fs.cache.Contents(), fs.MapSecs(), file, image);
    fs.WriteMap(image);
  }

  lemma SameElsewhere<K, V>(a: map<K, V>, b: map<K, V>, k: K, v: V, w: V, x: V)
    requires a[k := v] == b[k := w]
    ensures a[k := x] == b[k := x]
  {
    assert a[k := v][k := x] == a[k := x] && b[k := w][k := x] == b[k := x];
  }

  lemma MapFits(n: nat)
    ensures ByteCnt(n) <= SECTOR_SIZE * n
  {
  }

  /** free_map_close */
  method Close(fs: FileSys)
    requires fs.Valid() && fs.fm.isOpen && (fs.open[MAP].openCnt == 1 ==> !fs.open[MAP].removed)
    modifies fs, fs.cache, fs.fm`file, fs.fm`isOpen, fs.fm.bitmap.bits
    ensures fs.Valid() && !fs.fm.isOpen && fs.Whole() == old(fs.Whole())
    ensures MAP in fs.data && fs.data[MAP].length == ByteCnt(fs.fm.bitmap.bitCnt)
    ensures MAP in fs.open ==> fs.open[MAP].denyWriteCnt == 0
    ensures var o := old(fs.open)[MAP];
            fs.open == if o.openCnt > 1 then old(fs.open)[MAP := o.(openCnt := o.openCnt - 1)] else old(fs.open) - {MAP}
  {
    hide Core, Exact, AllHeaders, Content, BitsOf, Holds, Masked, Apart, BufferCache.View, BufferCache.Inv, DataOk;
    ghost var w := fs.Whole();
    fs.WholeIs();
    WholeHeaders(w, fs.own, fs.fm.file, {});
    ExactView(fs.State(), fs.own, w);
    MaskedNone(w.view);
    fs.fm.isOpen := false;
    fs.Close(MAP);
  }

  /** free_map_open: what is read back from the map file is the map, for every sector. */
  method Open(fs: FileSys) returns (success: bool)
    requires fs.Valid() && !fs.fm.isOpen && MAP in fs.data && fs.data[MAP].length == ByteCnt(fs.fm.bitmap.bitCnt)
    requires MAP in fs.open ==> fs.open[MAP].denyWriteCnt == 0
    requires Decodes(Content(fs.Whole(), MAP), fs.Whole().used)
    modifies fs`open, fs.cache, fs.fm`file, fs.fm`isOpen, fs.fm.bitmap.bits
    ensures success && fs.Valid() && fs.fm.isOpen && fs.Whole() == old(fs.Whole())
    ensures fs.open == old(fs.open)[MAP := fs.open[MAP]]
    ensures fs.open[MAP].openCnt == 2 + if MAP in old(fs.open) then old(fs.open)[MAP].openCnt else 0
  {
    hide Core, Exact, AllHeaders, Content, Holds, Decodes, Files, FileSys.Parts, FileSys.State, FileSys.Whole,
      FileSys.Free;
    ghost var w, open0 := fs.Whole(), fs.open;
    fs.Open(MAP);
    ghost var open1 := fs.open;
    fs.Reopen(MAP);
    UpdateTwice(open0, MAP, open1[MAP], fs.open[MAP]);
    fs.WholeIs();
    CoreInode(w, fs.own, MAP);
    var n := ByteCnt(fs.fm.bitmap.bitCnt);
    var got := fs.ReadAt(MAP, n, 0);
    assert got == Content(w, MAP);
    StartUsing(fs, got);
    success := ReadBack(fs, got);
  }

  /** Whatever was done before, closing the map file and reading it again gives back the same map. */
  method Reopen(fs: FileSys) returns (success: bool)
    requires fs.Valid() && fs.fm.isOpen && (fs.open[MAP].openCnt == 1 ==> !fs.open[MAP].removed)
    modifies fs, fs.cache, fs.fm`file, fs.fm`isOpen, fs.fm.bitmap.bits
    ensures success && fs.Valid() && fs.fm.isOpen && fs.Whole() == old(fs.Whole())
  {
    hide Core, Exact, AllHeaders, Content, Decodes, FileSys.Parts, FileSys.State, FileSys.Whole, FileSys.Free;
    MapInStep(fs);
    Close(fs);
    success := Open(fs);
  }

  /** bitmap_read of the bytes GOT from the map file. */
  method ReadBack(fs: FileSys, got: seq<byte>) returns (success: bool)
    requires fs.Linked() && fs.fm.isOpen && Holds(fs.cache.Contents(), fs.MapSecs(), got)
    requires |got| == ByteCnt(fs.fm.bitmap.bitCnt) && fs.OpenOk() && Decodes(got, fs.Whole().used)
    requires Core(fs.State(), fs.own) && Exact(fs.State(), fs.own) && AllHeaders(fs.State(), {})
    modifies fs.fm`file, fs.fm.bitmap.bits
    ensures success && fs.Valid() && fs.State() == old(fs.State()) && fs.Whole() == old(fs.Whole())
  {
    hide Core, Exact, AllHeaders, BitsOf, Holds, Masked, Apart, BufferCache.View, BufferCache.Inv, DataOk, DecodeBits;
    ghost var image := fs.fm.bitmap.Image();
    assert got + image[|got|..] == got;
    success := fs.fm.bitmap.Read(got);
    fs.fm.file := got;
  }
}
