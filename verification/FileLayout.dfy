/**
 How files lie on the disk: the on-disk inode, its sector tables, which sector belongs to
 which inode, and the bytes of a file as one flat sequence.
 */
module FileLayout {
  import opened Disk
  import opened Bits
  import opened Words

  const DIRECT := 122
  const TABLE_SIZE := 512
  const MAX_SECTORS := 512
  const INODE_MAGIC := 0x494e4f44

  type sector = word

  /** On-disk inode.  INDIRECT is the kernel address of the indirect table, 0 if none. */
  datatype InodeDisk = InodeDisk(length: nat, start: seq<sector>, indirect: word, isdir: bool)

  /** bytes_to_sectors */
  function Sectors(size: nat): nat {
    (size + SECTOR_SIZE - 1) / SECTOR_SIZE
  }

  lemma SectorsBounds(size: nat)
    ensures SECTOR_SIZE * Sectors(size) - SECTOR_SIZE < size <= SECTOR_SIZE * Sectors(size)
              || size == 0 == Sectors(size)
  {
  }

  lemma SectorsMonotone(a: nat, b: nat)
    requires a <= b
    ensures Sectors(a) <= Sectors(b)
  {
  }

  type Tables = map<word, seq<sector>>

  predicate DataOk(tables: Tables, d: InodeDisk) {
    && Sectors(d.length) <= MAX_SECTORS
    && |d.start| == DIRECT
    && (d.indirect == 0 <==> Sectors(d.length) <= DIRECT)
    && (d.indirect != 0 ==> d.indirect in tables && |tables[d.indirect]| == TABLE_SIZE)
  }

  /** The table in force: direct up to 122 sectors, indirect above. */
  function Table(tables: Tables, d: InodeDisk): (t: seq<sector>)
    requires DataOk(tables, d)
    ensures |t| >= Sectors(d.length)
  {
    if Sectors(d.length) <= DIRECT then d.start else tables[d.indirect]
  }

  /** The data sectors of an inode, in file order. */
  function Secs(tables: Tables, d: InodeDisk): (s: seq<sector>)
    requires DataOk(tables, d)
    ensures |s| == Sectors(d.length)
  {
    Table(tables, d)[..Sectors(d.length)]
  }

  // ---- The header sector ----

  function HeaderWords(d: InodeDisk): (ws: seq<word>)
    requires d.length < B32
    ensures |ws| == |d.start| + 6
  {
    [d.length, INODE_MAGIC] + d.start + [d.indirect, 0, if d.isdir then 1 else 0, 0]
  }

  function Encode(d: InodeDisk): (bs: seq<byte>)
    requires d.length < B32 && |d.start| == DIRECT
    ensures IsSector(bs)
  {
    Bytes(HeaderWords(d))
  }

  function Decode(bs: seq<byte>): InodeDisk
    requires IsSector(bs)
  {
    var ws := FromBytes(bs);
    InodeDisk(ws[0], ws[2..2 + DIRECT], ws[2 + DIRECT], ws[4 + DIRECT] != 0)
  }

  lemma HeaderRoundTrip(d: InodeDisk)
    requires d.length < B32 && |d.start| == DIRECT
    ensures Decode(Encode(d)) == d
  {
    RoundTrip(HeaderWords(d));
    assert HeaderWords(d)[2..2 + DIRECT] == d.start;
  }

  /** The 32-bit number at AT, low byte first. */
  function Number(bs: seq<byte>, at: nat): nat {
    if at + 4 > |bs| then 0
    else (bs[at] as int) + 0x100 * (bs[at + 1] as int) + 0x1_0000 * (bs[at + 2] as int)
         + 0x100_0000 * (bs[at + 3] as int)
  }

  lemma NumberAt(ws: seq<word>, i: nat)
    requires i < |ws|
    ensures Number(Bytes(ws), 4 * i) == ws[i]
  {
    hide WordBytes, Bytes;
    BytesAt(ws, i, 0);
    BytesAt(ws, i, 1);
    BytesAt(ws, i, 2);
    BytesAt(ws, i, 3);
    WordRoundTrip(ws[i]);
  }

  /** The fields of struct inode_disk are where it has them: length, magic number, 122 sectors, the two
      tables, the flag and a pointer. */
  lemma HeaderFields(d: InodeDisk)
    requires d.length < B32 && |d.start| == DIRECT
    ensures var bs := Encode(d);
            && Number(bs, 0) == d.length && Number(bs, 4) == INODE_MAGIC
            && (forall i: nat :: i < DIRECT ==> Number(bs, 8 + 4 * i) == d.start[i])
            && Number(bs, 496) == d.indirect && Number(bs, 500) == 0
            && Number(bs, 504) == (if d.isdir then 1 else 0) && Number(bs, 508) == 0
  {
    hide Number, Bytes;
    var ws := HeaderWords(d);
    NumberAt(ws, 0);
    NumberAt(ws, 1);
    forall i: nat | i < DIRECT ensures Number(Bytes(ws), 8 + 4 * i) == d.start[i] {
      NumberAt(ws, 2 + i);
    }
    NumberAt(ws, 124);
    NumberAt(ws, 125);
    NumberAt(ws, 126);
    NumberAt(ws, 127);
  }

  // ---- Ownership ----

  /** What a used sector is for: the header (slot -1) or data sector SLOT of an inode. */
  datatype Use = Use(inode: sector, slot: int)

  type Owners = map<sector, Use>

  /** A file system: what the cache presents, the free map, the indirect tables in kernel
      memory, and the current header of every live inode. */
  datatype Fs = Fs(view: seq<seq<byte>>, used: seq<bool>, tables: Tables, data: map<sector, InodeDisk>)

  /** The sectors of a list end to end. */
  ghost function Flat(view: seq<seq<byte>>, secs: seq<sector>): (f: seq<byte>)
    requires WellFormed(view) && forall i :: 0 <= i < |secs| ==> secs[i] < |view|
    ensures |f| == SECTOR_SIZE * |secs|
  {
    seq(SECTOR_SIZE * |secs|, k requires 0 <= k < SECTOR_SIZE * |secs| => view[secs[k / SECTOR_SIZE]][k % SECTOR_SIZE])
  }

  ghost predicate ZeroFrom(f: seq<byte>, n: nat) {
    forall k :: n <= k < |f| ==> f[k] == 0
  }

  /** Header and data sectors of inode H are H's alone, and bytes past its end are zero. */
  ghost predicate InodeOk(fs: Fs, own: Owners, h: sector)
    requires WellFormed(fs.view) && h in fs.data
    requires forall s :: s in own ==> s < |fs.view|
  {
    var d := fs.data[h];
    && h in own && own[h] == Use(h, -1)
    && DataOk(fs.tables, d)
    && SecsOwned(own, h, Secs(fs.tables, d), 0)
    && ZeroFrom(Flat(fs.view, Secs(fs.tables, d)), d.length)
  }

  /** SECS are data sectors FROM, FROM + 1, ... of inode H. */
  ghost predicate SecsOwned(own: Owners, h: sector, secs: seq<sector>, from: nat) {
    forall i :: 0 <= i < |secs| ==> secs[i] in own && own[secs[i]] == Use(h, from + i)
  }

  ghost predicate Core(fs: Fs, own: Owners) {
    && WellFormed(fs.view) && |fs.used| == |fs.view|
    && (forall s :: s in own ==> s + 1 < |fs.view| && fs.used[s])
    && (forall h :: h in fs.data ==> InodeOk(fs, own, h))
    && TablesDistinct(fs.data)
  }

  /** The header sector of inode H holds its header. */
  ghost predicate HeaderAt(fs: Fs, h: sector) {
    && h in fs.data && h < |fs.view| && fs.data[h].length < B32 && |fs.data[h].start| == DIRECT
    && fs.view[h] == Encode(fs.data[h])
  }

  /** So do the header sectors of all inodes except those in BUT. */
  ghost predicate AllHeaders(fs: Fs, but: set<sector>) {
    forall g :: g in fs.data && g !in but ==> HeaderAt(fs, g)
  }

  /** The table of inode H leads to sectors that exist. */
  ghost predicate Readable(fs: Fs, h: sector) {
    && WellFormed(fs.view) && h in fs.data && DataOk(fs.tables, fs.data[h])
    && forall i :: 0 <= i < Sectors(fs.data[h].length) ==> Secs(fs.tables, fs.data[h])[i] < |fs.view|
  }

  /** The content of file H. */
  ghost function Content(fs: Fs, h: sector): seq<byte> {
    if Readable(fs, h) then Flat(fs.view, Secs(fs.tables, fs.data[h]))[..fs.data[h].length] else []
  }

  ghost function Files(fs: Fs): map<sector, seq<byte>> {
    map h | h in fs.data :: Content(fs, h)
  }

  // ---- What happens to flat content ----

  lemma FlatFrame(view: seq<seq<byte>>, view': seq<seq<byte>>, secs: seq<sector>)
    requires WellFormed(view) && WellFormed(view') && |view| == |view'|
    requires forall i :: 0 <= i < |secs| ==> secs[i] < |view| && view'[secs[i]] == view[secs[i]]
    ensures Flat(view', secs) == Flat(view, secs)
  {
  }

  /** Writing inside one data sector overwrites the same bytes of the flat content. */
  lemma FlatPatch(view: seq<seq<byte>>, secs: seq<sector>, i: nat, offset: nat, data: seq<byte>)
    requires WellFormed(view) && i < |secs| && offset + |data| <= SECTOR_SIZE
    requires forall j :: 0 <= j < |secs| ==> secs[j] < |view| && (secs[j] == secs[i] ==> j == i)
    ensures var view' := view[secs[i] := Patch(view[secs[i]], offset, data)];
            Flat(view', secs) == Patch(Flat(view, secs), SECTOR_SIZE * i + offset, data)
  {
    var view' := view[secs[i] := Patch(view[secs[i]], offset, data)];
    forall k | 0 <= k < SECTOR_SIZE * |secs|
      ensures Flat(view', secs)[k] == Patch(Flat(view, secs), SECTOR_SIZE * i + offset, data)[k]
    {
      var q, r := k / SECTOR_SIZE, k % SECTOR_SIZE;
      assert k == SECTOR_SIZE * q + r;
      if q == i {
      } else {
        assert view'[secs[q]] == view[secs[q]];
      }
    }
  }

  lemma FlatAppend(view: seq<seq<byte>>, secs: seq<sector>, more: seq<sector>)
    requires WellFormed(view)
    requires forall i :: 0 <= i < |secs| ==> secs[i] < |view|
    requires forall i :: 0 <= i < |more| ==> more[i] < |view| && view[more[i]] == Blank()
    ensures Flat(view, secs + more) == Flat(view, secs) + Zeros(SECTOR_SIZE * |more|)
  {
    var n := SECTOR_SIZE * |secs|;
    forall k | 0 <= k < n + SECTOR_SIZE * |more|
      ensures Flat(view, secs + more)[k] == (Flat(view, secs) + Zeros(SECTOR_SIZE * |more|))[k]
    {
      if k >= n {
        assert (secs + more)[k / SECTOR_SIZE] == more[k / SECTOR_SIZE - |secs|];
      }
    }
  }

  function Zeros(n: nat): (z: seq<byte>)
    ensures |z| == n
  {
    seq(n, _ => 0)
  }

  /** Content C after DATA is written at OFFSET: a gap past the end reads as zeros. */
  ghost function Written(c: seq<byte>, offset: nat, data: seq<byte>): (r: seq<byte>)
    ensures |r| == if offset + |data| <= |c| then |c| else offset + |data|
  {
    seq(if offset + |data| <= |c| then |c| else offset + |data|, k =>
      if offset <= k < offset + |data| then data[k - offset] else if 0 <= k < |c| then c[k] else 0)
  }

  /** Up to SIZE bytes of C from OFFSET on. */
  function ReadFrom(c: seq<byte>, offset: nat, size: nat): (r: seq<byte>)
    ensures |r| == if offset >= |c| then 0 else if offset + size <= |c| then size else |c| - offset
  {
    if offset >= |c| then [] else if offset + size <= |c| then c[offset..offset + size] else c[offset..]
  }

  /** C extended with zeros to N bytes. */
  ghost function Padded(c: seq<byte>, n: nat): (r: seq<byte>)
    ensures |r| == if n <= |c| then |c| else n
  {
    if n <= |c| then c else c + Zeros(n - |c|)
  }

  lemma FileOf(st: Fs, h: sector)
    requires h in st.data
    ensures h in Files(st) && Files(st)[h] == Content(st, h) && Files(st) == Files(st)[h := Content(st, h)]
  {
  }

  // ---- Frames ----

  /** Nothing that belongs to an inode other than H differs between FS and FS'. */
  ghost predicate Framed(fs: Fs, own: Owners, fs': Fs, h: sector) {
    && |fs'.view| == |fs.view|
    && (forall s :: s in own && own[s].inode != h ==> s < |fs.view| && fs'.view[s] == fs.view[s])
    && (forall g :: g in fs.data && g != h ==>
          && g in fs'.data && fs'.data[g] == fs.data[g]
          && (fs.data[g].indirect != 0 && fs.data[g].indirect in fs.tables ==>
                fs.data[g].indirect in fs'.tables && fs'.tables[fs.data[g].indirect] == fs.tables[fs.data[g].indirect]))
  }

  lemma FrameInode(fs: Fs, own: Owners, fs': Fs, own': Owners, h: sector, g: sector)
    requires Core(fs, own) && Framed(fs, own, fs', h) && g in fs.data && g != h
    requires WellFormed(fs'.view) && forall s :: s in own' ==> s < |fs'.view|
    requires forall s :: s in own && own[s].inode != h ==> s in own' && own'[s] == own[s]
    ensures InodeOk(fs', own', g)
    ensures Secs(fs'.tables, fs'.data[g]) == Secs(fs.tables, fs.data[g])
    ensures Flat(fs'.view, Secs(fs'.tables, fs'.data[g])) == Flat(fs.view, Secs(fs.tables, fs.data[g]))
  {
    assert InodeOk(fs, own, g);
    FlatFrame(fs.view, fs'.view, Secs(fs.tables, fs.data[g]));
  }

  ghost predicate TablesDistinct(data: map<sector, InodeDisk>) {
    forall g, h :: g in data && h in data && g != h && data[g].indirect != 0 ==> data[g].indirect != data[h].indirect
  }

  /** The new table of H, if any, is H's old one or fresh memory. */
  ghost predicate TableFresh(fs: Fs, fs': Fs, h: sector)
    requires h in fs'.data
  {
    || fs'.data[h].indirect == 0
    || (h in fs.data && fs.data[h].indirect == fs'.data[h].indirect)
    || fs'.data[h].indirect !in fs.tables
  }

  lemma FrameTables(fs: Fs, own: Owners, fs': Fs, h: sector)
    requires Core(fs, own) && Framed(fs, own, fs', h)
    requires h in fs'.data && fs'.data.Keys == fs.data.Keys + {h} && TableFresh(fs, fs', h)
    ensures TablesDistinct(fs'.data)
  {
    hide Core;
    TablesThere(fs, own);
  }

  /** Indirect tables are in memory, and no two inodes share one. */
  lemma TablesThere(fs: Fs, own: Owners)
    requires Core(fs, own)
    ensures TablesDistinct(fs.data)
    ensures forall g :: g in fs.data && fs.data[g].indirect != 0 ==> fs.data[g].indirect in fs.tables
  {
    hide Flat, ZeroFrom, SecsOwned, Sectors;
    forall g | g in fs.data && fs.data[g].indirect != 0 ensures fs.data[g].indirect in fs.tables {
      assert InodeOk(fs, own, g);
    }
  }

  /** Everything the frame lemmas below need to know about a step that touches inode H. */
  ghost predicate StepOn(fs: Fs, own: Owners, fs': Fs, own': Owners, h: sector) {
    && Core(fs, own) && Framed(fs, own, fs', h)
    && WellFormed(fs'.view) && |fs'.used| == |fs'.view|
    && (forall s :: s in own' ==> s + 1 < |fs'.view| && fs'.used[s])
    && (forall s :: s in own && own[s].inode != h ==> s in own' && own'[s] == own[s])
    && h in fs'.data && fs'.data.Keys == fs.data.Keys + {h} && InodeOk(fs', own', h)
    && TableFresh(fs, fs', h)
  }

  /** If only inode H changed, and H is in order, the whole file system is. */
  lemma FrameCore(fs: Fs, own: Owners, fs': Fs, own': Owners, h: sector)
    requires StepOn(fs, own, fs', own', h)
    ensures Core(fs', own')
  {
    FrameTables(fs, own, fs', h);
    forall g | g in fs'.data && g != h ensures InodeOk(fs', own', g) {
      FrameInode(fs, own, fs', own', h, g);
    }
  }

  lemma ContentFrame(fs: Fs, own: Owners, fs': Fs, own': Owners, h: sector, g: sector)
    requires StepOn(fs, own, fs', own', h) && Core(fs', own') && g in fs.data && g != h
    ensures g in fs'.data && Content(fs', g) == Content(fs, g)
  {
    FrameInode(fs, own, fs', own', h, g);
  }

  lemma UpdatedMap<K, V>(a: map<K, V>, b: map<K, V>, k: K)
    requires k in b && b.Keys == a.Keys + {k} && forall x :: x in a && x != k ==> b[x] == a[x]
    ensures b == a[k := b[k]]
  {
  }

  lemma FilesUpdate(fs: Fs, fs': Fs, h: sector)
    requires h in fs'.data && fs'.data.Keys == fs.data.Keys + {h}
    requires forall g :: g in fs.data && g != h ==> Content(fs', g) == Content(fs, g)
    ensures Files(fs') == Files(fs)[h := Content(fs', h)]
  {
    UpdatedMap(Files(fs), Files(fs'), h);
  }

  /** If only inode H changed, every other file has its old content. */
  lemma FrameFiles(fs: Fs, own: Owners, fs': Fs, own': Owners, h: sector)
    requires StepOn(fs, own, fs', own', h)
    ensures Core(fs', own') && Files(fs') == Files(fs)[h := Content(fs', h)]
  {
    FrameCore(fs, own, fs', own', h);
    forall g | g in fs.data && g != h ensures Content(fs', g) == Content(fs, g) {
      ContentFrame(fs, own, fs', own', h, g);
    }
    FilesUpdate(fs, fs', h);
  }

  // ---- Single steps of growth ----

  /** A sector nobody owns is taken for data sector SLOT of inode H and filled with BYTES. */
  lemma TakeSector(fs: Fs, own: Owners, s: sector, u: Use, bytes: seq<byte>)
    requires Core(fs, own) && s !in own && s + 1 < |fs.view| && IsSector(bytes)
    ensures var fs' := fs.(view := fs.view[s := bytes], used := fs.used[s := true]);
            Core(fs', own[s := u]) && Files(fs') == Files(fs)
  {
    var fs', own' := fs.(view := fs.view[s := bytes], used := fs.used[s := true]), own[s := u];
    forall h | h in fs'.data ensures InodeOk(fs', own', h) && Content(fs', h) == Content(fs, h) {
      TakeElsewhere(fs, own, s, u, bytes, h);
    }
  }

  lemma TakeElsewhere(fs: Fs, own: Owners, s: sector, u: Use, bytes: seq<byte>, h: sector)
    requires Core(fs, own) && s !in own && s + 1 < |fs.view| && IsSector(bytes) && h in fs.data
    ensures var fs' := fs.(view := fs.view[s := bytes], used := fs.used[s := true]);
            InodeOk(fs', own[s := u], h) && Content(fs', h) == Content(fs, h)
  {
    assert InodeOk(fs, own, h);
    FlatFrame(fs.view, fs.view[s := bytes], Secs(fs.tables, fs.data[h]));
  }
}
