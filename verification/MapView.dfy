/**
 The free map's own file, which every call that takes or releases a sector rewrites, set apart from the
 other files: a view in which its data sectors are blank shows everything else.
 */
module MapView {
  import opened Disk
  import opened Bits
  import opened FileLayout
  import FreeMaps

  /** The inode of the free map's file. */
  const MAP: sector := FreeMaps.FREE_MAP_SECTOR

  /** VIEW with the sectors SECS blanked out. */
  ghost function Masked(view: seq<seq<byte>>, secs: seq<sector>): (r: seq<seq<byte>>)
    ensures |r| == |view|
  {
    seq(|view|, s requires 0 <= s < |view| => if s in secs then Blank() else view[s])
  }

  /** SECS are different sectors in use, none of them the last. */
  ghost predicate Apart(secs: seq<sector>, used: seq<bool>) {
    && (forall i :: 0 <= i < |secs| ==> secs[i] + 1 < |used| && used[secs[i]])
    && forall i, j :: 0 <= i < |secs| && 0 <= j < |secs| && secs[i] == secs[j] ==> i == j
  }

  /** The sectors SECS hold FILE, and zeros after it. */
  ghost predicate Holds(view: seq<seq<byte>>, secs: seq<sector>, file: seq<byte>) {
    && WellFormed(view) && (forall i :: 0 <= i < |secs| ==> secs[i] < |view|)
    && |file| <= SECTOR_SIZE * |secs| && Flat(view, secs) == Padded(file, SECTOR_SIZE * |secs|)
  }

  /** The sectors SECS hold the first POS bytes of IMAGE, and zeros from its end on. */
  ghost predicate HoldsTo(view: seq<seq<byte>>, secs: seq<sector>, image: seq<byte>, pos: nat) {
    && WellFormed(view) && (forall i :: 0 <= i < |secs| ==> secs[i] < |view|)
    && pos <= |image| <= SECTOR_SIZE * |secs|
    && ZeroFrom(Flat(view, secs), |image|) && Flat(view, secs)[..pos] == image[..pos]
  }

  lemma HoldsStart(view: seq<seq<byte>>, secs: seq<sector>, file: seq<byte>, image: seq<byte>)
    requires Holds(view, secs, file) && |file| == |image|
    ensures HoldsTo(view, secs, image, 0)
  {
  }

  lemma HoldsEnd(view: seq<seq<byte>>, secs: seq<sector>, image: seq<byte>)
    requires HoldsTo(view, secs, image, |image|)
    ensures Holds(view, secs, image)
  {
    var f, n := Flat(view, secs), |image|;
    forall k | 0 <= k < |f| ensures f[k] == Padded(image, |f|)[k] {
      if k < n {
        assert f[..n][k] == image[k];
      }
    }
  }

  /** A chunk of the image that starts a sector goes to that sector, and no other sector changes. */
  lemma HoldsMore(view: seq<seq<byte>>, secs: seq<sector>, image: seq<byte>, pos: nat, chunk: nat)
    requires HoldsTo(view, secs, image, pos) && pos % SECTOR_SIZE == 0 && 0 < chunk <= SECTOR_SIZE
    requires pos + chunk <= |image|
    requires forall i, j :: 0 <= i < |secs| && 0 <= j < |secs| && secs[i] == secs[j] ==> i == j
    ensures pos / SECTOR_SIZE < |secs|
    ensures var s := secs[pos / SECTOR_SIZE];
            && s < |view| && IsSector(view[s])
            && var view' := view[s := Patch(view[s], 0, image[pos..pos + chunk])];
               HoldsTo(view', secs, image, pos + chunk) && Masked(view', secs) == Masked(view, secs)
  {
    hide Flat;
    var q := pos / SECTOR_SIZE;
    assert SECTOR_SIZE * q == pos;
    var s, data := secs[q], image[pos..pos + chunk];
    FlatPatch(view, secs, q, 0, data);
    var view' := view[s := Patch(view[s], 0, data)];
    var f, f' := Flat(view, secs), Flat(view', secs);
    forall k | 0 <= k < pos + chunk ensures f'[k] == image[k] {
      if k < pos {
        assert f[..pos][k] == image[..pos][k];
      }
    }
    assert f'[..pos + chunk] == image[..pos + chunk];
  }

  lemma MaskedElsewhere(view: seq<seq<byte>>, secs: seq<sector>, s: sector, bytes: seq<byte>)
    requires s < |view| && s !in secs
    ensures Masked(view[s := bytes], secs) == Masked(view, secs)[s := bytes] && Masked(view, secs)[s] == view[s]
  {
  }

  lemma HoldsElsewhere(view: seq<seq<byte>>, secs: seq<sector>, file: seq<byte>, s: sector, bytes: seq<byte>)
    requires Holds(view, secs, file) && s < |view| && s !in secs && IsSector(bytes)
    ensures Holds(view[s := bytes], secs, file)
  {
    FlatFrame(view, view[s := bytes], secs);
  }

  lemma MaskedNone(view: seq<seq<byte>>)
    ensures Masked(view, []) == view
  {
  }

  /** FS is the whole file system, in which the map file's sectors hold FILE. */
  ghost predicate MapHeld(fs: Fs, own: Owners, file: seq<byte>) {
    && MAP in fs.data && DataOk(fs.tables, fs.data[MAP]) && |file| == fs.data[MAP].length
    && Holds(fs.view, Secs(fs.tables, fs.data[MAP]), file)
    && Core(fs.(view := Masked(fs.view, Secs(fs.tables, fs.data[MAP]))), own)
  }

  /** The whole file system is in order, and has the file of the map and otherwise the files that are seen
      with the map file blank. */
  lemma WholeFiles(fs: Fs, own: Owners, file: seq<byte>)
    requires MapHeld(fs, own, file)
    ensures var fs1 := fs.(view := Masked(fs.view, Secs(fs.tables, fs.data[MAP])));
            && Core(fs, own) && Files(fs) == Files(fs1)[MAP := file]
            && forall h :: h in fs.data && h != MAP ==> Content(fs, h) == Content(fs1, h)
  {
    hide Core, StepOn, Holds, Masked, Content;
    var fs1 := fs.(view := Masked(fs.view, Secs(fs.tables, fs.data[MAP])));
    WholeStep(fs, own, file);
    FrameFiles(fs1, own, fs, own, MAP);
    assert fs1.data == fs.data;
    forall h | h in fs.data && h != MAP ensures Content(fs, h) == Content(fs1, h) {
      FileOf(fs, h);
      FileOf(fs1, h);
    }
  }

  lemma WholeStep(fs: Fs, own: Owners, file: seq<byte>)
    requires MapHeld(fs, own, file)
    ensures var fs1 := fs.(view := Masked(fs.view, Secs(fs.tables, fs.data[MAP])));
            StepOn(fs1, own, fs, own, MAP) && Content(fs, MAP) == file
  {
    hide Flat, Sectors;
    var secs := Secs(fs.tables, fs.data[MAP]);
    var fs1 := fs.(view := Masked(fs.view, secs));
    assert InodeOk(fs1, own, MAP);
    forall s | s in own && own[s].inode != MAP ensures s !in secs {
    }
    assert Framed(fs1, own, fs, MAP);
    SectorsBounds(fs.data[MAP].length);
    assert InodeOk(fs, own, MAP);
    assert Padded(file, SECTOR_SIZE * |secs|)[..|file|] == file;
  }

  /** A sector that another inode owns is not one of the map file. */
  lemma NotOfMap(own: Owners, secs: seq<sector>, s: sector)
    requires SecsOwned(own, MAP, secs, 0) && s in own && (own[s].inode != MAP || own[s].slot < 0)
    ensures s !in secs
  {
  }

  /** Headers are outside the data sectors of the map file. */
  lemma WholeHeaders(fs: Fs, own: Owners, file: seq<byte>, but: set<sector>)
    requires MapHeld(fs, own, file)
    ensures AllHeaders(fs.(view := Masked(fs.view, Secs(fs.tables, fs.data[MAP]))), but) <==> AllHeaders(fs, but)
  {
    var secs := Secs(fs.tables, fs.data[MAP]);
    var fs1 := fs.(view := Masked(fs.view, secs));
    assert InodeOk(fs1, own, MAP);
    forall g | g in fs.data ensures HeaderAt(fs1, g) <==> HeaderAt(fs, g) {
      assert InodeOk(fs1, own, g);
      NotOfMap(own, secs, g);
    }
  }
}
