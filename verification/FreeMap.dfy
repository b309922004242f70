/**
 The free map (filesys/free-map.c): one bit per disk sector, kept in memory and in a
 file.  The file is its byte content; how many bytes a write to it manages is given by
 the environment.
 */
module FreeMaps {
  import opened Disk
  import opened Bits
  import opened Options
  import opened Bitmaps
  import FileLayout

  const FREE_MAP_SECTOR := 0
  const ROOT_DIR_SECTOR := 1

  /** A file whose first |DATA| bytes have been overwritten by DATA. */
  function Overwrite(file: seq<byte>, data: seq<byte>): seq<byte> {
    data + if |data| <= |file| then file[|data|..] else []
  }

  /** The file holds the bits V. */
  ghost predicate Decodes(file: seq<byte>, v: seq<bool>) {
    ByteCnt(|v|) <= |file| && DecodeBits(file, |v|) == v
  }

  /** The outcome of writing the first WRITTEN bytes of an image over a file. */
  lemma FullWriteDecodes(file: seq<byte>, ws: seq<word>, n: nat)
    requires |ws| == ElemCnt(n)
    ensures Decodes(Overwrite(file, Words.Bytes(ws)), BitsOf(ws, n))
  {
    ImageDecodes(ws, n);
    var f := Overwrite(file, Words.Bytes(ws));
    forall i | 0 <= i < n ensures DecodeBits(f, n)[i] == DecodeBits(Words.Bytes(ws), n)[i] {
    }
  }

  class FreeMap {
    const bitmap: Bitmap
    var file: seq<byte>
    var isOpen: bool

    ghost predicate Valid() {
      bitmap.Valid()
    }

    /** For each sector whether it is in use. */
    ghost function Used(): (v: seq<bool>)
      reads this, bitmap, bitmap.bits
      requires Valid()
      ensures |v| == bitmap.bitCnt
    {
      bitmap.Value()
    }

    ghost predicate Synced()
      reads this, bitmap, bitmap.bits
      requires Valid()
    {
      isOpen && Decodes(file, Used())
    }

    /** free_map_init */
    constructor (sectors: nat, garbage: nat -> word)
      requires sectors >= 2
      ensures Valid() && fresh(bitmap) && fresh(bitmap.bits) && bitmap.bitCnt == sectors && !isOpen
      ensures forall s :: 0 <= s < sectors ==> Used()[s] == (s == FREE_MAP_SECTOR || s == ROOT_DIR_SECTOR)
    {
      bitmap := new Bitmap(sectors, garbage);
      file, isOpen := [], false;
      new;
      bitmap.Set(FREE_MAP_SECTOR, true);
      bitmap.Set(ROOT_DIR_SECTOR, true);
    }

    /** bitmap_write to the map file, of which WRITTEN bytes reach the file. */
    method Save(written: nat) returns (success: bool)
      requires Valid() && isOpen && written <= ByteCnt(bitmap.bitCnt)
      modifies this`file
      ensures success <==> written == ByteCnt(bitmap.bitCnt)
      ensures success ==> Synced()
      ensures |file| == if written <= old(|file|) then old(|file|) else written
    {
      var image := bitmap.Image();
      FullWriteDecodes(file, bitmap.bits[..], bitmap.bitCnt);
      file := Overwrite(file, image[..written]);
      success := written == |image|;
      if success {
        assert image[..written] == image;
      }
    }

    /** free_map_allocate: the first run of CNT free sectors, now in use and recorded in
        the file; or nothing, with the map in memory as it was. */
    method Allocate(cnt: nat, written: nat) returns (r: Option<nat>)
      requires Valid() && written <= ByteCnt(bitmap.bitCnt)
      modifies this`file, bitmap.bits
      ensures r.Some? ==> FirstGroup(old(Used()), 0, cnt, false, r.value)
                          && Used() == SetRange(old(Used()), r.value, cnt, true)
                          && (isOpen ==> Synced())
      ensures r.None? ==> Used() == old(Used())
      ensures r.Some? <==> (exists i :: Group(old(Used()), i, cnt, false))
                           && (isOpen ==> written == ByteCnt(bitmap.bitCnt))
      ensures written <= old(|file|) ==> |file| == old(|file|)
    {
      r := bitmap.ScanAndFlip(0, cnt, false);
      if r.Some? {
        assert Group(old(Used()), r.value, cnt, false);
        if isOpen {
          var ok := Save(written);
          if !ok {
            bitmap.SetMultiple(r.value, cnt, false);
            assert Used() == old(Used());
            r := None;
          }
        }
      }
    }

    /** free_map_release */
    method Release(sector: nat, cnt: nat, written: nat)
      requires Valid() && isOpen && written <= ByteCnt(bitmap.bitCnt)
      requires Group(Used(), sector, cnt, true)
      modifies this`file, bitmap.bits
      ensures Used() == SetRange(old(Used()), sector, cnt, false)
      ensures written == ByteCnt(bitmap.bitCnt) ==> Synced()
      ensures written <= old(|file|) ==> |file| == old(|file|)
    {
      bitmap.SetMultiple(sector, cnt, false);
      var _ := Save(written);
    }

    /** free_map_open: false stands for the panic when the file is too short. */
    method Open() returns (success: bool)
      requires Valid()
      modifies this`isOpen, bitmap.bits
      ensures isOpen && (success <==> ByteCnt(bitmap.bitCnt) <= |file|)
      ensures success ==> Synced()
      ensures forall i :: bitmap.bitCnt <= i < ELEM_BITS * bitmap.bits.Length
                ==> !Bit(bitmap.bits[i / ELEM_BITS], i % ELEM_BITS)
    {
      isOpen := true;
      var size := ByteCnt(bitmap.bitCnt);
      var got := file[..if size <= |file| then size else |file|];
      success := bitmap.Read(got);
      if success {
        assert got + old(bitmap.Image())[|got|..] == got;
        forall i | 0 <= i < bitmap.bitCnt
          ensures DecodeBits(file, bitmap.bitCnt)[i] == DecodeBits(got, bitmap.bitCnt)[i]
        {
        }
      }
    }

    /** free_map_create: the map file gets its own sectors from the map while the file is still
        closed, and then records the map; false stands for a panic. */
    method Create(written: nat) returns (success: bool)
      requires Valid() && !isOpen && written <= ByteCnt(bitmap.bitCnt)
      modifies this, bitmap.bits
      ensures success ==> Synced()
      ensures success <==> && FileLayout.Sectors(ByteCnt(bitmap.bitCnt)) <= FreeCount(old(Used()))
                           && written == ByteCnt(bitmap.bitCnt)
      ensures forall s :: 0 <= s < bitmap.bitCnt && old(Used())[s] ==> Used()[s]
    {
      hide FreeCount;
      var i, sectors := 0, FileLayout.Sectors(ByteCnt(bitmap.bitCnt));
      while i < sectors
        invariant i <= sectors && !isOpen && FreeCount(Used()) == FreeCount(old(Used())) - i
        invariant forall s :: 0 <= s < bitmap.bitCnt && old(Used())[s] ==> Used()[s]
      {
        ghost var used := Used();
        var r := Allocate(1, written);
        if r.None? {
          if FreeCount(used) > 0 {
            FreeExists(used);
            ghost var k :| 0 <= k < |used| && !used[k];
            assert Group(used, k, 1, false);
          }
          return false;
        }
        assert Used() == used[r.value := true];
        FreeCountTake(used, r.value);
        i := i + 1;
      }
      file, isOpen := seq(ByteCnt(bitmap.bitCnt), _ => 0), true;
      success := Save(written);
    }
  }

  /** Closing the map file and opening it again gives back the bitmap. */
  method Reopen(fm: FreeMap) returns (success: bool)
    requires fm.Valid() && fm.Synced()
    modifies fm, fm.bitmap.bits
    ensures success && fm.Used() == old(fm.Used()) && fm.Synced()
  {
    fm.isOpen := false;
    success := fm.Open();
  }
}
