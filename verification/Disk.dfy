/** The disk as the file system sees it: an array of 512-byte sectors. */
module Disk {
  const SECTOR_SIZE := 512

  type byte = b: int | 0 <= b < 256

  /** A buffer that holds exactly one sector. */
  predicate IsSector(s: seq<byte>) {
    |s| == SECTOR_SIZE
  }

  /** A sector of zeros. */
  function Blank(): (z: seq<byte>)
    ensures IsSector(z) && forall i :: 0 <= i < |z| ==> z[i] == 0
  {
    seq(SECTOR_SIZE, _ => 0)
  }

  /** Every sector of a disk holds 512 bytes. */
  ghost predicate WellFormed(disk: seq<seq<byte>>) {
    forall s :: 0 <= s < |disk| ==> IsSector(disk[s])
  }

  /** SECTOR with the bytes from OFFSET on overwritten by DATA. */
  function Patch(sector: seq<byte>, offset: nat, data: seq<byte>): (r: seq<byte>)
    requires offset + |data| <= |sector|
    ensures |r| == |sector|
    ensures forall k :: 0 <= k < |r| ==>
              r[k] == if offset <= k < offset + |data| then data[k - offset] else sector[k]
  {
    sector[..offset] + data + sector[offset + |data|..]
  }
}
