/** Bitmaps over 32-bit words (lib/kernel/bitmap.c). */
module Bitmaps {
  import opened Disk
  import opened Options
  import opened Bits
  import opened Words

  const ELEM_BITS := 32

  function ElemCnt(bitCnt: nat): nat {
    (bitCnt + ELEM_BITS - 1) / ELEM_BITS
  }

  function ByteCnt(bitCnt: nat): nat {
    4 * ElemCnt(bitCnt)
  }

  /** The bits of a word array, as the bitmap's clients see them. */
  ghost function BitsOf(ws: seq<word>, n: nat): (v: seq<bool>)
    requires n <= ELEM_BITS * |ws|
    ensures |v| == n
  {
    seq(n, i requires 0 <= i < n => Bit(ws[i / ELEM_BITS], i % ELEM_BITS))
  }

  /** V with CNT bits from START on set to VALUE. */
  ghost function SetRange(v: seq<bool>, start: nat, cnt: nat, value: bool): (r: seq<bool>)
    requires start + cnt <= |v|
    ensures |r| == |v|
  {
    seq(|v|, i requires 0 <= i < |v| => if start <= i < start + cnt then value else v[i])
  }

  /** CNT consecutive bits from I on all have VALUE. */
  ghost predicate Group(v: seq<bool>, i: nat, cnt: nat, value: bool) {
    i + cnt <= |v| && forall j :: i <= j < i + cnt ==> v[j] == value
  }

  /** I starts the first group of CNT bits with VALUE at or after START. */
  ghost predicate FirstGroup(v: seq<bool>, start: nat, cnt: nat, value: bool, i: nat) {
    start <= i && Group(v, i, cnt, value) && forall j :: start <= j < i ==> !Group(v, j, cnt, value)
  }

  /** How many bits are false: for a free map, how many sectors are free. */
  function FreeCount(used: seq<bool>): nat {
    if used == [] then 0 else (if used[0] then 0 else 1) + FreeCount(used[1..])
  }

  lemma {:induction false} FreeCountTake(used: seq<bool>, s: nat)
    requires s < |used| && !used[s]
    ensures FreeCount(used[s := true]) == FreeCount(used) - 1
  {
    if s != 0 {
      assert used[s := true][1..] == used[1..][s - 1 := true];
      FreeCountTake(used[1..], s - 1);
    } else {
      assert used[s := true][1..] == used[1..];
    }
  }

  lemma {:induction false} FreeExists(used: seq<bool>)
    requires FreeCount(used) > 0
    ensures exists i :: 0 <= i < |used| && !used[i]
  {
    if used[0] {
      FreeExists(used[1..]);
      var i :| 0 <= i < |used[1..]| && !used[1..][i];
      assert !used[i + 1];
    }
  }

  /** Writing one word changes one bit of the bitmap. */
  lemma SetBit(ws: seq<word>, n: nat, idx: nat, w: word, value: bool)
    requires n <= ELEM_BITS * |ws| && idx < n
    requires forall i :: 0 <= i < ELEM_BITS ==>
               Bit(w, i) == if i == idx % ELEM_BITS then value else Bit(ws[idx / ELEM_BITS], i)
    ensures BitsOf(ws[idx / ELEM_BITS := w], n) == BitsOf(ws, n)[idx := value]
  {
    var ws' := ws[idx / ELEM_BITS := w];
    forall i | 0 <= i < n ensures BitsOf(ws', n)[i] == BitsOf(ws, n)[idx := value][i] {
      assert i == ELEM_BITS * (i / ELEM_BITS) + i % ELEM_BITS;
      assert idx == ELEM_BITS * (idx / ELEM_BITS) + idx % ELEM_BITS;
      if i / ELEM_BITS == idx / ELEM_BITS {
        var k := i % ELEM_BITS;
        assert Bit(w, k) == if k == idx % ELEM_BITS then value else Bit(ws[idx / ELEM_BITS], k);
      }
    }
  }

  lemma MaskFits(k: nat)
    requires k < ELEM_BITS
    ensures Pow2(k) < B32
  {
    Pow2At32();
    Pow2Monotone(k, 31);
  }

  /** w | mask turns bit K on. */
  lemma MarkWord(w: word, k: nat)
    requires k < ELEM_BITS
    ensures Or(w, Pow2(k)) < B32
    ensures forall i :: 0 <= i < ELEM_BITS ==> Bit(Or(w, Pow2(k)), i) == if i == k then true else Bit(w, i)
  {
    Pow2At32();
    MaskFits(k);
    OrFits(w, Pow2(k), 32);
    forall i | 0 <= i < ELEM_BITS ensures Bit(Or(w, Pow2(k)), i) == (i == k || Bit(w, i)) {
      OrBit(w, Pow2(k), i);
      Pow2Bit(k, i);
    }
  }

  /** w & ~mask turns bit K off. */
  lemma ResetWord(w: word, k: nat)
    requires k < ELEM_BITS
    ensures Pow2(k) < B32 && And(w, Not(Pow2(k))) < B32
    ensures forall i :: 0 <= i < ELEM_BITS ==> Bit(And(w, Not(Pow2(k))), i) == if i == k then false else Bit(w, i)
  {
    Pow2At32();
    MaskFits(k);
    AndAtMost(w, Not(Pow2(k)));
    forall i | 0 <= i < ELEM_BITS ensures Bit(And(w, Not(Pow2(k))), i) == (i != k && Bit(w, i)) {
      AndBit(w, Not(Pow2(k)), i);
      ComplementBit(Pow2(k), 32, i);
      Pow2Bit(k, i);
    }
  }

  class Bitmap {
    const bitCnt: nat
    const bits: array<word>

    ghost predicate Valid() {
      bits.Length == ElemCnt(bitCnt)
    }

    ghost function Value(): (v: seq<bool>)
      reads bits
      requires Valid()
      ensures |v| == bitCnt
    {
      BitsOf(bits[..], bitCnt)
    }

    /** bitmap_create: the words come from malloc() with arbitrary content GARBAGE, and
        only the first BITCNT bits are cleared. */
    constructor (bitCnt: nat, garbage: nat -> word)
      ensures Valid() && fresh(bits) && this.bitCnt == bitCnt
      ensures Value() == seq(bitCnt, _ => false)
    {
      this.bitCnt := bitCnt;
      bits := new word[ElemCnt(bitCnt)](garbage);
      new;
      SetMultiple(0, bitCnt, false);
    }

    /** bitmap_test */
    method Test(idx: nat) returns (r: bool)
      requires Valid() && idx < bitCnt
      ensures r == Value()[idx]
    {
      TestMask(bits[idx / ELEM_BITS], idx % ELEM_BITS);
      r := And(bits[idx / ELEM_BITS], Pow2(idx % ELEM_BITS)) != 0;
    }

    /** bitmap_mark, bitmap_reset and bitmap_set */
    method Set(idx: nat, value: bool)
      requires Valid() && idx < bitCnt
      modifies bits
      ensures Value() == old(Value())[idx := value]
    {
      var e, k := idx / ELEM_BITS, idx % ELEM_BITS;
      var w: word;
      if value {
        MarkWord(bits[e], k);
        w := Or(bits[e], Pow2(k));
      } else {
        ResetWord(bits[e], k);
        w := And(bits[e], Not(Pow2(k)));
      }
      SetBit(bits[..], bitCnt, idx, w, value);
      bits[e] := w;
      assert bits[..] == old(bits[..])[e := w];
    }

    /** bitmap_set_multiple */
    method SetMultiple(start: nat, cnt: nat, value: bool)
      requires Valid() && start + cnt <= bitCnt
      modifies bits
      ensures Value() == SetRange(old(Value()), start, cnt, value)
    {
      var i := 0;
      while i < cnt
        invariant 0 <= i <= cnt
        invariant Value() == SetRange(old(Value()), start, i, value)
      {
        Set(start + i, value);
        i := i + 1;
      }
    }

    /** bitmap_contains */
    method Contains(start: nat, cnt: nat, value: bool) returns (r: bool)
      requires Valid() && start + cnt <= bitCnt
      ensures r == !Group(Value(), start, cnt, !value)
    {
      var i := 0;
      while i < cnt
        invariant 0 <= i <= cnt
        invariant Group(Value(), start, i, !value)
      {
        var t := Test(start + i);
        if t == value {
          return true;
        }
        i := i + 1;
      }
      r := false;
    }

    /** bitmap_scan; BITMAP_ERROR is None. */
    method Scan(start: nat, cnt: nat, value: bool) returns (r: Option<nat>)
      requires Valid() && start <= bitCnt
      ensures r.Some? ==> FirstGroup(Value(), start, cnt, value, r.value)
      ensures r.None? ==> forall j :: start <= j ==> !Group(Value(), j, cnt, value)
    {
      if cnt <= bitCnt {
        var last, i := bitCnt - cnt, start;
        while i <= last
          invariant start <= i
          invariant forall j :: start <= j < i ==> !Group(Value(), j, cnt, value)
        {
          var c := Contains(i, cnt, !value);
          if !c {
            return Some(i);
          }
          i := i + 1;
        }
      }
      r := None;
    }

    /** bitmap_scan_and_flip */
    method ScanAndFlip(start: nat, cnt: nat, value: bool) returns (r: Option<nat>)
      requires Valid() && start <= bitCnt
      modifies bits
      ensures r.Some? ==> FirstGroup(old(Value()), start, cnt, value, r.value)
                          && Value() == SetRange(old(Value()), r.value, cnt, !value)
      ensures r.None? ==> Value() == old(Value()) && forall j :: start <= j ==> !Group(Value(), j, cnt, value)
    {
      r := Scan(start, cnt, value);
      if r.Some? {
        SetMultiple(r.value, cnt, !value);
      }
    }

    /** The bytes that bitmap_write hands to the file. */
    function Image(): (bs: seq<byte>)
      reads bits
      requires Valid()
      ensures |bs| == ByteCnt(bitCnt)
    {
      Bytes(bits[..])
    }

    /** bitmap_read, when GOT is what file_read_at() delivers: it succeeds if the whole
        bitmap was read, and clears the bits past the end of the last word. */
    method Read(got: seq<byte>) returns (success: bool)
      requires Valid() && |got| <= ByteCnt(bitCnt)
      modifies bits
      ensures success <==> |got| == ByteCnt(bitCnt)
      ensures Value() == DecodeBits(got + old(Image())[|got|..], bitCnt)
      ensures forall i :: bitCnt <= i < ELEM_BITS * bits.Length ==> !Bit(bits[i / ELEM_BITS], i % ELEM_BITS)
    {
      success := true;
      if bitCnt > 0 {
        ghost var data := got + Image()[|got|..];
        var ws := FromBytes(got + Image()[|got|..]);
        RoundTripBack(data);
        ImageDecodes(ws, bitCnt);
        forall i | 0 <= i < bits.Length {
          bits[i] := ws[i];
        }
        assert bits[..] == ws;
        success := |got| == ByteCnt(bitCnt);
        var last := ElemCnt(bitCnt) - 1;
        LastMaskWord(ws[last], bitCnt);
        bits[last] := And(bits[last], LastMask(bitCnt));
        assert bits[..] == ws[last := And(ws[last], LastMask(bitCnt))];
        MaskedLast(ws, bitCnt);
      }
    }
  }

  /** last_mask: ones in the bits of the last word that the bitmap uses. */
  function LastMask(bitCnt: nat): nat {
    var lastBits := bitCnt % ELEM_BITS;
    if lastBits != 0 then Pow2(lastBits) - 1 else B32 - 1
  }

  lemma LastMaskWord(w: word, bitCnt: nat)
    ensures And(w, LastMask(bitCnt)) < B32
    ensures var used := if bitCnt % ELEM_BITS == 0 then ELEM_BITS else bitCnt % ELEM_BITS;
            forall i :: 0 <= i < ELEM_BITS ==> Bit(And(w, LastMask(bitCnt)), i) == (i < used && Bit(w, i))
  {
    AndAtMost(w, LastMask(bitCnt));
    Pow2At32();
    var used := if bitCnt % ELEM_BITS == 0 then ELEM_BITS else bitCnt % ELEM_BITS;
    forall i | 0 <= i < ELEM_BITS
      ensures Bit(And(w, LastMask(bitCnt)), i) == (i < used && Bit(w, i))
    {
      AndBit(w, LastMask(bitCnt), i);
      LowMaskBit(used, i);
    }
  }

  /** Masking the last word keeps the bitmap's own bits and clears the rest. */
  lemma MaskedLast(ws: seq<word>, bitCnt: nat)
    requires bitCnt > 0 && |ws| == ElemCnt(bitCnt)
    ensures And(ws[|ws| - 1], LastMask(bitCnt)) < B32
    ensures var ws' := ws[|ws| - 1 := And(ws[|ws| - 1], LastMask(bitCnt))];
            && BitsOf(ws', bitCnt) == BitsOf(ws, bitCnt)
            && forall i :: bitCnt <= i < ELEM_BITS * |ws| ==> !Bit(ws'[i / ELEM_BITS], i % ELEM_BITS)
  {
    var last := |ws| - 1;
    LastMaskWord(ws[last], bitCnt);
    var ws' := ws[last := And(ws[last], LastMask(bitCnt))];
    forall i | 0 <= i < bitCnt ensures Bit(ws'[i / ELEM_BITS], i % ELEM_BITS) == Bit(ws[i / ELEM_BITS], i % ELEM_BITS) {
    }
    forall i | bitCnt <= i < ELEM_BITS * |ws| ensures !Bit(ws'[i / ELEM_BITS], i % ELEM_BITS) {
    }
  }

  /** The image of a bitmap holds its bits, eight to a byte. */
  lemma ImageDecodes(ws: seq<word>, n: nat)
    requires n <= ELEM_BITS * |ws|
    ensures DecodeBits(Bytes(ws), n) == BitsOf(ws, n)
  {
    forall i | 0 <= i < n ensures DecodeBits(Bytes(ws), n)[i] == BitsOf(ws, n)[i] {
      ImageBit(ws, i);
    }
  }

  lemma ImageBit(ws: seq<word>, i: nat)
    requires i < ELEM_BITS * |ws|
    ensures Bit(Bytes(ws)[i / 8], i % 8) == Bit(ws[i / ELEM_BITS], i % ELEM_BITS)
  {
    var e, q, b := i / ELEM_BITS, i % ELEM_BITS / 8, i % 8;
    BytesAt(ws, e, q);
    ByteBit(ws[e], q, b);
    BitPosition(i);
  }

  lemma BitPosition(i: nat)
    ensures i / 8 == 4 * (i / ELEM_BITS) + i % ELEM_BITS / 8
    ensures i % ELEM_BITS == 8 * (i % ELEM_BITS / 8) + i % 8
  {
  }

  /** Bit I of a byte string: bit I % 8 of byte I / 8. */
  ghost function DecodeBits(data: seq<byte>, n: nat): (v: seq<bool>)
    requires n <= 8 * |data|
    ensures |v| == n
  {
    seq(n, i requires 0 <= i < n => Bit(data[i / 8], i % 8))
  }
}
