/** Little-endian layout of 32-bit words in bytes, as memory and disk sectors hold them. */
module Words {
  import opened Disk
  import opened Bits

  function WordBytes(w: word): (bs: seq<byte>)
    ensures |bs| == 4
  {
    [w % 256, w / 256 % 256, w / 0x1_0000 % 256, w / 0x100_0000]
  }

  function BytesWord(bs: seq<byte>): word
    requires |bs| == 4
  {
    (bs[0] as int) + 256 * (bs[1] as int) + 0x1_0000 * (bs[2] as int) + 0x100_0000 * (bs[3] as int)
  }

  function Bytes(ws: seq<word>): (bs: seq<byte>)
    ensures |bs| == 4 * |ws|
  {
    if ws == [] then [] else WordBytes(ws[0]) + Bytes(ws[1..])
  }

  function FromBytes(bs: seq<byte>): (ws: seq<word>)
    requires |bs| % 4 == 0
    ensures |bs| == 4 * |ws|
  {
    if bs == [] then [] else [BytesWord(bs[..4])] + FromBytes(bs[4..])
  }

  lemma WordRoundTrip(w: word)
    ensures BytesWord(WordBytes(w)) == w
  {
    assert w / 256 / 256 == w / 0x1_0000;
    assert w / 0x1_0000 / 256 == w / 0x100_0000;
  }

  lemma {:induction false} RoundTrip(ws: seq<word>)
    ensures FromBytes(Bytes(ws)) == ws
  {
    if ws != [] {
      WordRoundTrip(ws[0]);
      RoundTrip(ws[1..]);
      assert Bytes(ws)[..4] == WordBytes(ws[0]);
      assert Bytes(ws)[4..] == Bytes(ws[1..]);
    }
  }

  lemma WordRoundTripBack(bs: seq<byte>)
    requires |bs| == 4
    ensures WordBytes(BytesWord(bs)) == bs
  {
    var b0: int, b1: int, b2: int, b3: int := bs[0], bs[1], bs[2], bs[3];
    var w := BytesWord(bs);
    assert w / 256 == b1 + 256 * b2 + 0x1_0000 * b3;
    assert w / 0x1_0000 == b2 + 256 * b3;
  }

  lemma {:induction false} RoundTripBack(bs: seq<byte>)
    requires |bs| % 4 == 0
    ensures Bytes(FromBytes(bs)) == bs
  {
    if bs != [] {
      WordRoundTripBack(bs[..4]);
      RoundTripBack(bs[4..]);
      assert FromBytes(bs)[1..] == FromBytes(bs[4..]);
    }
  }

  lemma {:induction false} BytesAt(ws: seq<word>, i: nat, q: nat)
    requires i < |ws| && q < 4
    ensures Bytes(ws)[4 * i + q] == WordBytes(ws[i])[q]
  {
    if i != 0 {
      BytesAt(ws[1..], i - 1, q);
      assert Bytes(ws)[4 * i + q] == Bytes(ws[1..])[4 * (i - 1) + q];
    }
  }

  /** Bit B of byte Q of a word is bit 8 * Q + B of the word. */
  lemma ByteBit(w: word, q: nat, b: nat)
    requires q < 4 && b < 8
    ensures Bit(WordBytes(w)[q], b) == Bit(w, 8 * q + b)
  {
    hide WordBytes, Shr, Bit, Pow2;
    Pow2Bytes();
    ByteIs(w, q);
    ShrBit(w, 8 * q, b);
    ModBit(Shr(w, 8 * q), 8, b);
  }

  lemma ByteIs(w: word, q: nat)
    requires q < 4
    ensures WordBytes(w)[q] == Shr(w, 8 * q) % 256
  {
    hide Shr, Pow2;
    Pow2Bytes();
    ShrIsDiv(w, 8 * q);
  }

  lemma Pow2Bytes()
    ensures Pow2(0) == 1 && Pow2(8) == 256 && Pow2(16) == 0x1_0000 && Pow2(24) == 0x100_0000
  {
    assert Pow2(4) == 16;
    Pow2Add(4, 4);
    Pow2Add(8, 8);
    Pow2Add(16, 8);
  }
}
