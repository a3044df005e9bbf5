/** Bytes, 64-bit words and the little-endian header that every fragment starts with. */
module Bytes {
  import opened Arithmetic

  type Byte = b: int | 0 <= b < 256

  const TWO_TO_THE_63: int := 0x8000_0000_0000_0000
  const TWO_TO_THE_64: int := 0x1_0000_0000_0000_0000

  type U64 = n: int | 0 <= n < TWO_TO_THE_64
  type I64 = n: int | -TWO_TO_THE_63 <= n < TWO_TO_THE_63

  /** The least significant `width` bytes of v, lowest first. */
  function ToLittleEndian(v: nat, width: nat): (bs: seq<Byte>)
    ensures |bs| == width
  {
    if width == 0 then [] else [v % 256] + ToLittleEndian(v / 256, width - 1)
  }

  function FromLittleEndian(bs: seq<Byte>): nat {
    if bs == [] then 0 else bs[0] + 256 * FromLittleEndian(bs[1..])
  }

  function Pow256(width: nat): nat {
    if width == 0 then 1 else 256 * Pow256(width - 1)
  }

  /** Decoding undoes encoding for every value that fits. */
  lemma {:induction false} DecodeEncode(v: nat, width: nat)
    requires v < Pow256(width)
    ensures FromLittleEndian(ToLittleEndian(v, width)) == v
  {
    if width > 0 {
      DecodeEncode(v / 256, width - 1);
      assert ToLittleEndian(v, width)[1..] == ToLittleEndian(v / 256, width - 1);
    }
  }

  /** Encoding undoes decoding for every byte string. */
  lemma {:induction false} EncodeDecode(bs: seq<Byte>)
    ensures FromLittleEndian(bs) < Pow256(|bs|)
    ensures ToLittleEndian(FromLittleEndian(bs), |bs|) == bs
  {
    if bs != [] {
      EncodeDecode(bs[1..]);
      DivisionIsUnique(FromLittleEndian(bs), 256, FromLittleEndian(bs[1..]), bs[0]);
      assert bs == [bs[0]] + bs[1..];
    }
  }

  /** Byte j of the encoding is digit j of the number to the base 256. */
  lemma {:induction false} DigitOfWord(v: nat, width: nat, j: nat)
    requires j < width
    ensures Pow256(j) > 0 && ToLittleEndian(v, width)[j] == v / Pow256(j) % 256
  {
    if j > 0 {
      DigitOfWord(v / 256, width - 1, j - 1);
      assert ToLittleEndian(v, width)[j] == ToLittleEndian(v / 256, width - 1)[j - 1];
      DividedTwice(v, 256, Pow256(j - 1));
    }
  }

  lemma Word64(v: U64)
    ensures FromLittleEndian(ToLittleEndian(v, 8)) == v
  {
    assert Pow256(8) == TWO_TO_THE_64 by {
      assert Pow256(4) == 0x1_0000_0000;
      assert Pow256(8) == 256 * (256 * (256 * (256 * Pow256(4))));
    }
    DecodeEncode(v, 8);
  }

  /** An eight-byte header holds a 64-bit word. */
  lemma Header64(bs: seq<Byte>)
    requires |bs| == 8
    ensures FromLittleEndian(bs) < TWO_TO_THE_64
  {
    EncodeDecode(bs);
    assert Pow256(4) == 0x1_0000_0000;
    assert Pow256(8) == 256 * (256 * (256 * (256 * Pow256(4))));
  }

  /** The two's complement readings of one 64-bit pattern. */
  function AsSigned(u: U64): I64 {
    if u < TWO_TO_THE_63 then u else u - TWO_TO_THE_64
  }

  function AsUnsigned(i: I64): U64 {
    if 0 <= i then i else i + TWO_TO_THE_64
  }

  /** The unsigned reading of i is the one 64-bit number that differs from it by a multiple of
      2^64, and the two readings undo each other. */
  lemma UnsignedIsCongruent(i: I64, u: int)
    requires 0 <= u < 0x1_0000_0000_0000_0000
    ensures (u - i) % 0x1_0000_0000_0000_0000 == 0 <==> u == AsUnsigned(i)
    ensures AsSigned(AsUnsigned(i)) == i
  {
  }

  lemma SignedIsCongruent(u: U64, i: int)
    requires -0x8000_0000_0000_0000 <= i < 0x8000_0000_0000_0000
    ensures (u - i) % 0x1_0000_0000_0000_0000 == 0 <==> i == AsSigned(u)
    ensures AsUnsigned(AsSigned(u)) == u
  {
  }

  /** The eight-byte field of `data` that starts at `offset`. */
  function Word(data: seq<Byte>, offset: nat): (w: U64)
    requires offset + 8 <= |data|
  {
    Header64(data[offset..offset + 8]);
    FromLittleEndian(data[offset..offset + 8])
  }

  lemma LeastFirst(w: seq<Byte>, i: nat)
    requires i < |w|
    ensures FromLittleEndian(w[i..]) == w[i] + 256 * FromLittleEndian(w[i + 1..])
  {
    assert w[i..][1..] == w[i + 1..];
  }

  /** The first byte of a word is the least significant one. */
  lemma WordIsLittleEndian(data: seq<Byte>, o: nat)
    requires o + 8 <= |data|
    ensures Word(data, o) ==
            (data[o] as int) + 0x100 * (data[o + 1] as int)
            + 0x1_0000 * (data[o + 2] as int) + 0x100_0000 * (data[o + 3] as int)
            + 0x1_0000_0000 * (data[o + 4] as int) + 0x100_0000_0000 * (data[o + 5] as int)
            + 0x1_0000_0000_0000 * (data[o + 6] as int) + 0x100_0000_0000_0000 * (data[o + 7] as int)
  {
    var w := data[o..o + 8];
    assert w[0..] == w && w[8..] == [];
    LeastFirst(w, 7);
    LeastFirst(w, 6);
    LeastFirst(w, 5);
    LeastFirst(w, 4);
    LeastFirst(w, 3);
    LeastFirst(w, 2);
    LeastFirst(w, 1);
    LeastFirst(w, 0);
  }
}
