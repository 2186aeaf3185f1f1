/** Bytes, little-endian 32-bit words, and the rounding division of lib/utility.h. */
module Bytes {
  type byte = bv8

  function DivRoundUp(n: nat, s: nat): (q: nat)
    requires s > 0
    ensures q * s >= n && (n > 0 ==> (q - 1) * s < n) && (n == 0 ==> q == 0)
  {
    n / s + if n % s > 0 then 1 else 0
  }

  function Min(a: int, b: int): int { if a < b then a else b }

  /** Byte k of a word, least significant first. */
  function ByteOf(w: bv32, k: nat): byte
    requires k < 4
  {
    if k == 0 then (w & 0xff) as byte
    else if k == 1 then ((w >> 8) & 0xff) as byte
    else if k == 2 then ((w >> 16) & 0xff) as byte
    else ((w >> 24) & 0xff) as byte
  }

  function WordOf(b0: byte, b1: byte, b2: byte, b3: byte): (w: bv32)
    ensures ByteOf(w, 0) == b0 && ByteOf(w, 1) == b1 && ByteOf(w, 2) == b2 && ByteOf(w, 3) == b3
  {
    (b0 as bv32) | ((b1 as bv32) << 8) | ((b2 as bv32) << 16) | ((b3 as bv32) << 24)
  }

  /** A word is determined by its bytes. */
  lemma WordBytes(w: bv32)
    ensures WordOf(ByteOf(w, 0), ByteOf(w, 1), ByteOf(w, 2), ByteOf(w, 3)) == w
  {
  }

  /** An array of words as the bytes a C cast to `char *` shows. */
  function Encode(ws: seq<bv32>): (bs: seq<byte>)
    ensures |bs| == 4 * |ws|
  {
    seq(4 * |ws|, i requires 0 <= i < 4 * |ws| => ByteOf(ws[i / 4], i % 4))
  }

  function WordAt(bs: seq<byte>, i: nat): bv32
    requires 4 * i + 3 < |bs|
  {
    WordOf(bs[4 * i], bs[4 * i + 1], bs[4 * i + 2], bs[4 * i + 3])
  }

  function Decode(bs: seq<byte>): (ws: seq<bv32>)
    ensures |ws| == |bs| / 4
  {
    seq(|bs| / 4, i requires 0 <= i < |bs| / 4 => WordAt(bs, i))
  }

  lemma EncodeAt(ws: seq<bv32>, i: nat, k: nat)
    requires i < |ws| && k < 4
    ensures Encode(ws)[4 * i + k] == ByteOf(ws[i], k)
  {
    hide ByteOf;
    assert (4 * i + k) / 4 == i && (4 * i + k) % 4 == k;
  }

  /** Writing an array of words byte by byte and reading it back gives it back. */
  lemma DecodeEncode(ws: seq<bv32>)
    ensures Decode(Encode(ws)) == ws
  {
    hide WordOf, ByteOf, Encode;
    forall i | 0 <= i < |ws| ensures WordAt(Encode(ws), i) == ws[i] {
      EncodeAt(ws, i, 0);
      EncodeAt(ws, i, 1);
      EncodeAt(ws, i, 2);
      EncodeAt(ws, i, 3);
      WordBytes(ws[i]);
    }
  }

  // ---- the same for arrays of C ints, which are never negative where this is used ----

  type uint32 = x: int | 0 <= x < 0x1_0000_0000

  // A byte and its value, bit by bit.

  function Bit(b: byte, mask: byte): int { if b & mask == 0 then 0 else 1 }

  function BitsByte(b0: int, b1: int, b2: int, b3: int, b4: int, b5: int, b6: int, b7: int): byte {
    (if b0 == 0 then 0 else 0x01) | (if b1 == 0 then 0 else 0x02) | (if b2 == 0 then 0 else 0x04) |
    (if b3 == 0 then 0 else 0x08) | (if b4 == 0 then 0 else 0x10) | (if b5 == 0 then 0 else 0x20) |
    (if b6 == 0 then 0 else 0x40) | (if b7 == 0 then 0 else 0x80)
  }

  function BitsValue(b0: int, b1: int, b2: int, b3: int, b4: int, b5: int, b6: int, b7: int): int {
    b0 + 2 * (b1 + 2 * (b2 + 2 * (b3 + 2 * (b4 + 2 * (b5 + 2 * (b6 + 2 * b7))))))
  }

  lemma BitsByteBits(b0: int, b1: int, b2: int, b3: int, b4: int, b5: int, b6: int, b7: int)
    requires 0 <= b0 <= 1 && 0 <= b1 <= 1 && 0 <= b2 <= 1 && 0 <= b3 <= 1
    requires 0 <= b4 <= 1 && 0 <= b5 <= 1 && 0 <= b6 <= 1 && 0 <= b7 <= 1
    ensures var b := BitsByte(b0, b1, b2, b3, b4, b5, b6, b7);
            && b0 == Bit(b, 0x01) && b1 == Bit(b, 0x02) && b2 == Bit(b, 0x04) && b3 == Bit(b, 0x08)
            && b4 == Bit(b, 0x10) && b5 == Bit(b, 0x20) && b6 == Bit(b, 0x40) && b7 == Bit(b, 0x80)
  {
  }

  /** The byte with a given value. */
  function ToByte(n: int): byte
    requires 0 <= n < 256
  {
    var n1 := n / 2;
    var n2 := n1 / 2;
    var n3 := n2 / 2;
    var n4 := n3 / 2;
    var n5 := n4 / 2;
    var n6 := n5 / 2;
    BitsByte(n % 2, n1 % 2, n2 % 2, n3 % 2, n4 % 2, n5 % 2, n6 % 2, n6 / 2)
  }

  /** The value of a byte. */
  function FromByte(b: byte): (n: int)
    ensures 0 <= n < 256
  {
    BitsValue(Bit(b, 0x01), Bit(b, 0x02), Bit(b, 0x04), Bit(b, 0x08),
              Bit(b, 0x10), Bit(b, 0x20), Bit(b, 0x40), Bit(b, 0x80))
  }

  /** The value is the number the bits stand for. */
  lemma ByteIsNumber(b: byte)
    ensures FromByte(b) == b as int
  {
  }

  lemma FromToByte(n: int)
    requires 0 <= n < 256
    ensures FromByte(ToByte(n)) == n
  {
    hide BitsByte, Bit;
    var n1 := n / 2;
    var n2 := n1 / 2;
    var n3 := n2 / 2;
    var n4 := n3 / 2;
    var n5 := n4 / 2;
    var n6 := n5 / 2;
    BitsByteBits(n % 2, n1 % 2, n2 % 2, n3 % 2, n4 % 2, n5 % 2, n6 % 2, n6 / 2);
  }

  function IntBytes(n: uint32): (bs: seq<byte>)
    ensures |bs| == 4
  {
    [ToByte(n % 256), ToByte(n / 256 % 256), ToByte(n / 256 / 256 % 256), ToByte(n / 256 / 256 / 256)]
  }

  function IntOf(b0: byte, b1: byte, b2: byte, b3: byte): uint32 {
    FromByte(b0) + 256 * (FromByte(b1) + 256 * (FromByte(b2) + 256 * FromByte(b3)))
  }

  /** The number a word stands for, unsigned. */
  function Number(w: bv32): uint32 { IntOf(ByteOf(w, 0), ByteOf(w, 1), ByteOf(w, 2), ByteOf(w, 3)) }

  lemma IntRoundTrip(n: uint32)
    ensures var bs := IntBytes(n); IntOf(bs[0], bs[1], bs[2], bs[3]) == n
  {
    hide ToByte, FromByte;
    FromToByte(n % 256);
    FromToByte(n / 256 % 256);
    FromToByte(n / 256 / 256 % 256);
    FromToByte(n / 256 / 256 / 256);
  }

  function EncodeInts(ns: seq<uint32>): (bs: seq<byte>)
    ensures |bs| == 4 * |ns|
  {
    seq(4 * |ns|, i requires 0 <= i < 4 * |ns| => IntBytes(ns[i / 4])[i % 4])
  }

  function IntAt(bs: seq<byte>, i: nat): uint32
    requires 4 * i + 3 < |bs|
  {
    IntOf(bs[4 * i], bs[4 * i + 1], bs[4 * i + 2], bs[4 * i + 3])
  }

  function DecodeInts(bs: seq<byte>): (ns: seq<uint32>)
    ensures |ns| == |bs| / 4
  {
    seq(|bs| / 4, i requires 0 <= i < |bs| / 4 => IntAt(bs, i))
  }

  lemma EncodeIntAt(ns: seq<uint32>, i: nat, k: nat)
    requires i < |ns| && k < 4
    ensures EncodeInts(ns)[4 * i + k] == IntBytes(ns[i])[k]
  {
    hide IntBytes;
    assert (4 * i + k) / 4 == i && (4 * i + k) % 4 == k;
  }

  lemma DecodeEncodeInts(ns: seq<uint32>)
    ensures DecodeInts(EncodeInts(ns)) == ns
  {
    hide IntBytes, IntOf, EncodeInts;
    forall i | 0 <= i < |ns| ensures IntAt(EncodeInts(ns), i) == ns[i] {
      EncodeIntAt(ns, i, 0);
      EncodeIntAt(ns, i, 1);
      EncodeIntAt(ns, i, 2);
      EncodeIntAt(ns, i, 3);
      IntRoundTrip(ns[i]);
    }
  }
}
