/**
 * Conversion between arrays of booleans and packed bytes
 * (`unpackBytes` and `packBytes`, src/ext/oblivc/ot.c:602-621).
 * Boolean number 8*i + j is bit j of byte i, least significant bit first.
 */
module Packing {
  import opened Bytes

  /** The byte whose bit m is v[m]. */
  function ByteOf(v: seq<bool>): (r: Byte)
    requires |v| == 8
  {
    (if v[0] then 1 else 0) | (if v[1] then 2 else 0) | (if v[2] then 4 else 0) | (if v[3] then 8 else 0)
    | (if v[4] then 16 else 0) | (if v[5] then 32 else 0) | (if v[6] then 64 else 0) | (if v[7] then 128 else 0)
  }

  lemma ByteBitOfByteOf(v: seq<bool>, m: nat)
    requires |v| == 8 && m < 8
    ensures ByteBit(ByteOf(v), m) == v[m]
  {
    var b0, b1, b2, b3, b4, b5, b6, b7 := v[0], v[1], v[2], v[3], v[4], v[5], v[6], v[7];
    assert ByteOf(v) == (if b0 then 1 else 0) | (if b1 then 2 else 0) | (if b2 then 4 else 0) | (if b3 then 8 else 0)
      | (if b4 then 16 else 0) | (if b5 then 32 else 0) | (if b6 then 64 else 0) | (if b7 then 128 else 0);
  }

  /** The `bits` booleans read out of `src`: what `unpackBytes` writes. */
  function Unpacked(src: Bytes, bits: nat): (r: seq<bool>)
    requires bits <= 8 * |src|
    ensures |r| == bits
  {
    seq(bits, i requires 0 <= i < bits => Bit(src, i))
  }

  /** The number of bytes that hold `bits` bits. */
  function ByteCount(bits: nat): nat
  {
    (bits + 7) / 8
  }

  /** Byte i of the packing: bit j is boolean 8*i + j, or 0 past `bits`. */
  function PackedByte(src: seq<bool>, bits: nat, i: nat): Byte
    requires bits <= |src|
  {
    ByteOf(seq(8, j requires 0 <= j < 8 => 8 * i + j < bits && src[8 * i + j]))
  }

  /** What `packBytes` writes: the first `bits` booleans of `src`, eight to a byte. */
  function Packed(src: seq<bool>, bits: nat): (r: Bytes)
    requires bits <= |src|
    ensures |r| == ByteCount(bits)
  {
    seq(ByteCount(bits), i requires 0 <= i < ByteCount(bits) => PackedByte(src, bits, i))
  }

  /** Bit i of the packing is boolean i, and every bit past `bits` is 0. */
  lemma PackedBits(src: seq<bool>, bits: nat, i: nat)
    requires bits <= |src| && i < 8 * ByteCount(bits)
    ensures Bit(Packed(src, bits), i) == (i < bits && src[i])
  {
    var p, m := i / 8, i % 8;
    var v := seq(8, j requires 0 <= j < 8 => 8 * p + j < bits && src[8 * p + j]);
    ByteBitOfByteOf(v, m);
    assert 8 * p + m == i;
  }

  /** Unpacking a packing gives the booleans back. */
  lemma UnpackPack(src: seq<bool>, bits: nat)
    requires bits <= |src|
    ensures bits <= 8 * |Packed(src, bits)|
    ensures Unpacked(Packed(src, bits), bits) == src[..bits]
  {
    forall i | 0 <= i < bits
      ensures Unpacked(Packed(src, bits), bits)[i] == src[i]
    {
      PackedBits(src, bits, i);
    }
  }

  /** Packing the unpacked bits of whole bytes gives the bytes back. */
  lemma PackUnpack(b: Bytes)
    ensures Packed(Unpacked(b, 8 * |b|), 8 * |b|) == b
  {
    var bits := 8 * |b|;
    var p := Packed(Unpacked(b, bits), bits);
    assert ByteCount(bits) == |b|;
    forall i | 0 <= i < 8 * |b|
      ensures Bit(p, i) == Bit(b, i)
    {
      PackedBits(Unpacked(b, bits), bits, i);
    }
    BytesByBits(p, b);
  }

  /** Packing the first `bits` unpacked bits of any buffer gives back
      those bits of the buffer, and clear bits above them. */
  lemma PackUnpackBits(b: Bytes, bits: nat, i: nat)
    requires bits <= 8 * |b| && i < 8 * ByteCount(bits)
    ensures |Packed(Unpacked(b, bits), bits)| == ByteCount(bits)
    ensures Bit(Packed(Unpacked(b, bits), bits), i) == (i < bits && Bit(b, i))
  {
    PackedBits(Unpacked(b, bits), bits, i);
  }

  /** Packing commutes with exclusive or. */
  lemma PackedXor(x: seq<bool>, y: seq<bool>, bits: nat)
    requires bits <= |x| && bits <= |y|
    ensures Packed(seq(bits, i requires 0 <= i < bits => x[i] != y[i]), bits)
         == Xor(Packed(x, bits), Packed(y, bits))
  {
    var z := seq(bits, i requires 0 <= i < bits => x[i] != y[i]);
    var l, r := Packed(z, bits), Xor(Packed(x, bits), Packed(y, bits));
    forall i | 0 <= i < 8 * |l|
      ensures Bit(l, i) == Bit(r, i)
    {
      PackedBits(z, bits, i);
      PackedBits(x, bits, i);
      PackedBits(y, bits, i);
      BitOfXor(Packed(x, bits), Packed(y, bits), i);
    }
    BytesByBits(l, r);
  }

  lemma ShiftRightBit(ch: Byte, m: nat)
    requires m < 7
    ensures ByteBit(ch >> 1, m) == ByteBit(ch, m + 1)
  {
    var k := BitMask(m);
    assert k == 1 || k == 2 || k == 4 || k == 8 || k == 16 || k == 32 || k == 64;
  }

  lemma ShiftInBit(ch: Byte, b: bool, m: nat)
    requires m < 8
    ensures ByteBit((ch << 1) | (if b then 1 else 0), m) == if m == 0 then b else ByteBit(ch, m - 1)
  {
    var k := BitMask(m);
    assert k == 1 || k == 2 || k == 4 || k == 8 || k == 16 || k == 32 || k == 64 || k == 128;
  }

  /** Bit number 8 * i + j of a buffer is bit j of its byte i. */
  lemma BitOfByte(src: Bytes, i: nat, j: nat)
    requires j < 8 && i < |src|
    ensures 8 * i + j < 8 * |src| && Bit(src, 8 * i + j) == ByteBit(src[i], j)
  {
    assert (8 * i + j) / 8 == i && (8 * i + j) % 8 == j;
  }

  /** `unpackBytes(dest, src, bits)`: dest[i] becomes bit i of `src`. */
  method UnpackBytes(dest: array<bool>, src: Bytes, bits: nat)
    requires bits <= dest.Length && bits <= 8 * |src|
    modifies dest
    ensures dest[..bits] == Unpacked(src, bits)
    ensures dest[bits..] == old(dest[bits..])
  {
    var i := 0;
    while i < ByteCount(bits)
      invariant 0 <= i <= ByteCount(bits)
      invariant forall t | 0 <= t < bits && t < 8 * i :: dest[t] == Bit(src, t)
      invariant forall t | bits <= t < dest.Length :: dest[t] == old(dest[t])
    {
      UnpackByte(dest, src, bits, i);
      forall t | 8 * i <= t < bits && t < 8 * i + 8
        ensures dest[t] == Bit(src, t)
      {
        BitOfByte(src, i, t - 8 * i);
      }
      i := i + 1;
    }
    assert dest[bits..] == old(dest[bits..]);
  }

  /** The inner loop of `unpackBytes`: the bits of byte i of `src` that lie
      below `bits` go to dest[8 * i ..], and nothing else changes. */
  method UnpackByte(dest: array<bool>, src: Bytes, bits: nat, i: nat)
    requires bits <= dest.Length && bits <= 8 * |src| && 8 * i < bits
    modifies dest
    ensures forall j | 0 <= j < 8 && 8 * i + j < bits :: dest[8 * i + j] == ByteBit(src[i], j)
    ensures forall t | 0 <= t < dest.Length && !(8 * i <= t < bits && t < 8 * i + 8) :: dest[t] == old(dest[t])
  {
    var ch := src[i];
    var j := 0;
    while j < 8 && 8 * i + j < bits
      invariant 0 <= j <= 8 && 8 * i + j <= bits
      invariant forall m | 0 <= m < 8 - j :: ByteBit(ch, m) == ByteBit(src[i], j + m)
      invariant forall m | 0 <= m < j :: dest[8 * i + m] == ByteBit(src[i], m)
      invariant forall t | 0 <= t < dest.Length && !(8 * i <= t < 8 * i + j) :: dest[t] == old(dest[t])
    {
      assert ByteBit(ch, 0) == ByteBit(src[i], j);
      dest[8 * i + j] := ch & 1 != 0;
      var next := ch >> 1;
      forall m: nat | m < 8 - (j + 1)
        ensures ByteBit(next, m) == ByteBit(src[i], j + 1 + m)
      {
        ShiftRightBit(ch, m);
      }
      ch := next;
      j := j + 1;
    }
  }

  /** `packBytes(dest, src, bits)`: the first ByteCount(bits) bytes of
      `dest` become the packing of src[0..bits). */
  method PackBytes(dest: array<Byte>, src: seq<bool>, bits: nat)
    requires ByteCount(bits) <= dest.Length && bits <= |src|
    modifies dest
    ensures dest[..ByteCount(bits)] == Packed(src, bits)
    ensures dest[ByteCount(bits)..] == old(dest[ByteCount(bits)..])
  {
    var bytes := ByteCount(bits);
    var i := 0;
    while i < bytes
      invariant 0 <= i <= bytes
      invariant forall t | 0 <= t < i :: dest[t] == PackedByte(src, bits, t)
      invariant dest[bytes..] == old(dest[bytes..])
    {
      var ch := PackByte(src, bits, i);
      dest[i] := ch;
      i := i + 1;
    }
    assert dest[..bytes] == Packed(src, bits);
  }

  /** The inner loop of `packBytes`: byte i of the packing, built from its
      highest bit down by shifting each boolean in at the bottom. */
  method PackByte(src: seq<bool>, bits: nat, i: nat) returns (ch: Byte)
    requires bits <= |src|
    ensures ch == PackedByte(src, bits, i)
  {
    ch := 0;
    var j := 7;
    // After handling positions j+1 .. 7, bit m of ch is position j+1+m.
    while j >= 0
      invariant -1 <= j <= 7
      invariant forall m | 0 <= m < 8 ::
        ByteBit(ch, m) == (j + 1 + m < 8 && 8 * i + j + 1 + m < bits && src[8 * i + j + 1 + m])
    {
      if 8 * i + j < bits {
        var next := (ch << 1) | (if src[8 * i + j] then 1 else 0);
        forall m: nat | m < 8
          ensures ByteBit(next, m) == (j + m < 8 && 8 * i + j + m < bits && src[8 * i + j + m])
        {
          ShiftInBit(ch, src[8 * i + j], m);
        }
        ch := next;
      }
      j := j - 1;
    }
    var v := seq(8, t requires 0 <= t < 8 => 8 * i + t < bits && src[8 * i + t]);
    forall m | 0 <= m < 8
      ensures ByteBit(ch, m) == ByteBit(ByteOf(v), m)
    {
      ByteBitOfByteOf(v, m);
    }
    ByteByBits(ch, ByteOf(v));
  }
}
