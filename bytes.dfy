/**
 * Byte buffers, their bits and their XOR: the vocabulary shared by every
 * other module. A byte is a `bv8`; a buffer is a sequence of bytes. Bit `i`
 * of a buffer is bit `i % 8` of byte `i / 8`, least significant bit first,
 * which is the order in which `packBytes` and `unpackBytes` lay bits out
 * (src/ext/oblivc/ot.c:602-621).
 */
module Bytes {

  type Byte = bv8
  type Bytes = seq<Byte>

  /** A keyed pseudorandom stream: `prg(seed, pos, len)` is bytes
      [pos, pos + len) of the stream seeded by `seed`. The block cipher
      behind it is not modelled; only its output length is known. */
  type Prg = f: (Bytes, nat, nat) -> Bytes | forall seed, pos, len :: |f(seed, pos, len)| == len
    witness (seed: Bytes, pos: nat, len: nat) => seq(len, _ => 0)

  /** A one-time pad keyed by a key and a counter (nonce):
      `pad(key, nonce, len)` is the first `len` bytes of the cipher stream. */
  type Pad = f: (Bytes, int, nat) -> Bytes | forall key, nonce, len :: |f(key, nonce, len)| == len
    witness (key: Bytes, nonce: int, len: nat) => seq(len, _ => 0)

  function Zeros(n: nat): (r: Bytes)
    ensures |r| == n
  {
    seq(n, _ => 0)
  }

  /** Byte-wise exclusive or of two equally long buffers. */
  function Xor(a: Bytes, b: Bytes): (r: Bytes)
    requires |a| == |b|
    ensures |r| == |a|
  {
    seq(|a|, i requires 0 <= i < |a| => a[i] ^ b[i])
  }

  lemma XorCancel(a: Bytes, b: Bytes)
    requires |a| == |b|
    ensures Xor(Xor(a, b), b) == a
  {
    assert forall i | 0 <= i < |a| :: Xor(Xor(a, b), b)[i] == a[i];
  }

  lemma XorComm(a: Bytes, b: Bytes)
    requires |a| == |b|
    ensures Xor(a, b) == Xor(b, a)
  {
    assert forall i | 0 <= i < |a| :: Xor(a, b)[i] == Xor(b, a)[i];
  }

  lemma XorAssoc(a: Bytes, b: Bytes, c: Bytes)
    requires |a| == |b| == |c|
    ensures Xor(Xor(a, b), c) == Xor(a, Xor(b, c))
  {
    assert forall i | 0 <= i < |a| :: Xor(Xor(a, b), c)[i] == Xor(a, Xor(b, c))[i];
  }

  lemma XorZeros(a: Bytes)
    ensures Xor(a, Zeros(|a|)) == a && Xor(Zeros(|a|), a) == a
  {
    assert forall i | 0 <= i < |a| :: Xor(a, Zeros(|a|))[i] == a[i];
    assert forall i | 0 <= i < |a| :: Xor(Zeros(|a|), a)[i] == a[i];
  }

  lemma XorSelf(a: Bytes)
    ensures Xor(a, a) == Zeros(|a|)
  {
    assert forall i | 0 <= i < |a| :: Xor(a, a)[i] == 0;
  }

  lemma XorSlice(a: Bytes, b: Bytes, lo: nat, hi: nat)
    requires |a| == |b| && lo <= hi <= |a|
    ensures Xor(a, b)[lo..hi] == Xor(a[lo..hi], b[lo..hi])
  {
  }

  // ---------------------------------------------------------------------
  // Concatenation of equally long blocks (a row-major matrix of bytes)

  /** The blocks laid end to end, as the source lays rows of a matrix or
      the options of a batch out in one flat buffer. */
  function Flatten(blocks: seq<Bytes>): Bytes
  {
    if blocks == [] then [] else Flatten(blocks[..|blocks| - 1]) + blocks[|blocks| - 1]
  }

  ghost predicate Uniform(blocks: seq<Bytes>, len: nat)
  {
    forall i | 0 <= i < |blocks| :: |blocks[i]| == len
  }

  lemma {:induction false} FlattenAppend(a: seq<Bytes>, b: seq<Bytes>)
    ensures Flatten(a + b) == Flatten(a) + Flatten(b)
    decreases |b|
  {
    if b == [] {
      assert a + b == a;
    } else {
      var b' := b[..|b| - 1];
      assert (a + b)[..|a + b| - 1] == a + b';
      FlattenAppend(a, b');
    }
  }

  /** Flattening a prefix one block longer appends that block. */
  lemma FlattenPrefix(blocks: seq<Bytes>, k: nat)
    requires k < |blocks|
    ensures Flatten(blocks[..k + 1]) == Flatten(blocks[..k]) + blocks[k]
  {
    assert blocks[..k + 1][..k] == blocks[..k];
  }

  lemma {:induction false} FlattenLength(blocks: seq<Bytes>, len: nat)
    requires Uniform(blocks, len)
    ensures |Flatten(blocks)| == |blocks| * len
  {
    if blocks != [] {
      var init := blocks[..|blocks| - 1];
      assert Uniform(init, len);
      FlattenLength(init, len);
      assert |init| * len + len == |blocks| * len;
    }
  }

  /** Block `i` of a flattened matrix occupies bytes [i*len, (i+1)*len). */
  lemma {:induction false} FlattenBlock(blocks: seq<Bytes>, len: nat, i: nat)
    requires Uniform(blocks, len) && i < |blocks|
    ensures |Flatten(blocks)| == |blocks| * len
    ensures i * len + len <= |Flatten(blocks)|
    ensures Flatten(blocks)[i * len .. i * len + len] == blocks[i]
  {
    FlattenLength(blocks, len);
    var init := blocks[..|blocks| - 1];
    FlattenLength(init, len);
    MulMono(i, |blocks| - 1, len);
    if i < |blocks| - 1 {
      FlattenBlock(init, len, i);
      MulMono(i + 1, |blocks| - 1, len);
      assert Flatten(blocks)[..|init| * len] == Flatten(init);
    }
  }

  lemma FlattenByte(blocks: seq<Bytes>, len: nat, i: nat, j: nat)
    requires Uniform(blocks, len) && i < |blocks| && j < len
    ensures i * len + j < |Flatten(blocks)|
    ensures Flatten(blocks)[i * len + j] == blocks[i][j]
  {
    FlattenBlock(blocks, len, i);
    assert Flatten(blocks)[i * len .. i * len + len][j] == blocks[i][j];
  }

  lemma MulMono(a: nat, b: nat, c: nat)
    requires a <= b
    ensures a * c <= b * c
  {
  }

  /** The flat index of element (r, c) of a row-major matrix with `cols`
      columns lies inside a matrix of `rows` rows. */
  lemma MatIndexBound(r: nat, c: nat, rows: nat, cols: nat)
    requires r < rows && c < cols
    ensures r * cols + c < rows * cols
  {
    MulMono(r + 1, rows, cols);
  }

  /** Distinct (r, c) positions of a row-major matrix have distinct flat indices. */
  lemma MatIndexInjective(r1: nat, c1: nat, r2: nat, c2: nat, cols: nat)
    requires c1 < cols && c2 < cols && r1 * cols + c1 == r2 * cols + c2
    ensures r1 == r2 && c1 == c2
  {
    if r1 < r2 {
      MulMono(r1 + 1, r2, cols);
    } else if r2 < r1 {
      MulMono(r2 + 1, r1, cols);
    }
  }

  // ---------------------------------------------------------------------
  // Bits

  function BitMask(m: nat): Byte
    requires m < 8
  {
    if m == 0 then 1 else if m == 1 then 2 else if m == 2 then 4 else if m == 3 then 8
    else if m == 4 then 16 else if m == 5 then 32 else if m == 6 then 64 else 128
  }

  /** Bit `m` of a byte, bit 0 being the least significant. */
  predicate ByteBit(x: Byte, m: nat)
    requires m < 8
  {
    x & BitMask(m) != 0
  }

  function SetByteBit(x: Byte, m: nat, v: bool): Byte
    requires m < 8
  {
    if v then x | BitMask(m) else x & !BitMask(m)
  }

  lemma ByteBitOfSet(x: Byte, m: nat, v: bool, m2: nat)
    requires m < 8 && m2 < 8
    ensures ByteBit(SetByteBit(x, m, v), m2) == if m2 == m then v else ByteBit(x, m2)
  {
  }

  lemma ByteBitOfXor(x: Byte, y: Byte, m: nat)
    requires m < 8
    ensures ByteBit(x ^ y, m) == (ByteBit(x, m) != ByteBit(y, m))
  {
    var k := BitMask(m);
    assert k == 1 || k == 2 || k == 4 || k == 8 || k == 16 || k == 32 || k == 64 || k == 128;
  }

  /** A byte is determined by its eight bits. */
  lemma ByteByBits(x: Byte, y: Byte)
    requires forall m | 0 <= m < 8 :: ByteBit(x, m) == ByteBit(y, m)
    ensures x == y
  {
    assert ByteBit(x, 0) == ByteBit(y, 0) && ByteBit(x, 1) == ByteBit(y, 1);
    assert ByteBit(x, 2) == ByteBit(y, 2) && ByteBit(x, 3) == ByteBit(y, 3);
    assert ByteBit(x, 4) == ByteBit(y, 4) && ByteBit(x, 5) == ByteBit(y, 5);
    assert ByteBit(x, 6) == ByteBit(y, 6) && ByteBit(x, 7) == ByteBit(y, 7);
  }

  /** `getBit(s, i)`: bit `i` of a buffer. */
  predicate Bit(s: Bytes, i: nat)
    requires i < 8 * |s|
  {
    ByteBit(s[i / 8], i % 8)
  }

  /** Bit `i` of a buffer, reading 0 past its end. */
  predicate BitAt(s: Bytes, i: nat)
  {
    i < 8 * |s| && Bit(s, i)
  }

  /** `setBit(s, i, v)`: the buffer with bit `i` replaced by `v`. */
  function SetBit(s: Bytes, i: nat, v: bool): (r: Bytes)
    requires i < 8 * |s|
    ensures |r| == |s|
  {
    s[i / 8 := SetByteBit(s[i / 8], i % 8, v)]
  }

  lemma BitOfSetBit(s: Bytes, i: nat, v: bool, j: nat)
    requires i < 8 * |s| && j < 8 * |s|
    ensures Bit(SetBit(s, i, v), j) == if j == i then v else Bit(s, j)
  {
    if j / 8 == i / 8 {
      ByteBitOfSet(s[i / 8], i % 8, v, j % 8);
    }
  }

  lemma BitOfXor(a: Bytes, b: Bytes, i: nat)
    requires |a| == |b| && i < 8 * |a|
    ensures Bit(Xor(a, b), i) == (Bit(a, i) != Bit(b, i))
  {
    ByteBitOfXor(a[i / 8], b[i / 8], i % 8);
  }

  /** A buffer is determined by its bits. */
  lemma BytesByBits(a: Bytes, b: Bytes)
    requires |a| == |b|
    requires forall i | 0 <= i < 8 * |a| :: Bit(a, i) == Bit(b, i)
    ensures a == b
  {
    forall p | 0 <= p < |a|
      ensures a[p] == b[p]
    {
      forall m | 0 <= m < 8
        ensures ByteBit(a[p], m) == ByteBit(b[p], m)
      {
        var i := 8 * p + m;
        assert i / 8 == p && i % 8 == m;
        assert Bit(a, i) == Bit(b, i);
      }
      ByteByBits(a[p], b[p]);
    }
  }

  /** `setBit(a, i, v)` on an array: bit `i` of `a` becomes `v`. */
  method SetArrayBit(a: array<Byte>, i: nat, v: bool)
    requires i < 8 * a.Length
    modifies a
    ensures a[..] == SetBit(old(a[..]), i, v)
  {
    a[i / 8] := SetByteBit(a[i / 8], i % 8, v);
  }

  /** `xorBuffer(dest, x, y, len)` (src/ext/oblivc/ot.c:138-141): the first
      `len` bytes of `dest` become `x XOR y`. The inputs are passed by value,
      so the in-place uses `xorBuffer(buf, buf, k, len)` are covered: each
      byte is read before it is written. */
  method XorBuffer(dest: array<Byte>, x: Bytes, y: Bytes, len: nat)
    requires len <= dest.Length && len <= |x| && len <= |y|
    modifies dest
    ensures dest[..len] == Xor(x[..len], y[..len])
    ensures dest[len..] == old(dest[len..])
  {
    var i := 0;
    while i < len
      invariant 0 <= i <= len
      invariant forall j | 0 <= j < i :: dest[j] == x[j] ^ y[j]
      invariant dest[len..] == old(dest[len..])
    {
      dest[i] := x[i] ^ y[i];
      i := i + 1;
    }
  }
  /** `memcpy(dest + off, src, |src|)`: bytes [off, off + |src|) of `dest`
      become `src`, and no other byte changes. */
  method CopyInto(dest: array<Byte>, off: nat, src: Bytes)
    requires off + |src| <= dest.Length
    modifies dest
    ensures dest[..off] == old(dest[..off])
    ensures dest[off .. off + |src|] == src
    ensures dest[off + |src|..] == old(dest[off + |src|..])
  {
    var j := 0;
    while j < |src|
      invariant 0 <= j <= |src|
      invariant forall t | 0 <= t < j :: dest[off + t] == src[t]
      invariant forall t | 0 <= t < dest.Length && !(off <= t < off + j) :: dest[t] == old(dest[t])
    {
      dest[off + j] := src[j];
      j := j + 1;
    }
    assert dest[off .. off + |src|] == src;
  }
}
