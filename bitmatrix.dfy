/**
 * Bit matrices stored row-major in byte buffers: transposition
 * (`matrixXpose`, `matrixXposeAndFilter`, src/ext/oblivc/ot.c:757-779) and
 * the matrix-vector product over GF(2) (`bitmatMul`, ot.c:793-805), which is
 * the hash of the hhash validators, xor-homomorphic with the unsigned fold.
 */
module BitMatrix {
  import opened Bytes
  import opened Packing

  /** Element (a, b) of a bit matrix whose rows are `w` bits long; 0 outside it. */
  predicate MatBit(m: Bytes, w: nat, a: nat, b: nat)
  {
    BitAt(m, a * w + b)
  }

  /** `d` (cols x rows) is the transpose of `s` (rows x cols), and both
      hold exactly rows * cols bits. */
  ghost predicate IsTranspose(d: Bytes, s: Bytes, rows: nat, cols: nat)
  {
    && 8 * |s| == rows * cols && 8 * |d| == rows * cols
    && forall r, c | 0 <= r < rows && 0 <= c < cols :: MatBit(d, rows, c, r) == MatBit(s, cols, r, c)
  }

  lemma MatBitOfSetBit(d: Bytes, w: nat, a: nat, b: nat, v: bool, a2: nat, b2: nat)
    requires b < w && b2 < w && a * w + b < 8 * |d|
    ensures MatBit(SetBit(d, a * w + b, v), w, a2, b2) == if a2 == a && b2 == b then v else MatBit(d, w, a2, b2)
  {
    var i, j := a * w + b, a2 * w + b2;
    if j < 8 * |d| {
      BitOfSetBit(d, i, v, j);
      if j == i {
        MatIndexInjective(a, b, a2, b2, w);
      }
    }
  }

  /** Every bit index below rows * cols is (c, r) for one column c and row r. */
  lemma SplitIndex(i: nat, rows: nat, cols: nat) returns (c: nat, r: nat)
    requires i < rows * cols
    ensures c < cols && r < rows && i == c * rows + r
  {
    c, r := i / rows, i % rows;
  }

  /** Transposing twice gives the matrix back. */
  lemma XposeTwice(e: Bytes, d: Bytes, s: Bytes, rows: nat, cols: nat)
    requires IsTranspose(d, s, rows, cols) && IsTranspose(e, d, cols, rows)
    ensures e == s
  {
    forall i | 0 <= i < 8 * |s|
      ensures Bit(e, i) == Bit(s, i)
    {
      var r, c := SplitIndex(i, cols, rows);
      assert MatBit(e, cols, r, c) == MatBit(d, rows, c, r);
    }
    BytesByBits(e, s);
  }

  /** `matrixXpose(dest, src, rows, cols)`: `dest` becomes the transpose of `src`. */
  method MatrixXpose(dest: array<Byte>, src: Bytes, rows: nat, cols: nat)
    requires rows % 8 == 0 && cols % 8 == 0
    requires 8 * dest.Length == rows * cols && 8 * |src| == rows * cols
    modifies dest
    ensures IsTranspose(dest[..], src, rows, cols)
  {
    var r := 0;
    while r < rows
      invariant 0 <= r <= rows
      invariant forall r2, c2 | 0 <= r2 < r && 0 <= c2 < cols ::
        MatBit(dest[..], rows, c2, r2) == MatBit(src, cols, r2, c2)
    {
      XposeRow(dest, src, rows, cols, r, r);
      r := r + 1;
    }
  }

  /** The inner loop of `matrixXpose` and `matrixXposeAndFilter`: column r
      of `dest` becomes row r2 of `src`, and the other columns are kept. */
  method XposeRow(dest: array<Byte>, src: Bytes, rows: nat, cols: nat, r: nat, r2: nat)
    requires 8 * dest.Length == rows * cols && r < rows
    modifies dest
    ensures forall c | 0 <= c < cols :: MatBit(dest[..], rows, c, r) == MatBit(src, cols, r2, c)
    ensures forall r3, c3 | 0 <= r3 < rows && r3 != r && 0 <= c3 < cols ::
      MatBit(dest[..], rows, c3, r3) == MatBit(old(dest[..]), rows, c3, r3)
  {
    var c := 0;
    while c < cols
      invariant 0 <= c <= cols
      invariant forall c3 | 0 <= c3 < c :: MatBit(dest[..], rows, c3, r) == MatBit(src, cols, r2, c3)
      invariant forall r3, c3 | 0 <= r3 < rows && 0 <= c3 < cols && (r3 != r || c <= c3) ::
        MatBit(dest[..], rows, c3, r3) == MatBit(old(dest[..]), rows, c3, r3)
    {
      ghost var before := dest[..];
      MatIndexBound(c, r, cols, rows);
      SetArrayBit(dest, c * rows + r, MatBit(src, cols, r2, c));
      forall r3, c3 | 0 <= r3 < rows && 0 <= c3 < cols
        ensures MatBit(dest[..], rows, c3, r3)
             == if c3 == c && r3 == r then MatBit(src, cols, r2, c) else MatBit(before, rows, c3, r3)
      {
        MatBitOfSetBit(before, rows, c, r, MatBit(src, cols, r2, c), c3, r3);
      }
      c := c + 1;
    }
  }

  /** The rows `pick[0]`, `pick[1]`, ... of a matrix with `cols8`-byte rows. */
  function SelectRows(src: Bytes, cols8: nat, pick: seq<nat>): (r: Bytes)
    requires forall i | 0 <= i < |pick| :: pick[i] * cols8 + cols8 <= |src|
  {
    Flatten(seq(|pick|, i requires 0 <= i < |pick| => src[pick[i] * cols8 .. pick[i] * cols8 + cols8]))
  }

  /** Bit m of byte b of row a of a matrix with `cb`-byte rows is bit
      8*b + m of that row. */
  lemma RowIndex(a: nat, cb: nat, b: nat, m: nat)
    requires m < 8
    ensures a * (8 * cb) + (8 * b + m) == 8 * (a * cb + b) + m
    ensures (8 * (a * cb + b) + m) / 8 == a * cb + b && (8 * (a * cb + b) + m) % 8 == m
  {
  }

  lemma SelectRowsLength(src: Bytes, cols8: nat, pick: seq<nat>)
    requires forall i | 0 <= i < |pick| :: pick[i] * cols8 + cols8 <= |src|
    ensures |SelectRows(src, cols8, pick)| == |pick| * cols8
  {
    var blocks := seq(|pick|, i requires 0 <= i < |pick| => src[pick[i] * cols8 .. pick[i] * cols8 + cols8]);
    FlattenLength(blocks, cols8);
  }

  lemma SelectRowsBit(src: Bytes, cb: nat, pick: seq<nat>, r: nat, b: nat, m: nat)
    requires forall i | 0 <= i < |pick| :: pick[i] * cb + cb <= |src|
    requires r < |pick| && b < cb && m < 8
    ensures MatBit(SelectRows(src, cb, pick), 8 * cb, r, 8 * b + m) == MatBit(src, 8 * cb, pick[r], 8 * b + m)
  {
    var blocks := seq(|pick|, i requires 0 <= i < |pick| => src[pick[i] * cb .. pick[i] * cb + cb]);
    var sel := SelectRows(src, cb, pick);
    FlattenByte(blocks, cb, r, b);
    RowIndex(r, cb, b, m);
    RowIndex(pick[r], cb, b, m);
    assert sel[r * cb + b] == src[pick[r] * cb + b];
  }

  /** `matrixXposeAndFilter(dest, src, rows, cols, rowsRemaining)`: `dest`
      becomes the transpose of the matrix made of the source rows
      rowsRemaining[0], ..., rowsRemaining[rows-1]. */
  method MatrixXposeAndFilter(dest: array<Byte>, src: Bytes, rows: nat, cols: nat, rowsRemaining: seq<nat>)
    requires rows % 8 == 0 && cols % 8 == 0
    requires 8 * dest.Length == rows * cols && |rowsRemaining| == rows
    requires forall i | 0 <= i < rows :: rowsRemaining[i] * (cols / 8) + cols / 8 <= |src|
    modifies dest
    ensures forall r, c | 0 <= r < rows && 0 <= c < cols ::
      MatBit(dest[..], rows, c, r) == MatBit(src, cols, rowsRemaining[r], c)
  {
    var r := 0;
    while r < rows
      invariant 0 <= r <= rows
      invariant forall r3, c3 | 0 <= r3 < r && 0 <= c3 < cols ::
        MatBit(dest[..], rows, c3, r3) == MatBit(src, cols, rowsRemaining[r3], c3)
    {
      var r2 := rowsRemaining[r];
      XposeRow(dest, src, rows, cols, r, r2);
      r := r + 1;
    }
  }

  /** What `matrixXposeAndFilter` writes is the transpose of the matrix
      made of the picked rows. */
  lemma FilterIsXposeOfSelected(d: Bytes, src: Bytes, rows: nat, cols: nat, pick: seq<nat>)
    requires cols % 8 == 0 && 8 * |d| == rows * cols && |pick| == rows
    requires forall i | 0 <= i < rows :: pick[i] * (cols / 8) + cols / 8 <= |src|
    requires forall r, c | 0 <= r < rows && 0 <= c < cols :: MatBit(d, rows, c, r) == MatBit(src, cols, pick[r], c)
    ensures IsTranspose(d, SelectRows(src, cols / 8, pick), rows, cols)
  {
    forall r, c | 0 <= r < rows && 0 <= c < cols
      ensures MatBit(d, rows, c, r) == MatBit(SelectRows(src, cols / 8, pick), cols, r, c)
    {
      assert c == 8 * (c / 8) + c % 8;
      SelectRowsBit(src, cols / 8, pick, r, c / 8, c % 8);
    }
    SelectRowsLength(src, cols / 8, pick);
  }

  // ---------------------------------------------------------------------
  // GF(2) inner products and the parity fold

  /** The exclusive or of a sequence of bits. */
  function XorBits(s: seq<bool>): bool
  {
    if s == [] then false else XorBits(s[..|s| - 1]) != s[|s| - 1]
  }

  lemma {:induction false} XorBitsAppend(a: seq<bool>, b: seq<bool>)
    ensures XorBits(a + b) == (XorBits(a) != XorBits(b))
    decreases |b|
  {
    if b != [] {
      assert (a + b)[..|a + b| - 1] == a + b[..|b| - 1];
      XorBitsAppend(a, b[..|b| - 1]);
    } else {
      assert a + b == a;
    }
  }

  /** The exclusive or of a pointwise exclusive or is the exclusive or of the two. */
  lemma {:induction false} XorBitsPointwise(a: seq<bool>, b: seq<bool>)
    requires |a| == |b|
    ensures XorBits(seq(|a|, i requires 0 <= i < |a| => a[i] != b[i])) == (XorBits(a) != XorBits(b))
  {
    var z := seq(|a|, i requires 0 <= i < |a| => a[i] != b[i]);
    if a != [] {
      var n := |a| - 1;
      assert z[..n] == seq(n, i requires 0 <= i < n => a[..n][i] != b[..n][i]);
      XorBitsPointwise(a[..n], b[..n]);
    }
  }

  /** The parity of a byte: the exclusive or of its eight bits. */
  predicate Parity(x: Byte)
  {
    ((((((ByteBit(x, 0) != ByteBit(x, 1)) != ByteBit(x, 2)) != ByteBit(x, 3)) != ByteBit(x, 4))
      != ByteBit(x, 5)) != ByteBit(x, 6)) != ByteBit(x, 7)
  }

  function ByteBits(x: Byte): (r: seq<bool>)
    ensures |r| == 8
  {
    seq(8, m requires 0 <= m < 8 => ByteBit(x, m))
  }

  lemma ParityIsXorBits(x: Byte)
    ensures Parity(x) == XorBits(ByteBits(x))
  {
    var s := ByteBits(x);
    assert s[..1][..0] == [];
    assert XorBits(s[..1]) == s[0];
    assert s[..2][..1] == s[..1];
    assert XorBits(s[..2]) == (XorBits(s[..1]) != s[1]);
    assert s[..3][..2] == s[..2];
    assert XorBits(s[..3]) == (XorBits(s[..2]) != s[2]);
    assert s[..4][..3] == s[..3];
    assert XorBits(s[..4]) == (XorBits(s[..3]) != s[3]);
    assert s[..5][..4] == s[..4];
    assert XorBits(s[..5]) == (XorBits(s[..4]) != s[4]);
    assert s[..6][..5] == s[..5];
    assert XorBits(s[..6]) == (XorBits(s[..5]) != s[5]);
    assert s[..7][..6] == s[..6];
    assert XorBits(s[..7]) == (XorBits(s[..6]) != s[6]);
    assert s[..7] == s[..|s| - 1];
    assert XorBits(s) == (XorBits(s[..7]) != s[7]);
  }

  lemma ParityOfXor(x: Byte, y: Byte)
    ensures Parity(x ^ y) == (Parity(x) != Parity(y))
  {
    ByteBitOfXor(x, y, 0);
    ByteBitOfXor(x, y, 1);
    ByteBitOfXor(x, y, 2);
    ByteBitOfXor(x, y, 3);
    ByteBitOfXor(x, y, 4);
    ByteBitOfXor(x, y, 5);
    ByteBitOfXor(x, y, 6);
    ByteBitOfXor(x, y, 7);
  }

  lemma ByteBitOfAnd(x: Byte, y: Byte, m: nat)
    requires m < 8
    ensures ByteBit(x & y, m) == (ByteBit(x, m) && ByteBit(y, m))
  {
    var k := BitMask(m);
    assert k == 1 || k == 2 || k == 4 || k == 8 || k == 16 || k == 32 || k == 64 || k == 128;
  }

  /** One step of the fold `ch = (ch & 1) ^ (ch >> 1)` keeps the parity and,
      above 1, makes the byte smaller. */
  lemma FoldStep(ch: Byte)
    ensures Parity((ch & 1) ^ (ch >> 1)) == Parity(ch)
    ensures ch > 1 ==> (ch & 1) ^ (ch >> 1) < ch
  {
  }

  /** The parity fold of `bitmatMul` read with an unsigned byte: it ends at
      0 or 1, and at 1 exactly when the byte has odd parity. */
  method FoldParity(x: Byte) returns (ch: Byte)
    ensures ch <= 1
    ensures (ch == 1) == Parity(x)
  {
    ch := x;
    while ch > 1
      invariant Parity(ch) == Parity(x)
      decreases ch
    {
      FoldStep(ch);
      ch := (ch & 1) ^ (ch >> 1);
    }
  }

  /** The same fold as compiled where `char` is signed: a byte with bit 7
      set is negative, the test `ch > 1` fails at once, and the byte is
      stored through `setBit` as a 1 bit whatever its parity. */
  method FoldParitySigned(x: Byte) returns (ch: Byte)
    ensures (ch != 0) == (ByteBit(x, 7) || Parity(x))
  {
    ch := x;
    while 1 < ch < 0x80
      invariant Parity(ch) == Parity(x)
      invariant ByteBit(x, 7) ==> ch == x
      invariant !ByteBit(x, 7) ==> ch < 0x80
      decreases ch
    {
      FoldStep(ch);
      ch := (ch & 1) ^ (ch >> 1);
    }
  }

  /** The byte 0x81 has even parity, yet the signed fold reports 1. */
  lemma SignedFoldCounterexample()
    ensures !Parity(0x81) && ByteBit(0x81, 7)
  {
  }

  /** The products of row r of `mat` (rows of `cols` bits) with the
      vector `src`, bit by bit. */
  function RowTerms(mat: Bytes, src: Bytes, r: nat, cols: nat): (p: seq<bool>)
    ensures |p| == cols
  {
    seq(cols, c requires 0 <= c < cols => MatBit(mat, cols, r, c) && BitAt(src, c))
  }

  /** Row r of `mat` times the vector `src`, over GF(2). */
  predicate InnerProduct(mat: Bytes, src: Bytes, r: nat, cols: nat)
  {
    XorBits(RowTerms(mat, src, r, cols))
  }

  /** The product of a `rows` x `cols` bit matrix with a vector of `cols`
      bits: a vector of `rows` bits, packed. */
  function MatMul(mat: Bytes, src: Bytes, rows: nat, cols: nat): (r: Bytes)
    ensures |r| == ByteCount(rows)
  {
    Packed(seq(rows, r requires 0 <= r < rows => InnerProduct(mat, src, r, cols)), rows)
  }

  /** The product is linear: M(x XOR y) = Mx XOR My. */
  lemma MatMulXor(mat: Bytes, x: Bytes, y: Bytes, rows: nat, cols: nat)
    requires |x| == |y|
    ensures MatMul(mat, Xor(x, y), rows, cols) == Xor(MatMul(mat, x, rows, cols), MatMul(mat, y, rows, cols))
  {
    var px := seq(rows, r requires 0 <= r < rows => InnerProduct(mat, x, r, cols));
    var py := seq(rows, r requires 0 <= r < rows => InnerProduct(mat, y, r, cols));
    var pz := seq(rows, r requires 0 <= r < rows => InnerProduct(mat, Xor(x, y), r, cols));
    forall r | 0 <= r < rows
      ensures pz[r] == (px[r] != py[r])
    {
      var a, b, z := RowTerms(mat, x, r, cols), RowTerms(mat, y, r, cols), RowTerms(mat, Xor(x, y), r, cols);
      forall c | 0 <= c < cols
        ensures z[c] == (a[c] != b[c])
      {
        if c < 8 * |x| {
          BitOfXor(x, y, c);
        }
      }
      assert z == seq(|a|, i requires 0 <= i < |a| => a[i] != b[i]);
      XorBitsPointwise(a, b);
    }
    assert pz == seq(rows, i requires 0 <= i < rows => px[i] != py[i]);
    PackedXor(px, py, rows);
  }

  lemma RowTermBit(mat: Bytes, src: Bytes, r: nat, cb: nat, c: nat, m: nat)
    requires c < cb && c < |src| && r * cb + c < |mat| && m < 8
    ensures RowTerms(mat, src, r, 8 * cb)[8 * c + m] == ByteBit(src[c] & mat[r * cb + c], m)
  {
    RowIndex(r, cb, c, m);
    RowIndex(0, 0, c, m);
    assert MatBit(mat, 8 * cb, r, 8 * c + m) == ByteBit(mat[r * cb + c], m);
    assert BitAt(src, 8 * c + m) == ByteBit(src[c], m);
    ByteBitOfAnd(src[c], mat[r * cb + c], m);
  }

  /** The exclusive or of a sequence of bytes. */
  function XorAll(bs: seq<Byte>): Byte
  {
    if bs == [] then 0 else XorAll(bs[..|bs| - 1]) ^ bs[|bs| - 1]
  }

  /** The bits of a sequence of bytes, eight to a byte, lowest first. */
  function BitsOf(bs: seq<Byte>): (r: seq<bool>)
    ensures |r| == 8 * |bs|
  {
    if bs == [] then [] else BitsOf(bs[..|bs| - 1]) + ByteBits(bs[|bs| - 1])
  }

  lemma {:induction false} BitsOfIndex(bs: seq<Byte>, k: nat, m: nat)
    requires k < |bs| && m < 8
    ensures BitsOf(bs)[8 * k + m] == ByteBit(bs[k], m)
  {
    var n := |bs| - 1;
    if k < n {
      BitsOfIndex(bs[..n], k, m);
    }
  }

  /** Exclusive or with a byte appends its eight bits to the bits whose
      exclusive or the parity stands for. */
  lemma ParityStep(x: Byte, y: Byte, p: seq<bool>)
    requires Parity(x) == XorBits(p)
    ensures Parity(x ^ y) == XorBits(p + ByteBits(y))
  {
    ParityOfXor(x, y);
    ParityIsXorBits(y);
    XorBitsAppend(p, ByteBits(y));
  }

  /** The parity of the exclusive or of some bytes is the exclusive or of
      all their bits. */
  lemma {:induction false} ParityOfXorAll(bs: seq<Byte>)
    ensures Parity(XorAll(bs)) == XorBits(BitsOf(bs))
  {
    if bs != [] {
      var n := |bs| - 1;
      ParityOfXorAll(bs[..n]);
      ParityStep(XorAll(bs[..n]), bs[n], BitsOf(bs[..n]));
    }
  }

  /** The bytes `src[c] & mat[base + c]` of one row masked by the vector. */
  function RowMasked(mat: Bytes, src: Bytes, base: nat, cb: nat): (m: seq<Byte>)
    requires cb <= |src| && base + cb <= |mat|
    ensures |m| == cb
  {
    seq(cb, c requires 0 <= c < cb => src[c] & mat[base + c])
  }

  /** The terms of row r's inner product are the bits of the row's bytes
      masked by the vector. */
  lemma RowTermsOfMasked(mat: Bytes, src: Bytes, r: nat, cb: nat)
    requires cb <= |src| && r * cb + cb <= |mat|
    ensures RowTerms(mat, src, r, 8 * cb) == BitsOf(RowMasked(mat, src, r * cb, cb))
  {
    var p, q := RowTerms(mat, src, r, 8 * cb), BitsOf(RowMasked(mat, src, r * cb, cb));
    forall i | 0 <= i < 8 * cb
      ensures p[i] == q[i]
    {
      var k, m := i / 8, i % 8;
      assert i == 8 * k + m;
      RowTermBit(mat, src, r, cb, k, m);
      BitsOfIndex(RowMasked(mat, src, r * cb, cb), k, m);
    }
  }

  /** The exclusive or of the bytes `src[c'] & mat[base + c']` for c' < c:
      the running value of the inner loop of `bitmatMul`. */
  function RowFold(mat: Bytes, src: Bytes, base: nat, c: nat): Byte
    requires c <= |src| && base + c <= |mat|
  {
    if c == 0 then 0 else RowFold(mat, src, base, c - 1) ^ (src[c - 1] & mat[base + c - 1])
  }

  lemma {:induction false} RowFoldIsXorAll(mat: Bytes, src: Bytes, base: nat, c: nat)
    requires c <= |src| && base + c <= |mat|
    ensures RowFold(mat, src, base, c) == XorAll(RowMasked(mat, src, base, c))
  {
    if c > 0 {
      RowFoldIsXorAll(mat, src, base, c - 1);
      assert RowMasked(mat, src, base, c)[..c - 1] == RowMasked(mat, src, base, c - 1);
    }
  }

  /** The parity of the running value over a whole row is the row's inner
      product with the vector. */
  lemma RowFoldParity(mat: Bytes, src: Bytes, r: nat, cb: nat)
    requires cb <= |src| && r * cb + cb <= |mat|
    ensures Parity(RowFold(mat, src, r * cb, cb)) == InnerProduct(mat, src, r, 8 * cb)
  {
    RowFoldIsXorAll(mat, src, r * cb, cb);
    ParityOfXorAll(RowMasked(mat, src, r * cb, cb));
    RowTermsOfMasked(mat, src, r, cb);
  }

  /** The inner loop of `bitmatMul`: the exclusive or of the bytes
      `src[c] & mat[r*cb + c]` over the row; by `RowFoldParity` its parity
      is the row's inner product with `src`. */
  method RowXor(mat: Bytes, src: Bytes, r: nat, cb: nat) returns (ch: Byte)
    requires cb <= |src| && r * cb + cb <= |mat|
    ensures ch == RowFold(mat, src, r * cb, cb)
  {
    var base := r * cb;
    ch := 0;
    var c := 0;
    while c < cb
      invariant 0 <= c <= cb
      invariant ch == RowFold(mat, src, base, c)
    {
      ch := ch ^ (src[c] & mat[base + c]);
      c := c + 1;
    }
  }

  /** `bitmatMul(dest, mat, src, rows, cols)`: `dest` becomes the product
      of the `rows` x `cols` bit matrix `mat` with the vector `src`. */
  method BitmatMul(dest: array<Byte>, mat: Bytes, src: Bytes, rows: nat, cols: nat)
    requires cols % 8 == 0 && rows % 8 == 0
    requires rows / 8 <= dest.Length && rows * (cols / 8) <= |mat| && cols / 8 <= |src|
    modifies dest
    ensures dest[..rows / 8] == MatMul(mat, src, rows, cols)
    ensures dest[rows / 8..] == old(dest[rows / 8..])
  {
    var cb := cols / 8;
    assert cols == 8 * cb;
    ghost var rb := rows / 8;
    assert rows == 8 * rb && rb <= dest.Length;
    ghost var want := seq(rows, r2 requires 0 <= r2 < rows => InnerProduct(mat, src, r2, cols));
    var r := 0;
    while r < rows
      invariant 0 <= r <= rows
      invariant forall r2 | 0 <= r2 < r :: Bit(dest[..], r2) == want[r2]
      invariant dest[rb..] == old(dest[rb..])
    {
      MulMono(r + 1, rows, cb);
      var ch := RowXor(mat, src, r, cb);
      RowFoldParity(mat, src, r, cb);
      ch := FoldParity(ch);
      assert (ch == 1) == want[r];
      SetBitExtends(dest[..], r, ch == 1, want, rb);
      SetArrayBit(dest, r, ch == 1);
      r := r + 1;
    }
    BitsOfPrefix(dest[..], rb, want);
    PackedOfBits(dest[..rb], want, rows);
  }

  /** Setting bit r of a buffer whose bits below r are right makes the bits
      up to r right, and leaves the bytes from `rb` on alone. */
  lemma SetBitExtends(before: Bytes, r: nat, v: bool, want: seq<bool>, rb: nat)
    requires r < 8 * rb && rb <= |before| && r < |want| && v == want[r]
    requires forall r2 | 0 <= r2 < r :: Bit(before, r2) == want[r2]
    ensures forall r2 | 0 <= r2 < r + 1 :: Bit(SetBit(before, r, v), r2) == want[r2]
    ensures SetBit(before, r, v)[rb..] == before[rb..]
  {
    forall r2 | 0 <= r2 < r + 1
      ensures Bit(SetBit(before, r, v), r2) == want[r2]
    {
      BitOfSetBit(before, r, v, r2);
    }
    assert r / 8 < rb;
  }

  /** The bits of a prefix of whole bytes are those of the buffer. */
  lemma BitsOfPrefix(d: Bytes, rb: nat, want: seq<bool>)
    requires rb <= |d| && |want| == 8 * rb
    requires forall i | 0 <= i < 8 * rb :: Bit(d, i) == want[i]
    ensures forall i | 0 <= i < 8 * rb :: Bit(d[..rb], i) == want[i]
  {
  }

  /** A buffer of whole bytes whose bits are `bits` is their packing. */
  lemma PackedOfBits(d: Bytes, bits: seq<bool>, n: nat)
    requires n % 8 == 0 && 8 * |d| == n && |bits| == n
    requires forall i | 0 <= i < n :: Bit(d, i) == bits[i]
    ensures d == Packed(bits, n)
  {
    forall i | 0 <= i < 8 * |d|
      ensures Bit(d, i) == Bit(Packed(bits, n), i)
    {
      PackedBits(bits, n, i);
    }
    BytesByBits(d, Packed(bits, n));
  }
}
