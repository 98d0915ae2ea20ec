/**
 * The IKNP extension box (`SenderExtensionBox`, `RecverExtensionBox` and
 * their `New`, `Xpose`, `SendMsg(s)` and `RecvMsg(s)` functions,
 * src/ext/oblivc/ot.c:622-753 and 942-1036).
 *
 * Both ends hold k = 8 * keyBytes keyed generators. The receiver keeps
 * two per row, seeded by `seeds0[i]` and `seeds1[i]`; the sender keeps
 * one, seeded by whichever of the two its secret bit S[i] chose in the
 * base transfers. `Xpose` draws `rowBytes` bytes from every generator and
 * lays k rows out in `box`; afterwards sender row i XOR receiver row i is
 * `mask` where S[i] holds and zero elsewhere (`RowsCorrelated`). Column c
 * of the box then serves as a key: the receiver's column key is the
 * sender's, or the sender's XOR `spack`, as bit c of `mask` says
 * (`ColumnKeysCorrelated`), so the receiver opens exactly the message
 * it chose (`Delivered`, `TransferCorrect`); with the choice bits packed
 * into `mask`, that is the option each choice bit picks (`ExtensionCorrect`).
 *
 * The generators are the abstract stream `prg(seed, pos, len)`; every
 * generator of a box has been advanced by the same amount, `pos`.
 */
module ExtBox {
  import opened Bytes
  import opened Packing
  import opened NpotSpec
  import opened Npot
  import opened BitMatrix

  /** `BATCH_SIZE`: transfers per batch in the base transfers. */
  const BATCH_SIZE: nat := 5
  /** `1 << BATCH_SIZE`: the width of the base 1-out-of-n transfers. */
  const NMAX: nat := 32
  /** `OT_SEEDLEN`: the seed length of the keyed generators. */
  const OT_SEEDLEN: nat := SEED_BYTES

  // ---------------------------------------------------------------------
  // The rows of the box

  /** The next `len` bytes of the generator keyed by `seed`, advanced by `pos`. */
  function Stream(prg: Prg, seed: Bytes, pos: nat, len: nat): (r: Bytes)
    ensures |r| == len
  {
    prg(seed, pos, len)
  }

  /** The rows `senderExtensionBoxXpose` writes: the next `rowBytes` of
      generator i, XORed with the row received where S[i] holds. */
  function SenderRows(prg: Prg, seeds: seq<Bytes>, S: seq<bool>, pos: nat, rowBytes: nat, recvd: seq<Bytes>): (r: seq<Bytes>)
    requires |S| == |seeds| == |recvd| && Uniform(recvd, rowBytes)
    ensures |r| == |seeds| && Uniform(r, rowBytes)
  {
    seq(|seeds|, i requires 0 <= i < |seeds| =>
      if S[i] then Xor(recvd[i], Stream(prg, seeds[i], pos, rowBytes)) else Stream(prg, seeds[i], pos, rowBytes))
  }

  /** The rows `recverExtensionBoxXpose` writes: the next `rowBytes` of
      generator 0 of each row. */
  function RecverRows(prg: Prg, seeds0: seq<Bytes>, pos: nat, rowBytes: nat): (r: seq<Bytes>)
    ensures |r| == |seeds0| && Uniform(r, rowBytes)
  {
    seq(|seeds0|, i requires 0 <= i < |seeds0| => Stream(prg, seeds0[i], pos, rowBytes))
  }

  /** The rows `recverExtensionBoxXpose` sends: both generators' output
      XORed together and with `mask`. */
  function RecverSent(prg: Prg, seeds0: seq<Bytes>, seeds1: seq<Bytes>, pos: nat, rowBytes: nat, mask: Bytes): (r: seq<Bytes>)
    requires |seeds0| == |seeds1| && |mask| == rowBytes
    ensures |r| == |seeds0| && Uniform(r, rowBytes)
  {
    seq(|seeds0|, i requires 0 <= i < |seeds0| =>
      Xor(Xor(Stream(prg, seeds1[i], pos, rowBytes), Stream(prg, seeds0[i], pos, rowBytes)), mask))
  }

  /** The sender's generator i is the receiver's generator S[i] of row i. */
  ghost predicate Correlated(seeds: seq<Bytes>, S: seq<bool>, seeds0: seq<Bytes>, seeds1: seq<Bytes>)
  {
    && |seeds| == |S| == |seeds0| == |seeds1|
    && forall i | 0 <= i < |S| :: seeds[i] == if S[i] then seeds1[i] else seeds0[i]
  }

  /** Sender row i XOR receiver row i is `mask` where S[i] holds, and zero
      elsewhere: the property the box is built for. */
  ghost predicate BoxesCorrelated(srows: seq<Bytes>, rrows: seq<Bytes>, S: seq<bool>, mask: Bytes)
  {
    && |srows| == |rrows| == |S|
    && Uniform(srows, |mask|) && Uniform(rrows, |mask|)
    && forall i | 0 <= i < |S| :: Xor(srows[i], rrows[i]) == if S[i] then mask else Zeros(|mask|)
  }

  /** After both `Xpose` calls at the same stream position, with the rows
      the receiver sent arriving at the sender, the boxes are correlated. */
  lemma RowsCorrelated(prg: Prg, seeds: seq<Bytes>, S: seq<bool>, seeds0: seq<Bytes>, seeds1: seq<Bytes>,
                       pos: nat, mask: Bytes)
    requires Correlated(seeds, S, seeds0, seeds1)
    ensures BoxesCorrelated(
      SenderRows(prg, seeds, S, pos, |mask|, RecverSent(prg, seeds0, seeds1, pos, |mask|, mask)),
      RecverRows(prg, seeds0, pos, |mask|), S, mask)
  {
    var rb := |mask|;
    var sent := RecverSent(prg, seeds0, seeds1, pos, rb, mask);
    var srows, rrows := SenderRows(prg, seeds, S, pos, rb, sent), RecverRows(prg, seeds0, pos, rb);
    forall i | 0 <= i < |S|
      ensures Xor(srows[i], rrows[i]) == if S[i] then mask else Zeros(rb)
    {
      var k0, k1 := Stream(prg, seeds0[i], pos, rb), Stream(prg, seeds1[i], pos, rb);
      assert rrows[i] == k0;
      if S[i] {
        assert srows[i] == Xor(Xor(Xor(k1, k0), mask), k1);
        assert forall j | 0 <= j < rb :: Xor(srows[i], k0)[j] == mask[j];
      } else {
        assert srows[i] == k0;
        XorSelf(k0);
      }
    }
  }

  // ---------------------------------------------------------------------
  // Setting the boxes up

  /** The seeds the sender box keeps: the `k` blocks of what the base
      transfers opened. */
  function SeedBlocks(buf: Bytes, k: nat): (r: seq<Bytes>)
    requires k * OT_SEEDLEN <= |buf|
    ensures |r| == k && Uniform(r, OT_SEEDLEN)
  {
    seq(k, i requires 0 <= i < k => BlockBound(k, OT_SEEDLEN, i); Block(buf, OT_SEEDLEN, i))
  }

  /** The seeds `senderExtensionBoxNew` obtains from the base messages `ms`
      with its secret bits S as choices. */
  function ReceivedSeeds(ms: seq<LongMsg>, S: seq<bool>, prg: Prg): (r: seq<Bytes>)
    requires |ms| == |Batches(|S|, BATCH_SIZE)|
    requires BatchShaped(ms, OT_SEEDLEN, NMAX, Batches(|S|, BATCH_SIZE))
    ensures |r| == |S| && Uniform(r, OT_SEEDLEN)
  {
    BatchesAreConsecutive(|S|, BATCH_SIZE);
    OpenedLength(ms, S, OT_SEEDLEN, NMAX, prg, Batches(|S|, BATCH_SIZE), |S|);
    SeedBlocks(BatchOpened(ms, S, OT_SEEDLEN, NMAX, prg, Batches(|S|, BATCH_SIZE)), |S|)
  }

  /** What the receiver box sends in the base transfers: `seeds0` and
      `seeds1` as the two options of each of the k transfers. */
  function SetupSent(tape: Tape, prg: Prg, seeds0: seq<Bytes>, seeds1: seq<Bytes>): (r: seq<LongMsg>)
    requires Options(seeds0, seeds1, OT_SEEDLEN)
    ensures |r| == |Batches(|seeds0|, BATCH_SIZE)|
  {
    OneOfTwoCorrect(tape, 0, 0, NMAX, prg, seeds0, seeds1, OT_SEEDLEN, seq(|seeds0|, _ => false), BATCH_SIZE);
    BatchSent(tape, 0, 0, NMAX, prg, seeds0, seeds1, OT_SEEDLEN, Batches(|seeds0|, BATCH_SIZE))
  }

  /** The base transfers give the sender box, for each row i, the seed of
      the receiver's generator S[i]: the boxes start out correlated. */
  lemma SetupCorrelates(tape: Tape, prg: Prg, seeds0: seq<Bytes>, seeds1: seq<Bytes>, S: seq<bool>)
    requires Options(seeds0, seeds1, OT_SEEDLEN) && |S| == |seeds0|
    ensures var ms := SetupSent(tape, prg, seeds0, seeds1);
      && BatchShaped(ms, OT_SEEDLEN, NMAX, Batches(|S|, BATCH_SIZE))
      && BatchSessions(ms, 0, NMAX, Batches(|S|, BATCH_SIZE))
      && Correlated(ReceivedSeeds(ms, S, prg), S, seeds0, seeds1)
  {
    var ms := SetupSent(tape, prg, seeds0, seeds1);
    OneOfTwoCorrect(tape, 0, 0, NMAX, prg, seeds0, seeds1, OT_SEEDLEN, S, BATCH_SIZE);
    var w := seq(|S|, j requires 0 <= j < |S| => if S[j] then seeds1[j] else seeds0[j]);
    assert Chosen(seeds0, seeds1, S) == Flatten(w);
    BlocksOfFlatten(w);
  }

  /** Cutting a concatenation of seeds back into seeds gives them back. */
  lemma BlocksOfFlatten(w: seq<Bytes>)
    requires Uniform(w, OT_SEEDLEN)
    ensures |Flatten(w)| == |w| * OT_SEEDLEN && SeedBlocks(Flatten(w), |w|) == w
  {
    FlattenLength(w, OT_SEEDLEN);
    var got := SeedBlocks(Flatten(w), |w|);
    forall i | 0 <= i < |w|
      ensures got[i] == w[i]
    {
      FlattenBlock(w, OT_SEEDLEN, i);
    }
  }

  /** The sender end of the extension box. */
  class SenderExtensionBox {
    const keyBytes: nat
    /** The secret bits S, packed. */
    const spack: Bytes
    const S: seq<bool>
    /** The keys of the generators `keyblock[i]`. */
    const seeds: seq<Bytes>
    const prg: Prg
    /** How far every generator has been advanced. */
    var pos: nat

    ghost predicate Valid()
    {
      && |spack| == keyBytes && |seeds| == 8 * keyBytes
      && S == Unpacked(spack, 8 * keyBytes)
    }

    constructor (keyBytes: nat, spack: Bytes, S: seq<bool>, seeds: seq<Bytes>, prg: Prg)
      ensures this.keyBytes == keyBytes && this.spack == spack && this.S == S
      ensures this.seeds == seeds && this.prg == prg && pos == 0
    {
      this.keyBytes := keyBytes;
      this.spack := spack;
      this.S := S;
      this.seeds := seeds;
      this.prg := prg;
      pos := 0;
    }

    /** `senderExtensionBoxNew(pd, destParty, keyBytes)`: unpacks the random
        `spack` into S, receives one seed per row with S as the choices,
        and keys one generator with each. */
    static method New(keyBytes: nat, spack: Bytes, prg: Prg, ms: seq<LongMsg>) returns (s: SenderExtensionBox)
      requires |spack| == keyBytes
      requires |ms| == |Batches(8 * keyBytes, BATCH_SIZE)|
      requires BatchShaped(ms, OT_SEEDLEN, NMAX, Batches(8 * keyBytes, BATCH_SIZE))
      requires BatchSessions(ms, 0, NMAX, Batches(8 * keyBytes, BATCH_SIZE))
      ensures fresh(s) && s.Valid()
      ensures s.keyBytes == keyBytes && s.spack == spack && s.prg == prg && s.pos == 0
      ensures s.seeds == ReceivedSeeds(ms, s.S, prg)
    {
      var k := 8 * keyBytes;
      var sbits := new bool[k];
      UnpackBytes(sbits, spack, k);
      assert sbits[..] == sbits[..k];
      var S := sbits[..];
      var ot := new NpotRecver(NMAX, prg);
      var seed := ot.Recv1Of2(ms, S, OT_SEEDLEN, BATCH_SIZE);
      BatchesAreConsecutive(k, BATCH_SIZE);
      OpenedLength(ms, S, OT_SEEDLEN, NMAX, prg, Batches(k, BATCH_SIZE), k);
      var seeds := KeyGenerators(seed, k);
      s := new SenderExtensionBox(keyBytes, spack, S, seeds, prg);
    }

    /** `senderExtensionBoxXpose(s, box, rowBytes)`: row i of `box` becomes
        the next `rowBytes` of generator i, XORed with the received row
        where S[i] holds; each generator advances by `rowBytes`. */
    method Xpose(box: array<Byte>, rowBytes: nat, recvd: seq<Bytes>)
      requires Valid() && 8 * keyBytes * rowBytes <= box.Length
      requires |recvd| == 8 * keyBytes && Uniform(recvd, rowBytes)
      modifies this, box
      ensures pos == old(pos) + rowBytes
      ensures box[..8 * keyBytes * rowBytes] == Flatten(SenderRows(prg, seeds, S, old(pos), rowBytes, recvd))
      ensures box[8 * keyBytes * rowBytes..] == old(box[8 * keyBytes * rowBytes..])
    {
      FillSenderRows(box, prg, seeds, S, pos, rowBytes, recvd);
      pos := pos + rowBytes;
    }

    /** `senderExtensionBoxSendMsg(s, cipher, box, rowBytes, c, nonce,
        msg0, msg1, len)`: encrypts `msg0` under column c of the box and
        `msg1` under that column XOR `spack`, both with `nonce`. Whoever
        holds one of the two keys opens the matching message. */
    method SendMsg(pad: Pad, box: Bytes, rowBytes: nat, c: nat, nonce: int, msg0: Bytes, msg1: Bytes)
        returns (ct0: Bytes, ct1: Bytes)
      requires Valid() && 8 * keyBytes * rowBytes <= |box| && c < 8 * rowBytes
      ensures ct0 == Crypt(pad, ColumnKey(box, rowBytes, 8 * keyBytes, c), nonce, msg0)
      ensures ct1 == Crypt(pad, Xor(ColumnKey(box, rowBytes, 8 * keyBytes, c), spack), nonce, msg1)
      ensures Crypt(pad, ColumnKey(box, rowBytes, 8 * keyBytes, c), nonce, ct0) == msg0
      ensures Crypt(pad, Xor(ColumnKey(box, rowBytes, 8 * keyBytes, c), spack), nonce, ct1) == msg1
    {
      var keyx := ExtractColumn(box, rowBytes, keyBytes, c);
      ct0 := Crypt(pad, keyx, nonce, msg0);
      CryptTwice(pad, keyx, nonce, msg0);
      keyx := Xor(keyx, spack);
      ct1 := Crypt(pad, keyx, nonce, msg1);
      CryptTwice(pad, keyx, nonce, msg1);
    }

    /** `senderExtensionBoxSendMsgs(s, cipher, box, n, nonce0, opt0, opt1,
        len)`: transfer i uses column i of the box and nonce nonce0 + i. */
    method SendMsgs(pad: Pad, box: Bytes, n: nat, nonce0: int, opt0: seq<Bytes>, opt1: seq<Bytes>)
        returns (cts: seq<(Bytes, Bytes)>)
      requires Valid() && 8 * keyBytes * ByteCount(n) <= |box| && |opt0| == |opt1| == n
      ensures cts == Sealed(pad, box, ByteCount(n), 8 * keyBytes, spack, nonce0, opt0, opt1)
    {
      var rowBytes := ByteCount(n);
      cts := [];
      var i := 0;
      while i < n
        invariant 0 <= i <= n
        invariant cts == Sealed(pad, box, rowBytes, 8 * keyBytes, spack, nonce0, opt0[..i], opt1[..i])
      {
        ColumnInRow(n, i);
        var ct0, ct1 := SendMsg(pad, box, rowBytes, i, nonce0 + i, opt0[i], opt1[i]);
        SealedSnoc(pad, box, rowBytes, 8 * keyBytes, spack, nonce0, opt0, opt1, i);
        cts := cts + [(ct0, ct1)];
        i := i + 1;
      }
      assert opt0[..n] == opt0 && opt1[..n] == opt1;
    }
  }

  /** The receiver end of the extension box. */
  class RecverExtensionBox {
    const keyBytes: nat
    /** The keys of the generators `keyblock0[i]` and `keyblock1[i]`. */
    const seeds0: seq<Bytes>
    const seeds1: seq<Bytes>
    const prg: Prg
    /** How far every generator has been advanced. */
    var pos: nat

    ghost predicate Valid()
    {
      |seeds0| == 8 * keyBytes && |seeds1| == 8 * keyBytes
    }

    constructor (keyBytes: nat, seeds0: seq<Bytes>, seeds1: seq<Bytes>, prg: Prg)
      ensures this.keyBytes == keyBytes && this.seeds0 == seeds0 && this.seeds1 == seeds1
      ensures this.prg == prg && pos == 0
    {
      this.keyBytes := keyBytes;
      this.seeds0 := seeds0;
      this.seeds1 := seeds1;
      this.prg := prg;
      pos := 0;
    }

    /** `recverExtensionBoxNew(pd, srcParty, keyBytes)`: offers the random
        seeds `seeds0[i]` and `seeds1[i]` as the two options of base
        transfer i, and keys two generators per row with them. */
    static method New(keyBytes: nat, seeds0: seq<Bytes>, seeds1: seq<Bytes>, tape: Tape, prg: Prg)
        returns (r: RecverExtensionBox, ms: seq<LongMsg>)
      requires |seeds0| == 8 * keyBytes && Options(seeds0, seeds1, OT_SEEDLEN)
      ensures fresh(r) && r.Valid()
      ensures r.keyBytes == keyBytes && r.seeds0 == seeds0 && r.seeds1 == seeds1 && r.prg == prg && r.pos == 0
      ensures ms == SetupSent(tape, prg, seeds0, seeds1)
    {
      var ot := new NpotSender(NMAX, tape, prg);
      ms := ot.Send1Of2(seeds0, seeds1, OT_SEEDLEN, BATCH_SIZE);
      r := new RecverExtensionBox(keyBytes, seeds0, seeds1, prg);
    }

    /** `recverExtensionBoxXpose(r, box, mask, rowBytes)`: row i of `box`
        becomes the next `rowBytes` of generator 0 of row i, and the row
        sent for i is that XOR the output of generator 1 XOR `mask`; each
        generator advances by `rowBytes`. */
    method Xpose(box: array<Byte>, mask: Bytes, rowBytes: nat) returns (sent: seq<Bytes>)
      requires Valid() && 8 * keyBytes * rowBytes <= box.Length && |mask| == rowBytes
      modifies this, box
      ensures pos == old(pos) + rowBytes
      ensures box[..8 * keyBytes * rowBytes] == Flatten(RecverRows(prg, seeds0, old(pos), rowBytes))
      ensures box[8 * keyBytes * rowBytes..] == old(box[8 * keyBytes * rowBytes..])
      ensures sent == RecverSent(prg, seeds0, seeds1, old(pos), rowBytes, mask)
    {
      sent := FillRecverRows(box, prg, seeds0, seeds1, pos, rowBytes, mask);
      pos := pos + rowBytes;
    }

    /** `recverExtensionBoxRecvMsg(r, cipher, box, rowBytes, c, nonce, msg,
        mask, len)`: of the two ciphertexts, in the order sent, decrypts
        the one bit c of `mask` selects, under column c of the box. */
    method RecvMsg(pad: Pad, box: Bytes, rowBytes: nat, c: nat, nonce: int, mask: Bytes, first: Bytes, second: Bytes)
        returns (msg: Bytes)
      requires Valid() && 8 * keyBytes * rowBytes <= |box| && c < 8 * rowBytes && c < 8 * |mask|
      ensures msg == Crypt(pad, ColumnKey(box, rowBytes, 8 * keyBytes, c), nonce, if Bit(mask, c) then second else first)
    {
      var sel := Bit(mask, c);
      var keyx := ExtractColumn(box, rowBytes, keyBytes, c);
      var ctext := if sel then second else first;
      msg := Crypt(pad, keyx, nonce, ctext);
    }

    /** `recverExtensionBoxRecvMsgs(r, cipher, box, n, nonce0, msg, mask,
        len)`: transfer i is opened with column i and nonce nonce0 + i, and
        the results are laid one after another. */
    method RecvMsgs(pad: Pad, box: Bytes, n: nat, nonce0: int, mask: Bytes, cts: seq<(Bytes, Bytes)>)
        returns (dest: Bytes)
      requires Valid() && 8 * keyBytes * ByteCount(n) <= |box| && ByteCount(n) <= |mask| && |cts| == n
      ensures dest == Flatten(Opened(pad, box, ByteCount(n), 8 * keyBytes, nonce0, mask, cts))
    {
      var rowBytes := ByteCount(n);
      dest := [];
      var i := 0;
      while i < n
        invariant 0 <= i <= n
        invariant dest == OpenedPrefix(pad, box, rowBytes, 8 * keyBytes, nonce0, mask, cts, i)
      {
        ColumnInRow(n, i);
        var msg := RecvMsg(pad, box, rowBytes, i, nonce0 + i, mask, cts[i].0, cts[i].1);
        OpenedStep(pad, box, rowBytes, 8 * keyBytes, nonce0, mask, cts, i);
        dest := dest + msg;
        i := i + 1;
      }
      PrefixWhole(Opened(pad, box, rowBytes, 8 * keyBytes, nonce0, mask, cts), n);
    }
  }

  /** The loop of `senderExtensionBoxXpose`: row i of `box` becomes
      generator i's output, XORed with received row i where S[i] holds. */
  method FillSenderRows(box: array<Byte>, prg: Prg, seeds: seq<Bytes>, S: seq<bool>, pos: nat, rowBytes: nat,
                        recvd: seq<Bytes>)
    requires |S| == |seeds| == |recvd| && Uniform(recvd, rowBytes) && |seeds| * rowBytes <= box.Length
    modifies box
    ensures box[..|seeds| * rowBytes] == Flatten(SenderRows(prg, seeds, S, pos, rowBytes, recvd))
    ensures box[|seeds| * rowBytes..] == old(box[|seeds| * rowBytes..])
  {
    var k := |seeds|;
    ghost var rows := SenderRows(prg, seeds, S, pos, rowBytes, recvd);
    var i, off := 0, 0;
    while i < k
      invariant 0 <= i <= k && off == i * rowBytes && off <= k * rowBytes
      invariant box[..off] == Flatten(rows[..i])
      invariant box[k * rowBytes..] == old(box[k * rowBytes..])
    {
      var keymine := Stream(prg, seeds[i], pos, rowBytes);
      var row := if S[i] then Xor(recvd[i], keymine) else keymine;
      assert row == rows[i];
      MulMono(i + 1, k, rowBytes);
      assert off + rowBytes == (i + 1) * rowBytes;
      WriteRow(box, off, row, k * rowBytes, rows, i);
      i, off := i + 1, off + rowBytes;
    }
    PrefixWhole(rows, k);
  }

  /** The loop of `recverExtensionBoxXpose`: row i of `box` becomes the
      output of generator 0 of row i, and the row sent for i is that XOR
      generator 1's output XOR `mask`. */
  method FillRecverRows(box: array<Byte>, prg: Prg, seeds0: seq<Bytes>, seeds1: seq<Bytes>, pos: nat, rowBytes: nat,
                        mask: Bytes)
      returns (sent: seq<Bytes>)
    requires |seeds0| == |seeds1| && |mask| == rowBytes && |seeds0| * rowBytes <= box.Length
    modifies box
    ensures box[..|seeds0| * rowBytes] == Flatten(RecverRows(prg, seeds0, pos, rowBytes))
    ensures box[|seeds0| * rowBytes..] == old(box[|seeds0| * rowBytes..])
    ensures sent == RecverSent(prg, seeds0, seeds1, pos, rowBytes, mask)
  {
    var k := |seeds0|;
    ghost var rows := RecverRows(prg, seeds0, pos, rowBytes);
    ghost var all := RecverSent(prg, seeds0, seeds1, pos, rowBytes, mask);
    sent := [];
    var i, off := 0, 0;
    while i < k
      invariant 0 <= i <= k && off == i * rowBytes && off <= k * rowBytes
      invariant box[..off] == Flatten(rows[..i])
      invariant box[k * rowBytes..] == old(box[k * rowBytes..])
      invariant sent == all[..i]
    {
      var key0 := Stream(prg, seeds0[i], pos, rowBytes);
      var key1 := Stream(prg, seeds1[i], pos, rowBytes);
      assert key0 == rows[i];
      MulMono(i + 1, k, rowBytes);
      assert off + rowBytes == (i + 1) * rowBytes;
      WriteRow(box, off, key0, k * rowBytes, rows, i);
      var keyxor := Xor(Xor(key1, key0), mask);
      sent := sent + [keyxor];
      i, off := i + 1, off + rowBytes;
    }
    PrefixWhole(rows, k);
    PrefixWhole(all, k);
  }

  /** The loop of `senderExtensionBoxNew` that keys generator i with seed i. */
  method KeyGenerators(seed: Bytes, k: nat) returns (seeds: seq<Bytes>)
    requires k * OT_SEEDLEN <= |seed|
    ensures seeds == SeedBlocks(seed, k)
  {
    seeds := [];
    var i := 0;
    while i < k
      invariant 0 <= i <= k
      invariant seeds == SeedBlocks(seed, k)[..i]
    {
      BlockBound(k, OT_SEEDLEN, i);
      seeds := seeds + [seed[i * OT_SEEDLEN .. i * OT_SEEDLEN + OT_SEEDLEN]];
      i := i + 1;
    }
  }

  /** One row of an `Xpose` loop: bytes [off, off + |row|) of `box` become
      row i, and nothing else changes. */
  method WriteRow(box: array<Byte>, off: nat, row: Bytes, end: nat, ghost rows: seq<Bytes>, ghost i: nat)
    requires i < |rows| && row == rows[i] && off + |row| <= end <= box.Length
    requires box[..off] == Flatten(rows[..i])
    modifies box
    ensures box[..off + |row|] == Flatten(rows[..i + 1])
    ensures box[end..] == old(box[end..])
  {
    ghost var before := box[..];
    CopyInto(box, off, row);
    assert box[..off + |row|] == box[..off] + box[off .. off + |row|];
    FlattenPrefix(rows, i);
    assert box[end..] == box[off + |row|..][end - (off + |row|)..];
  }

  // ---------------------------------------------------------------------
  // Column keys and the pad

  /** Column c of the box: bit c of each of its k rows. */
  function Column(box: Bytes, rowBytes: nat, k: nat, c: nat): (r: seq<bool>)
    requires k * rowBytes <= |box| && c < 8 * rowBytes
    ensures |r| == k
  {
    seq(k, i requires 0 <= i < k => BlockBound(k, rowBytes, i); Bit(Block(box, rowBytes, i), c))
  }

  /** The key of column c: the column packed into k / 8 bytes. */
  function ColumnKey(box: Bytes, rowBytes: nat, k: nat, c: nat): (r: Bytes)
    requires k * rowBytes <= |box| && c < 8 * rowBytes
    ensures |r| == ByteCount(k)
  {
    Packed(Column(box, rowBytes, k, c), k)
  }

  /** `bcipherCryptNoResize(cipher, key, nonce, dest, src, n)`: `src`
      XORed with the pad of the key and the nonce; it both encrypts and
      decrypts. */
  function Crypt(pad: Pad, key: Bytes, nonce: int, src: Bytes): (r: Bytes)
    ensures |r| == |src|
  {
    Xor(pad(key, nonce, |src|), src)
  }

  /** Decrypting with the key and nonce used to encrypt gives the message back. */
  lemma CryptTwice(pad: Pad, key: Bytes, nonce: int, msg: Bytes)
    ensures Crypt(pad, key, nonce, Crypt(pad, key, nonce, msg)) == msg
  {
    var p := pad(key, nonce, |msg|);
    assert forall j | 0 <= j < |msg| :: Xor(p, Xor(p, msg))[j] == msg[j];
  }

  /** The key loop of `senderExtensionBoxSendMsg` and
      `recverExtensionBoxRecvMsg`: a zeroed key gets bit i set to bit c
      of row i, for each of the k rows. */
  method ExtractColumn(box: Bytes, rowBytes: nat, keyBytes: nat, c: nat) returns (keyx: Bytes)
    requires 8 * keyBytes * rowBytes <= |box| && c < 8 * rowBytes
    ensures keyx == ColumnKey(box, rowBytes, 8 * keyBytes, c)
  {
    var k := 8 * keyBytes;
    ghost var col := Column(box, rowBytes, k, c);
    var key := new Byte[keyBytes](_ => 0);
    var i := 0;
    while i < k
      invariant 0 <= i <= k
      invariant forall t | 0 <= t < i :: Bit(key[..], t) == col[t]
    {
      BlockBound(k, rowBytes, i);
      var bit := Bit(box[i * rowBytes .. i * rowBytes + rowBytes], c);
      SetBitExtends(key[..], i, bit, col, keyBytes);
      SetArrayBit(key, i, bit);
      i := i + 1;
    }
    keyx := key[..];
    PackedOfBits(keyx, col, k);
  }

  /** Bit i of a column key of a box laid out row by row is bit c of row i. */
  lemma ColumnKeyBit(rows: seq<Bytes>, rowBytes: nat, c: nat, i: nat)
    requires Uniform(rows, rowBytes) && c < 8 * rowBytes && i < |rows|
    ensures |Flatten(rows)| == |rows| * rowBytes && i < 8 * ByteCount(|rows|)
    ensures Bit(ColumnKey(Flatten(rows), rowBytes, |rows|, c), i) == Bit(rows[i], c)
  {
    FlattenBlock(rows, rowBytes, i);
    PackedBits(Column(Flatten(rows), rowBytes, |rows|, c), |rows|, i);
  }

  /** With correlated boxes the receiver's key of column c is the sender's
      key where bit c of `mask` is clear, and the sender's key XOR `spack`
      where it is set. */
  lemma ColumnKeysCorrelated(srows: seq<Bytes>, rrows: seq<Bytes>, spack: Bytes, mask: Bytes, c: nat)
    requires BoxesCorrelated(srows, rrows, Unpacked(spack, 8 * |spack|), mask) && c < 8 * |mask|
    ensures |Flatten(srows)| == |Flatten(rrows)| == 8 * |spack| * |mask|
    ensures ColumnKey(Flatten(rrows), |mask|, 8 * |spack|, c)
         == if Bit(mask, c) then Xor(ColumnKey(Flatten(srows), |mask|, 8 * |spack|, c), spack)
            else ColumnKey(Flatten(srows), |mask|, 8 * |spack|, c)
  {
    var k, rb := 8 * |spack|, |mask|;
    var S := Unpacked(spack, k);
    FlattenLength(srows, rb);
    FlattenLength(rrows, rb);
    var sk, rk := ColumnKey(Flatten(srows), rb, k, c), ColumnKey(Flatten(rrows), rb, k, c);
    assert ByteCount(k) == |spack|;
    var want := if Bit(mask, c) then Xor(sk, spack) else sk;
    forall i | 0 <= i < 8 * |rk|
      ensures Bit(rk, i) == Bit(want, i)
    {
      ColumnKeyBit(srows, rb, c, i);
      ColumnKeyBit(rrows, rb, c, i);
      BitOfXor(srows[i], rrows[i], c);
      assert Bit(Xor(srows[i], rrows[i]), c) == (S[i] && Bit(mask, c));
      if Bit(mask, c) {
        BitOfXor(sk, spack, i);
        assert Bit(spack, i) == S[i];
      }
    }
    BytesByBits(rk, want);
  }

  /** The receiver's key of every column c < n is the sender's key where
      bit c of `mask` is clear, and the sender's key XOR `spack` where it
      is set. */
  ghost predicate KeysCorrelated(sbox: Bytes, rbox: Bytes, rowBytes: nat, k: nat, spack: Bytes, mask: Bytes, n: nat)
    requires k * rowBytes <= |sbox| && k * rowBytes <= |rbox| && n <= 8 * rowBytes <= 8 * |mask|
    requires |spack| == ByteCount(k)
  {
    forall c | 0 <= c < n ::
      ColumnKey(rbox, rowBytes, k, c)
        == if Bit(mask, c) then Xor(ColumnKey(sbox, rowBytes, k, c), spack) else ColumnKey(sbox, rowBytes, k, c)
  }

  /** Correlated rows give correlated column keys, for every column. */
  lemma BoxKeysCorrelated(srows: seq<Bytes>, rrows: seq<Bytes>, spack: Bytes, mask: Bytes)
    requires BoxesCorrelated(srows, rrows, Unpacked(spack, 8 * |spack|), mask)
    ensures |Flatten(srows)| == |Flatten(rrows)| == 8 * |spack| * |mask| && ByteCount(8 * |spack|) == |spack|
    ensures KeysCorrelated(Flatten(srows), Flatten(rrows), |mask|, 8 * |spack|, spack, mask, 8 * |mask|)
  {
    FlattenLength(srows, |mask|);
    FlattenLength(rrows, |mask|);
    forall c | 0 <= c < 8 * |mask|
      ensures ColumnKey(Flatten(rrows), |mask|, 8 * |spack|, c)
           == if Bit(mask, c) then Xor(ColumnKey(Flatten(srows), |mask|, 8 * |spack|, c), spack)
              else ColumnKey(Flatten(srows), |mask|, 8 * |spack|, c)
    {
      ColumnKeysCorrelated(srows, rrows, spack, mask, c);
    }
  }

  /** `recverExtensionBoxRecvMsg` after `senderExtensionBoxSendMsg` with
      correlated keys and the same nonce: the receiver gets `msg1` when its
      key is the sender's key XOR `spack` (bit set) and `msg0` when it is
      the sender's key (bit clear). */
  lemma Delivered(pad: Pad, skey: Bytes, rkey: Bytes, spack: Bytes, bit: bool, nonce: int, msg0: Bytes, msg1: Bytes)
    requires |skey| == |spack| && rkey == if bit then Xor(skey, spack) else skey
    ensures var ct0, ct1 := Crypt(pad, skey, nonce, msg0), Crypt(pad, Xor(skey, spack), nonce, msg1);
      Crypt(pad, rkey, nonce, if bit then ct1 else ct0) == if bit then msg1 else msg0
  {
    CryptTwice(pad, skey, nonce, msg0);
    CryptTwice(pad, Xor(skey, spack), nonce, msg1);
  }

  /** `recverExtensionBoxRecvMsgs` after `senderExtensionBoxSendMsgs` on
      boxes with correlated keys: transfer i yields opt1[i] where bit i of
      `mask` is set and opt0[i] where it is clear. */
  lemma TransferCorrect(pad: Pad, sbox: Bytes, rbox: Bytes, rowBytes: nat, k: nat, spack: Bytes, mask: Bytes,
                        nonce0: int, opt0: seq<Bytes>, opt1: seq<Bytes>)
    requires k * rowBytes <= |sbox| && k * rowBytes <= |rbox| && rowBytes <= |mask| && |spack| == ByteCount(k)
    requires |opt0| == |opt1| <= 8 * rowBytes
    requires KeysCorrelated(sbox, rbox, rowBytes, k, spack, mask, |opt0|)
    ensures Opened(pad, rbox, rowBytes, k, nonce0, mask, Sealed(pad, sbox, rowBytes, k, spack, nonce0, opt0, opt1))
         == seq(|opt0|, i requires 0 <= i < |opt0| => if Bit(mask, i) then opt1[i] else opt0[i])
  {
    var cts := Sealed(pad, sbox, rowBytes, k, spack, nonce0, opt0, opt1);
    var got := Opened(pad, rbox, rowBytes, k, nonce0, mask, cts);
    forall i | 0 <= i < |opt0|
      ensures got[i] == if Bit(mask, i) then opt1[i] else opt0[i]
    {
      var skey := ColumnKey(sbox, rowBytes, k, i);
      Delivered(pad, skey, ColumnKey(rbox, rowBytes, k, i), spack, Bit(mask, i), nonce0 + i, opt0[i], opt1[i]);
    }
  }

  /** The extension end to end: once the boxes hold correlated rows and the
      receiver's mask packs its choice bits `sel`, the n transfers deliver
      exactly the options `sel` picks. */
  lemma ExtensionCorrect(pad: Pad, srows: seq<Bytes>, rrows: seq<Bytes>, spack: Bytes, sel: seq<bool>,
                         nonce0: int, opt0: seq<Bytes>, opt1: seq<Bytes>)
    requires |opt0| == |opt1| == |sel|
    requires BoxesCorrelated(srows, rrows, Unpacked(spack, 8 * |spack|), Packed(sel, |sel|))
    ensures |Flatten(srows)| == |Flatten(rrows)| == 8 * |spack| * ByteCount(|sel|)
    ensures |sel| <= 8 * ByteCount(|sel|) && ByteCount(8 * |spack|) == |spack|
    ensures Flatten(Opened(pad, Flatten(rrows), ByteCount(|sel|), 8 * |spack|, nonce0, Packed(sel, |sel|),
                   Sealed(pad, Flatten(srows), ByteCount(|sel|), 8 * |spack|, spack, nonce0, opt0, opt1)))
         == Chosen(opt0, opt1, sel)
  {
    var n, mask := |sel|, Packed(sel, |sel|);
    BoxKeysCorrelated(srows, rrows, spack, mask);
    assert KeysCorrelated(Flatten(srows), Flatten(rrows), |mask|, 8 * |spack|, spack, mask, n);
    TransferCorrect(pad, Flatten(srows), Flatten(rrows), |mask|, 8 * |spack|, spack, mask, nonce0, opt0, opt1);
    var got := seq(n, i requires 0 <= i < n => if Bit(mask, i) then opt1[i] else opt0[i]);
    var want := seq(n, i requires 0 <= i < n => if sel[i] then opt1[i] else opt0[i]);
    forall i | 0 <= i < n
      ensures got[i] == want[i]
    {
      PackedBits(sel, n, i);
    }
    assert got == want;
  }

  /** The first i messages of `Opened`, laid one after another. */
  function OpenedPrefix(pad: Pad, box: Bytes, rowBytes: nat, k: nat, nonce0: int, mask: Bytes,
                        cts: seq<(Bytes, Bytes)>, i: nat): Bytes
    requires k * rowBytes <= |box| && i <= |cts| <= 8 * rowBytes && rowBytes <= |mask|
  {
    Flatten(Opened(pad, box, rowBytes, k, nonce0, mask, cts)[..i])
  }

  lemma OpenedStep(pad: Pad, box: Bytes, rowBytes: nat, k: nat, nonce0: int, mask: Bytes,
                   cts: seq<(Bytes, Bytes)>, i: nat)
    requires k * rowBytes <= |box| && i < |cts| <= 8 * rowBytes && rowBytes <= |mask|
    ensures OpenedPrefix(pad, box, rowBytes, k, nonce0, mask, cts, i + 1)
         == OpenedPrefix(pad, box, rowBytes, k, nonce0, mask, cts, i)
            + OpenOne(pad, box, rowBytes, k, nonce0 + i, mask, i, cts[i])
  {
    FlattenPrefix(Opened(pad, box, rowBytes, k, nonce0, mask, cts), i);
  }

  /** Column i exists in rows of ByteCount(n) bytes for every transfer i < n. */
  lemma ColumnInRow(n: nat, i: nat)
    requires i < n
    ensures i < 8 * ByteCount(n)
  {
  }

  // ---------------------------------------------------------------------
  // Many transfers

  /** The ciphertext pairs `senderExtensionBoxSendMsgs` sends: transfer i
      under column i and nonce nonce0 + i. */
  function Sealed(pad: Pad, box: Bytes, rowBytes: nat, k: nat, spack: Bytes, nonce0: int,
                  opt0: seq<Bytes>, opt1: seq<Bytes>): (r: seq<(Bytes, Bytes)>)
    requires k * rowBytes <= |box| && |opt0| == |opt1| <= 8 * rowBytes && |spack| == ByteCount(k)
    ensures |r| == |opt0|
  {
    seq(|opt0|, i requires 0 <= i < |opt0| => SealOne(pad, box, rowBytes, k, spack, nonce0 + i, i, opt0[i], opt1[i]))
  }

  /** Transfer c sealed: `msg0` under the key of column c, `msg1` under
      that key XOR `spack`, both with `nonce`. */
  function SealOne(pad: Pad, box: Bytes, rowBytes: nat, k: nat, spack: Bytes, nonce: int, c: nat,
                   msg0: Bytes, msg1: Bytes): (Bytes, Bytes)
    requires k * rowBytes <= |box| && c < 8 * rowBytes && |spack| == ByteCount(k)
  {
    var key := ColumnKey(box, rowBytes, k, c);
    (Crypt(pad, key, nonce, msg0), Crypt(pad, Xor(key, spack), nonce, msg1))
  }

  lemma SealedSnoc(pad: Pad, box: Bytes, rowBytes: nat, k: nat, spack: Bytes, nonce0: int,
                   opt0: seq<Bytes>, opt1: seq<Bytes>, i: nat)
    requires k * rowBytes <= |box| && i < |opt0| == |opt1| <= 8 * rowBytes && |spack| == ByteCount(k)
    ensures Sealed(pad, box, rowBytes, k, spack, nonce0, opt0[..i + 1], opt1[..i + 1])
         == Sealed(pad, box, rowBytes, k, spack, nonce0, opt0[..i], opt1[..i])
            + [Sealed(pad, box, rowBytes, k, spack, nonce0, opt0, opt1)[i]]
  {
  }

  /** The messages `recverExtensionBoxRecvMsgs` opens: transfer i with
      column i and nonce nonce0 + i, from the ciphertext bit i of `mask`
      selects. */
  function Opened(pad: Pad, box: Bytes, rowBytes: nat, k: nat, nonce0: int, mask: Bytes,
                  cts: seq<(Bytes, Bytes)>): (r: seq<Bytes>)
    requires k * rowBytes <= |box| && |cts| <= 8 * rowBytes && rowBytes <= |mask|
    ensures |r| == |cts|
  {
    seq(|cts|, i requires 0 <= i < |cts| => OpenOne(pad, box, rowBytes, k, nonce0 + i, mask, i, cts[i]))
  }

  /** Transfer c opened: of the pair `ct`, the ciphertext bit c of `mask`
      selects, decrypted under the key of column c with `nonce`. */
  function OpenOne(pad: Pad, box: Bytes, rowBytes: nat, k: nat, nonce: int, mask: Bytes, c: nat,
                   ct: (Bytes, Bytes)): Bytes
    requires k * rowBytes <= |box| && c < 8 * rowBytes && rowBytes <= |mask|
  {
    Crypt(pad, ColumnKey(box, rowBytes, k, c), nonce, if Bit(mask, c) then ct.1 else ct.0)
  }
}
