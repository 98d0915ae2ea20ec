/**
 * OT extension as the rest of the library uses it
 * (src/ext/oblivc/ot.c:1038-1181).
 *
 * `HonestOTExtSender` / `HonestOTExtRecver` wrap an extension box and a
 * nonce counter: each call of n transfers fills a box of ByteCount(n)-byte
 * rows, sends or opens the n messages with nonces nonce .. nonce+n-1 and
 * advances the counter by n, so no nonce is used twice on one box (the
 * ghost set `used` records them). `HonestTransferCorrect` composes the
 * base transfers, both `Xpose` calls and the n transfers: the receiver
 * ends up with exactly the options its choice bits pick.
 *
 * `OTExtSender` / `OTExtRecver` add the hash check of `Validate` and an
 * `error` flag that stops every later call. As written the flag is set to
 * the check's success, and the messages go out whatever the check said;
 * the corrected wrappers set it on failure and then send nothing. As
 * written the two ends also disagree on an honest call: the receiver's
 * check succeeds whenever the coin toss does, while the sender's judges
 * every row by S[0] and, for a choice vector S with both values, fails
 * (`HonestHashesAsWritten`); the receiver stops and the sender goes on.
 */
module OTExt {
  import opened Bytes
  import opened Packing
  import opened NpotSpec
  import opened ExtBox
  import opened Validate

  /** `OT_KEY_BYTES_HONEST`: key bytes of an honest extension box; the
      checked one uses twice as many. */
  const OT_KEY_BYTES_HONEST: nat := 10

  /** The nonces of n transfers that start at `nonce`. */
  function NonceRange(nonce: int, n: nat): (r: set<int>)
    ensures forall x :: x in r <==> nonce <= x < nonce + n
  {
    if n == 0 then {} else NonceRange(nonce, n - 1) + {nonce + n - 1}
  }

  /** The base transfers, both `Xpose` calls at the same position and the
      n transfers compose: the receiver opens opt1[i] where sel[i] holds
      and opt0[i] elsewhere. */
  lemma HonestTransferCorrect(tape: Tape, prg: Prg, pad: Pad, seeds0: seq<Bytes>, seeds1: seq<Bytes>, spack: Bytes,
                              pos: nat, nonce: int, sel: seq<bool>, opt0: seq<Bytes>, opt1: seq<Bytes>)
    requires Options(seeds0, seeds1, OT_SEEDLEN) && |seeds0| == 8 * |spack|
    requires |opt0| == |opt1| == |sel|
    ensures var ms := SetupSent(tape, prg, seeds0, seeds1);
      |ms| == |Batches(8 * |spack|, BATCH_SIZE)| && BatchShaped(ms, OT_SEEDLEN, NMAX, Batches(8 * |spack|, BATCH_SIZE))
    ensures |sel| <= 8 * ByteCount(|sel|) && ByteCount(8 * |spack|) == |spack|
    ensures var S := Unpacked(spack, 8 * |spack|);
      var seeds := ReceivedSeeds(SetupSent(tape, prg, seeds0, seeds1), S, prg);
      var rowBytes, mask := ByteCount(|sel|), Packed(sel, |sel|);
      var sent := RecverSent(prg, seeds0, seeds1, pos, rowBytes, mask);
      var sbox := Flatten(SenderRows(prg, seeds, S, pos, rowBytes, sent));
      var rbox := Flatten(RecverRows(prg, seeds0, pos, rowBytes));
      |sbox| == |rbox| == 8 * |spack| * rowBytes
      && Flatten(Opened(pad, rbox, rowBytes, 8 * |spack|, nonce, mask,
                        Sealed(pad, sbox, rowBytes, 8 * |spack|, spack, nonce, opt0, opt1)))
         == Chosen(opt0, opt1, sel)
  {
    var S := Unpacked(spack, 8 * |spack|);
    SetupCorrelates(tape, prg, seeds0, seeds1, S);
    var seeds := ReceivedSeeds(SetupSent(tape, prg, seeds0, seeds1), S, prg);
    var mask := Packed(sel, |sel|);
    RowsCorrelated(prg, seeds, S, seeds0, seeds1, pos, mask);
    var sent := RecverSent(prg, seeds0, seeds1, pos, |mask|, mask);
    ExtensionCorrect(pad, SenderRows(prg, seeds, S, pos, |mask|, sent), RecverRows(prg, seeds0, pos, |mask|),
                     spack, sel, nonce, opt0, opt1);
  }

  /** The corrected hash check passes on honest boxes: the sender's row
      hashes match the receiver's after the same base transfers and `Xpose`
      calls. So the corrected sender goes on after an honest call. */
  lemma HonestHashesPass(tape: Tape, prg: Prg, seeds0: seq<Bytes>, seeds1: seq<Bytes>, spack: Bytes,
                         pos: nat, sel: seq<bool>, hashmat: Bytes)
    requires Options(seeds0, seeds1, OT_SEEDLEN) && |seeds0| == 8 * |spack|
    ensures var ms := SetupSent(tape, prg, seeds0, seeds1);
      |ms| == |Batches(8 * |spack|, BATCH_SIZE)| && BatchShaped(ms, OT_SEEDLEN, NMAX, Batches(8 * |spack|, BATCH_SIZE))
    ensures var S := Unpacked(spack, 8 * |spack|);
      var seeds := ReceivedSeeds(SetupSent(tape, prg, seeds0, seeds1), S, prg);
      var rowBytes, mask := ByteCount(|sel|), Packed(sel, |sel|);
      var sent := RecverSent(prg, seeds0, seeds1, pos, rowBytes, mask);
      var sbox := Flatten(SenderRows(prg, seeds, S, pos, rowBytes, sent));
      var rbox := Flatten(RecverRows(prg, seeds0, pos, rowBytes));
      |sbox| == |rbox| == 8 * |spack| * rowBytes
      && HhashConsistent(S, RowHashes(hashmat, sbox, rowBytes, |S|), RowHashes(hashmat, rbox, rowBytes, 8 * |spack|))
  {
    var S := Unpacked(spack, 8 * |spack|);
    SetupCorrelates(tape, prg, seeds0, seeds1, S);
    var seeds := ReceivedSeeds(SetupSent(tape, prg, seeds0, seeds1), S, prg);
    var mask := Packed(sel, |sel|);
    RowsCorrelated(prg, seeds, S, seeds0, seeds1, pos, mask);
    var sent := RecverSent(prg, seeds0, seeds1, pos, |mask|, mask);
    HhashComplete(hashmat, SenderRows(prg, seeds, S, pos, |mask|, sent), RecverRows(prg, seeds0, pos, |mask|), S, mask);
  }

  /** The as-written hash check on honest boxes: it passes when every
      choice bit equals S[0], so the as-written sender then stops; and it
      fails when S has a set bit i and a clear bit j and the hash of the
      mask is non-zero, so the as-written sender keeps its flag clear and
      goes on, while the as-written receiver, whose check succeeds with
      the coin toss, stops. The hash is the unsigned-fold `RowHash`. */
  lemma HonestHashesAsWritten(tape: Tape, prg: Prg, seeds0: seq<Bytes>, seeds1: seq<Bytes>, spack: Bytes,
                              pos: nat, sel: seq<bool>, hashmat: Bytes, i: nat, j: nat)
    requires Options(seeds0, seeds1, OT_SEEDLEN) && |seeds0| == 8 * |spack|
    ensures var ms := SetupSent(tape, prg, seeds0, seeds1);
      |ms| == |Batches(8 * |spack|, BATCH_SIZE)| && BatchShaped(ms, OT_SEEDLEN, NMAX, Batches(8 * |spack|, BATCH_SIZE))
    ensures var S := Unpacked(spack, 8 * |spack|);
      var seeds := ReceivedSeeds(SetupSent(tape, prg, seeds0, seeds1), S, prg);
      var rowBytes, mask := ByteCount(|sel|), Packed(sel, |sel|);
      var sent := RecverSent(prg, seeds0, seeds1, pos, rowBytes, mask);
      var sbox := Flatten(SenderRows(prg, seeds, S, pos, rowBytes, sent));
      var rbox := Flatten(RecverRows(prg, seeds0, pos, rowBytes));
      |sbox| == |rbox| == 8 * |spack| * rowBytes
      && ((forall t | 0 <= t < |S| :: S[t] == S[0]) ==>
            HhashConsistent(FirstBitFlags(S), RowHashes(hashmat, sbox, rowBytes, |S|),
                            RowHashes(hashmat, rbox, rowBytes, 8 * |spack|)))
      && (i < |S| && j < |S| && S[i] && !S[j] && RowHash(hashmat, mask) != Zeros(CHECK_HASH_BYTES) ==>
            !HhashConsistent(FirstBitFlags(S), RowHashes(hashmat, sbox, rowBytes, |S|),
                             RowHashes(hashmat, rbox, rowBytes, 8 * |spack|)))
  {
    var S := Unpacked(spack, 8 * |spack|);
    SetupCorrelates(tape, prg, seeds0, seeds1, S);
    var seeds := ReceivedSeeds(SetupSent(tape, prg, seeds0, seeds1), S, prg);
    var mask := Packed(sel, |sel|);
    RowsCorrelated(prg, seeds, S, seeds0, seeds1, pos, mask);
    var sent := RecverSent(prg, seeds0, seeds1, pos, |mask|, mask);
    HhashAsWrittenOnHonest(hashmat, SenderRows(prg, seeds, S, pos, |mask|, sent), RecverRows(prg, seeds0, pos, |mask|),
                           S, mask, i, j);
  }

  /** The sender end: an extension box, the pad and the nonce counter. */
  class HonestOTExtSender {
    const box: SenderExtensionBox
    const pad: Pad
    var nonce: nat
    /** The nonces used so far. */
    ghost var used: set<int>

    ghost predicate Valid()
      reads this
    {
      box.Valid() && forall u | u in used :: 0 <= u < nonce
    }

    /** `honestOTExtSenderInit`: a new box from the base transfers `ms`,
        with the secret bits `spack`, and the counter at 0. */
    constructor (keyBytes: nat, spack: Bytes, prg: Prg, ms: seq<LongMsg>, pad: Pad)
      requires |spack| == keyBytes
      requires |ms| == |Batches(8 * keyBytes, BATCH_SIZE)|
      requires BatchShaped(ms, OT_SEEDLEN, NMAX, Batches(8 * keyBytes, BATCH_SIZE))
      requires BatchSessions(ms, 0, NMAX, Batches(8 * keyBytes, BATCH_SIZE))
      ensures Valid() && fresh(box)
      ensures box.keyBytes == keyBytes && box.spack == spack && box.prg == prg && box.pos == 0
      ensures box.seeds == ReceivedSeeds(ms, box.S, prg)
      ensures this.pad == pad && nonce == 0 && used == {}
    {
      var b := SenderExtensionBox.New(keyBytes, spack, prg, ms);
      box := b;
      this.pad := pad;
      nonce := 0;
      used := {};
    }

    /** `honestOTExtSend1Of2`: fills a box with rows of ByteCount(n) bytes
        from the rows `recvd` the receiver sent, seals the n transfers with
        nonces nonce .. nonce+n-1, none of them used before, and advances
        the counter by n. */
    method Send1Of2(opt0: seq<Bytes>, opt1: seq<Bytes>, n: nat, recvd: seq<Bytes>)
        returns (cts: seq<(Bytes, Bytes)>)
      requires Valid() && |opt0| == |opt1| == n
      requires |recvd| == 8 * box.keyBytes && Uniform(recvd, ByteCount(n))
      modifies this, box
      ensures Valid() && box.pos == old(box.pos) + ByteCount(n)
      ensures nonce == old(nonce) + n && used == old(used) + NonceRange(old(nonce), n)
      ensures NonceRange(old(nonce), n) !! old(used)
      ensures 8 * box.keyBytes * ByteCount(n) == |Flatten(SenderRows(box.prg, box.seeds, box.S, old(box.pos), ByteCount(n), recvd))|
      ensures cts == Sealed(pad, Flatten(SenderRows(box.prg, box.seeds, box.S, old(box.pos), ByteCount(n), recvd)),
                            ByteCount(n), 8 * box.keyBytes, box.spack, old(nonce), opt0, opt1)
    {
      var rowBytes := ByteCount(n);
      FlattenLength(SenderRows(box.prg, box.seeds, box.S, box.pos, rowBytes, recvd), rowBytes);
      var b := new Byte[box.keyBytes * 8 * rowBytes];
      box.Xpose(b, rowBytes, recvd);
      assert b[..] == b[..8 * box.keyBytes * rowBytes];
      cts := box.SendMsgs(pad, b[..], n, nonce, opt0, opt1);
      used := used + NonceRange(nonce, n);
      nonce := nonce + n;
    }
  }

  /** The receiver end: an extension box, the pad and the nonce counter. */
  class HonestOTExtRecver {
    const box: RecverExtensionBox
    const pad: Pad
    var nonce: nat
    /** The nonces used so far. */
    ghost var used: set<int>

    ghost predicate Valid()
      reads this
    {
      box.Valid() && forall u | u in used :: 0 <= u < nonce
    }

    constructor (box: RecverExtensionBox, pad: Pad)
      ensures this.box == box && this.pad == pad && nonce == 0 && used == {}
    {
      this.box := box;
      this.pad := pad;
      nonce := 0;
      used := {};
    }

    /** `honestOTExtRecverInit`: a new box over the generator keys
        `seeds0`, `seeds1`, which it offers in the base transfers `ms`, and
        the counter at 0. */
    static method New(keyBytes: nat, seeds0: seq<Bytes>, seeds1: seq<Bytes>, tape: Tape, prg: Prg, pad: Pad)
        returns (r: HonestOTExtRecver, ms: seq<LongMsg>)
      requires |seeds0| == 8 * keyBytes && Options(seeds0, seeds1, OT_SEEDLEN)
      ensures fresh(r) && fresh(r.box) && r.Valid()
      ensures r.box.keyBytes == keyBytes && r.box.seeds0 == seeds0 && r.box.seeds1 == seeds1 && r.box.prg == prg
      ensures r.box.pos == 0 && ms == SetupSent(tape, prg, seeds0, seeds1)
      ensures r.pad == pad && r.nonce == 0 && r.used == {}
    {
      var box;
      box, ms := RecverExtensionBox.New(keyBytes, seeds0, seeds1, tape, prg);
      r := new HonestOTExtRecver(box, pad);
    }

    /** `honestOTExtRecv1Of2`: packs the choice bits into `mask`, fills a
        box with rows of ByteCount(n) bytes and the rows to send, opens the
        n transfers with nonces nonce .. nonce+n-1, none of them used
        before, and advances the counter by n. */
    method Recv1Of2(sel: seq<bool>, n: nat, cts: seq<(Bytes, Bytes)>) returns (sent: seq<Bytes>, dest: Bytes)
      requires Valid() && |sel| == n && |cts| == n
      modifies this, box
      ensures Valid() && box.pos == old(box.pos) + ByteCount(n)
      ensures nonce == old(nonce) + n && used == old(used) + NonceRange(old(nonce), n)
      ensures NonceRange(old(nonce), n) !! old(used)
      ensures sent == RecverSent(box.prg, box.seeds0, box.seeds1, old(box.pos), ByteCount(n), Packed(sel, n))
      ensures 8 * box.keyBytes * ByteCount(n) == |Flatten(RecverRows(box.prg, box.seeds0, old(box.pos), ByteCount(n)))|
      ensures dest == Flatten(Opened(pad, Flatten(RecverRows(box.prg, box.seeds0, old(box.pos), ByteCount(n))),
                                     ByteCount(n), 8 * box.keyBytes, old(nonce), Packed(sel, n), cts))
    {
      var rowBytes := ByteCount(n);
      FlattenLength(RecverRows(box.prg, box.seeds0, box.pos, rowBytes), rowBytes);
      var b := new Byte[box.keyBytes * 8 * rowBytes];
      var m := new Byte[rowBytes];
      PackBytes(m, sel, n);
      assert m[..] == m[..rowBytes];
      var mask := m[..];
      assert mask == Packed(sel, n);
      sent := box.Xpose(b, mask, rowBytes);
      assert b[..] == b[..8 * box.keyBytes * rowBytes];
      dest := box.RecvMsgs(pad, b[..], n, nonce, mask, cts);
      used := used + NonceRange(nonce, n);
      nonce := nonce + n;
    }
  }

  /** The sender end with the hash check: an honest sender with
      2 * OT_KEY_BYTES_HONEST key bytes and the error flag. */
  class OTExtSender {
    const hs: HonestOTExtSender
    var error: bool

    ghost predicate Valid()
      reads this, hs
    {
      hs.Valid() && hs.box.keyBytes == 2 * OT_KEY_BYTES_HONEST
    }

    /** `otExtSenderNew`: an honest sender with twice the honest key
        length, and no error yet. */
    constructor (spack: Bytes, prg: Prg, ms: seq<LongMsg>, pad: Pad)
      requires |spack| == 2 * OT_KEY_BYTES_HONEST
      requires |ms| == |Batches(8 * |spack|, BATCH_SIZE)|
      requires BatchShaped(ms, OT_SEEDLEN, NMAX, Batches(8 * |spack|, BATCH_SIZE))
      requires BatchSessions(ms, 0, NMAX, Batches(8 * |spack|, BATCH_SIZE))
      ensures Valid() && fresh(hs) && fresh(hs.box) && !error
      ensures hs.box.spack == spack && hs.box.prg == prg && hs.box.pos == 0
      ensures hs.box.seeds == ReceivedSeeds(ms, hs.box.S, prg)
      ensures hs.pad == pad && hs.nonce == 0 && hs.used == {}
    {
      var h := new HonestOTExtSender(|spack|, spack, prg, ms, pad);
      hs := h;
      error := false;
    }

    /** `otExtSend1Of2` with the error flag read the way its name says:
        nothing happens once an error is flagged; otherwise the box is
        filled, and the n transfers are sealed only if the receiver's row
        hashes `theirs` pass the check against the coin-tossed `hashmat`;
        if they do not, the error is flagged, nothing is sent and no nonce
        is used. */
    method Send1Of2(opt0: seq<Bytes>, opt1: seq<Bytes>, n: nat, recvd: seq<Bytes>,
                    hashmat: Option<Bytes>, theirs: seq<Bytes>) returns (cts: seq<(Bytes, Bytes)>)
      requires Valid() && |opt0| == |opt1| == n
      requires |recvd| == 8 * hs.box.keyBytes && Uniform(recvd, ByteCount(n))
      requires hashmat.Some? ==> CHECK_HASH_BITS * ByteCount(n) <= |hashmat.value|
      requires |theirs| == 8 * hs.box.keyBytes && Uniform(theirs, CHECK_HASH_BYTES)
      modifies this, hs, hs.box
      ensures Valid()
      ensures old(error) ==> error && cts == [] && hs.box.pos == old(hs.box.pos)
                             && hs.nonce == old(hs.nonce) && hs.used == old(hs.used)
      ensures !old(error) ==> hs.box.pos == old(hs.box.pos) + ByteCount(n)
      ensures !old(error) ==>
        var sbox := Flatten(SenderRows(hs.box.prg, hs.box.seeds, hs.box.S, old(hs.box.pos), ByteCount(n), recvd));
        |sbox| == 8 * hs.box.keyBytes * ByteCount(n)
        && (error <==> !(hashmat.Some? && HhashConsistent(hs.box.S, RowHashes(hashmat.value, sbox, ByteCount(n), |hs.box.S|), theirs)))
        && (error ==> cts == [] && hs.nonce == old(hs.nonce) && hs.used == old(hs.used))
        && (!error ==> cts == Sealed(hs.pad, sbox, ByteCount(n), 8 * hs.box.keyBytes, hs.box.spack, old(hs.nonce), opt0, opt1)
                       && hs.nonce == old(hs.nonce) + n && hs.used == old(hs.used) + NonceRange(old(hs.nonce), n))
      ensures NonceRange(old(hs.nonce), n) !! old(hs.used)
    {
      if error {
        return [];
      }
      var box := hs.box;
      var rowBytes := ByteCount(n);
      FlattenLength(SenderRows(box.prg, box.seeds, box.S, box.pos, rowBytes, recvd), rowBytes);
      var b := new Byte[box.keyBytes * 8 * rowBytes];
      box.Xpose(b, rowBytes, recvd);
      assert b[..] == b[..8 * box.keyBytes * rowBytes];
      var ok := SenderHhash(box, hashmat, b[..], rowBytes, theirs);
      if !ok {
        error := true;
        return [];
      }
      cts := box.SendMsgs(hs.pad, b[..], n, hs.nonce, opt0, opt1);
      hs.used := hs.used + NonceRange(hs.nonce, n);
      hs.nonce := hs.nonce + n;
    }

    /** `otExtSend1Of2` as written: the flag is set to the result of the
        as-written check (every row judged by S[0]), so a check that passes
        stops every later call, and the n transfers are sealed, with the
        nonce advanced, whatever the check said. */
    method Send1Of2AsWritten(opt0: seq<Bytes>, opt1: seq<Bytes>, n: nat, recvd: seq<Bytes>,
                             hashmat: Option<Bytes>, theirs: seq<Bytes>) returns (cts: seq<(Bytes, Bytes)>)
      requires Valid() && |opt0| == |opt1| == n
      requires |recvd| == 8 * hs.box.keyBytes && Uniform(recvd, ByteCount(n))
      requires hashmat.Some? ==> CHECK_HASH_BITS * ByteCount(n) <= |hashmat.value|
      requires |theirs| == 8 * hs.box.keyBytes && Uniform(theirs, CHECK_HASH_BYTES)
      modifies this, hs, hs.box
      ensures Valid()
      ensures old(error) ==> error && cts == [] && hs.box.pos == old(hs.box.pos)
                             && hs.nonce == old(hs.nonce) && hs.used == old(hs.used)
      ensures !old(error) ==>
        var sbox := Flatten(SenderRows(hs.box.prg, hs.box.seeds, hs.box.S, old(hs.box.pos), ByteCount(n), recvd));
        |sbox| == 8 * hs.box.keyBytes * ByteCount(n)
        && (error <==> hashmat.Some? && HhashConsistent(FirstBitFlags(hs.box.S), RowHashes(hashmat.value, sbox, ByteCount(n), |hs.box.S|), theirs))
        && cts == Sealed(hs.pad, sbox, ByteCount(n), 8 * hs.box.keyBytes, hs.box.spack, old(hs.nonce), opt0, opt1)
        && hs.box.pos == old(hs.box.pos) + ByteCount(n)
        && hs.nonce == old(hs.nonce) + n && hs.used == old(hs.used) + NonceRange(old(hs.nonce), n)
    {
      if error {
        return [];
      }
      var box := hs.box;
      var rowBytes := ByteCount(n);
      FlattenLength(SenderRows(box.prg, box.seeds, box.S, box.pos, rowBytes, recvd), rowBytes);
      var b := new Byte[box.keyBytes * 8 * rowBytes];
      box.Xpose(b, rowBytes, recvd);
      assert b[..] == b[..8 * box.keyBytes * rowBytes];
      error := SenderHhashAsWritten(box, hashmat, b[..], rowBytes, theirs);
      cts := box.SendMsgs(hs.pad, b[..], n, hs.nonce, opt0, opt1);
      hs.used := hs.used + NonceRange(hs.nonce, n);
      hs.nonce := hs.nonce + n;
    }
  }

  /** The receiver end with the hash check: an honest receiver with
      2 * OT_KEY_BYTES_HONEST key bytes and the error flag. */
  class OTExtRecver {
    const hr: HonestOTExtRecver
    var error: bool

    ghost predicate Valid()
      reads this, hr
    {
      hr.Valid() && hr.box.keyBytes == 2 * OT_KEY_BYTES_HONEST
    }

    constructor (hr: HonestOTExtRecver)
      ensures this.hr == hr && !error
    {
      this.hr := hr;
      error := false;
    }

    /** `otExtRecverNew`: an honest receiver with twice the honest key
        length, and no error yet. */
    static method New(seeds0: seq<Bytes>, seeds1: seq<Bytes>, tape: Tape, prg: Prg, pad: Pad)
        returns (r: OTExtRecver, ms: seq<LongMsg>)
      requires |seeds0| == 16 * OT_KEY_BYTES_HONEST && Options(seeds0, seeds1, OT_SEEDLEN)
      ensures fresh(r) && fresh(r.hr) && fresh(r.hr.box) && r.Valid() && !r.error
      ensures r.hr.box.seeds0 == seeds0 && r.hr.box.seeds1 == seeds1 && r.hr.box.prg == prg && r.hr.box.pos == 0
      ensures ms == SetupSent(tape, prg, seeds0, seeds1)
      ensures r.hr.pad == pad && r.hr.nonce == 0 && r.hr.used == {}
    {
      var hr;
      hr, ms := HonestOTExtRecver.New(2 * OT_KEY_BYTES_HONEST, seeds0, seeds1, tape, prg, pad);
      r := new OTExtRecver(hr);
    }

    /** `otExtRecv1Of2` with the error flag read the way its name says:
        nothing happens once an error is flagged; otherwise the box is
        filled and its row hashes under the coin-tossed `hashmat` are sent;
        if the coin toss failed, the error is flagged and nothing is opened,
        else the n transfers are opened. */
    method Recv1Of2(sel: seq<bool>, n: nat, cts: seq<(Bytes, Bytes)>, hashmat: Option<Bytes>)
        returns (sent: seq<Bytes>, hashes: seq<Bytes>, dest: Bytes)
      requires Valid() && |sel| == n && |cts| == n
      requires hashmat.Some? ==> CHECK_HASH_BITS * ByteCount(n) <= |hashmat.value|
      modifies this, hr, hr.box
      ensures Valid()
      ensures old(error) ==> error && sent == [] && hashes == [] && dest == []
                             && hr.box.pos == old(hr.box.pos) && hr.nonce == old(hr.nonce) && hr.used == old(hr.used)
      ensures !old(error) ==>
        var rbox := Flatten(RecverRows(hr.box.prg, hr.box.seeds0, old(hr.box.pos), ByteCount(n)));
        |rbox| == 8 * hr.box.keyBytes * ByteCount(n)
        && hr.box.pos == old(hr.box.pos) + ByteCount(n)
        && sent == RecverSent(hr.box.prg, hr.box.seeds0, hr.box.seeds1, old(hr.box.pos), ByteCount(n), Packed(sel, n))
        && (error <==> hashmat.None?)
        && (error ==> hashes == [] && dest == [] && hr.nonce == old(hr.nonce) && hr.used == old(hr.used))
        && (!error ==> hashes == RowHashes(hashmat.value, rbox, ByteCount(n), 8 * hr.box.keyBytes)
                       && dest == Flatten(Opened(hr.pad, rbox, ByteCount(n), 8 * hr.box.keyBytes, old(hr.nonce), Packed(sel, n), cts))
                       && hr.nonce == old(hr.nonce) + n && hr.used == old(hr.used) + NonceRange(old(hr.nonce), n))
      ensures NonceRange(old(hr.nonce), n) !! old(hr.used)
    {
      if error {
        return [], [], [];
      }
      var box := hr.box;
      var rowBytes := ByteCount(n);
      FlattenLength(RecverRows(box.prg, box.seeds0, box.pos, rowBytes), rowBytes);
      var b := new Byte[box.keyBytes * 8 * rowBytes];
      var m := new Byte[rowBytes];
      PackBytes(m, sel, n);
      assert m[..] == m[..rowBytes];
      var mask := m[..];
      assert mask == Packed(sel, n);
      sent := box.Xpose(b, mask, rowBytes);
      assert b[..] == b[..8 * box.keyBytes * rowBytes];
      var ok;
      ok, hashes := RecverHhash(box, hashmat, b[..], rowBytes);
      if !ok {
        error := true;
        return sent, hashes, [];
      }
      dest := box.RecvMsgs(hr.pad, b[..], n, hr.nonce, mask, cts);
      hr.used := hr.used + NonceRange(hr.nonce, n);
      hr.nonce := hr.nonce + n;
    }

    /** `otExtRecv1Of2` as written: the flag is set to the check's result,
        so a check that succeeds stops every later call, and the n
        transfers are opened, with the nonce advanced, whatever it said. */
    method Recv1Of2AsWritten(sel: seq<bool>, n: nat, cts: seq<(Bytes, Bytes)>, hashmat: Option<Bytes>)
        returns (sent: seq<Bytes>, hashes: seq<Bytes>, dest: Bytes)
      requires Valid() && |sel| == n && |cts| == n
      requires hashmat.Some? ==> CHECK_HASH_BITS * ByteCount(n) <= |hashmat.value|
      modifies this, hr, hr.box
      ensures Valid()
      ensures old(error) ==> error && sent == [] && hashes == [] && dest == []
                             && hr.box.pos == old(hr.box.pos) && hr.nonce == old(hr.nonce) && hr.used == old(hr.used)
      ensures !old(error) ==>
        var rbox := Flatten(RecverRows(hr.box.prg, hr.box.seeds0, old(hr.box.pos), ByteCount(n)));
        |rbox| == 8 * hr.box.keyBytes * ByteCount(n)
        && hr.box.pos == old(hr.box.pos) + ByteCount(n)
        && sent == RecverSent(hr.box.prg, hr.box.seeds0, hr.box.seeds1, old(hr.box.pos), ByteCount(n), Packed(sel, n))
        && (error <==> hashmat.Some?)
        && dest == Flatten(Opened(hr.pad, rbox, ByteCount(n), 8 * hr.box.keyBytes, old(hr.nonce), Packed(sel, n), cts))
        && hr.nonce == old(hr.nonce) + n && hr.used == old(hr.used) + NonceRange(old(hr.nonce), n)
    {
      if error {
        return [], [], [];
      }
      var box := hr.box;
      var rowBytes := ByteCount(n);
      FlattenLength(RecverRows(box.prg, box.seeds0, box.pos, rowBytes), rowBytes);
      var b := new Byte[box.keyBytes * 8 * rowBytes];
      var m := new Byte[rowBytes];
      PackBytes(m, sel, n);
      assert m[..] == m[..rowBytes];
      var mask := m[..];
      assert mask == Packed(sel, n);
      sent := box.Xpose(b, mask, rowBytes);
      assert b[..] == b[..8 * box.keyBytes * rowBytes];
      error, hashes := RecverHhash(box, hashmat, b[..], rowBytes);
      dest := box.RecvMsgs(hr.pad, b[..], n, hr.nonce, mask, cts);
      hr.used := hr.used + NonceRange(hr.nonce, n);
      hr.nonce := hr.nonce + n;
    }
  }
}
