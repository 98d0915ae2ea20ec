/**
 * The two ends of the base oblivious transfer and the combinators built on
 * it (`NpotSender`, `NpotRecver` and the `npotSend`/`npotRecv` family,
 * src/ext/oblivc/ot.c:192-578).
 *
 * The Naor-Pinkas transfer itself (the elliptic-curve keys, the hashed
 * one-time pads) is taken as ideal: `Send` hands out an `Offer` for the
 * current session and `Recv` reads the chosen slot of the offer of its own
 * session. Everything above it - digit decomposition, key folding,
 * seed-then-stream, tables and batches - is modelled step by step, and each
 * method is proved to send or open exactly what the functions of
 * `NpotSpec` describe; the lemmas there prove the receiver gets what it chose.
 */
module Npot {
  import opened Bytes
  import opened Digits
  import opened NpotSpec

  /** The sender of base transfers. `R` counts the sessions run so far;
      `tape` is the output of its random generator and `drawn` how much of
      it has been used. */
  class NpotSender {
    const nmax: nat
    const tape: Tape
    const prg: Prg
    var R: nat
    var drawn: nat

    /** `npotSenderNew(nmax, pd, destParty)`: a fresh sender in session 0.
        The elliptic-curve exponents drawn while it is built are left out,
        so the key tape starts at position 0. */
    constructor (nmax: nat, tape: Tape, prg: Prg)
      ensures this.nmax == nmax && this.tape == tape && this.prg == prg
      ensures R == 0 && drawn == 0
    {
      this.nmax := nmax;
      this.tape := tape;
      this.prg := prg;
      R := 0;
      drawn := 0;
    }

    /** `randomizeBuffer(s->gen, buf, n)`: the next `n` bytes of the stream. */
    method Random(n: nat) returns (r: Bytes)
      modifies this
      ensures r == Draw(tape, old(drawn), n)
      ensures drawn == old(drawn) + n && R == old(R)
    {
      r := Draw(tape, drawn, n);
      drawn := drawn + n;
    }

    /** `npotSend(s, arr, n, len)`: one 1-out-of-n transfer of `len`-byte
        entries, n at most `nmax`; it uses one session. */
    method Send(arr: seq<Bytes>, len: nat) returns (o: Offer)
      requires 1 <= |arr| <= nmax && len <= HASH_BYTES && Uniform(arr, len)
      modifies this
      ensures o == Offer(old(R), arr) && OfferShaped(o, |arr|, len)
      ensures R == old(R) + 1 && drawn == old(drawn)
    {
      o := Offer(R, arr);
      R := R + 1;
    }

    /** `npotSendMany(s, arr, n, len)`: a 1-out-of-n transfer for any n.
        Past `nmax` entries, every entry is padded with one random key per
        base-`nmax` digit of its index, and the keys go out in one base
        transfer per digit position. */
    method SendMany(arr: seq<Bytes>, len: nat) returns (m: ManyMsg)
      requires 1 <= |arr| && len <= HASH_BYTES && Uniform(arr, len)
      requires |arr| <= nmax || (nmax >= 2 && LogCeilOf(|arr|, nmax) <= LOGMAX)
      modifies this
      ensures m == ManySent(tape, old(drawn), old(R), nmax, arr, len)
      ensures R == old(R) + ManyRounds(|arr|, nmax)
      ensures drawn == old(drawn) + ManyDrawn(|arr|, nmax, len)
    {
      var base := nmax;
      if |arr| <= base {
        var o := Send(arr, len);
        return Direct(o);
      }
      var lc := LogCeil(|arr|, base);
      var keys := Random(len * base * lc);
      var offers := SendRounds(keys, base, len, lc);
      var cts := PadEntries(arr, keys, base, len, lc);
      m := Folded(offers, cts);
    }

    /** The second loop of `npotSendMany`: round j offers the `base` keys of
        digit position j, in session R + j. */
    method SendRounds(keys: Bytes, base: nat, len: nat, lc: nat) returns (offers: seq<Offer>)
      requires 2 <= base <= nmax && len <= HASH_BYTES && |keys| == len * base * lc
      modifies this
      ensures offers == RoundOffers(keys, base, len, lc, old(R))
      ensures R == old(R) + lc && drawn == old(drawn)
    {
      ghost var R0 := R;
      offers := [];
      var i := 0;
      while i < lc
        invariant 0 <= i <= lc
        invariant offers == RoundOffers(keys, base, len, lc, R0)[..i]
        invariant R == R0 + i && drawn == old(drawn)
      {
        var starts := seq(base, j requires 0 <= j < base => (KeyBound(base, len, lc, i, j); Block(keys, len, base * i + j)));
        RoundOffersShaped(keys, base, len, lc, R0);
        assert starts == RoundOffers(keys, base, len, lc, R0)[i].slots;
        var o := Send(starts, len);
        offers := offers + [o];
        i := i + 1;
      }
    }

    /** The last loop of `npotSendMany`: every entry padded with its digit key. */
    static method PadEntries(arr: seq<Bytes>, keys: Bytes, base: nat, len: nat, lc: nat) returns (cts: seq<Bytes>)
      requires base >= 2 && lc == LogCeilOf(|arr|, base) && |keys| == len * base * lc && Uniform(arr, len)
      ensures cts == PaddedEntries(arr, keys, base, len, lc)
    {
      cts := [];
      var i := 0;
      while i < |arr|
        invariant 0 <= i <= |arr|
        invariant cts == PaddedEntries(arr, keys, base, len, lc)[..i]
      {
        LogCeilSuffices(|arr|, base, i);
        var buf := PadEntry(arr[i], keys, base, len, lc, i);
        cts := cts + [buf];
        i := i + 1;
      }
    }

    /** One pass of the last loop of `npotSendMany`: entry `i` XORed with
        the key of each of its digits. */
    static method PadEntry(entry: Bytes, keys: Bytes, base: nat, len: nat, lc: nat, i: nat) returns (buf: Bytes)
      requires base >= 2 && |entry| == len && |keys| == len * base * lc && NumDigits(i, base) <= lc
      ensures buf == Xor(entry, DigitKey(keys, base, len, lc, i))
    {
      var ind := new int[lc];
      var ok := InBaseN(ind, lc, i, base);
      DigitsFacts(i, base, lc);
      buf := XorKeys(entry, keys, base, len, lc, ind, DigitsOf(i, base, lc));
    }

    /** The inner loop of the last loop of `npotSendMany`: `entry` XORed
        with key ind[j] of round j for every round j. */
    static method XorKeys(entry: Bytes, keys: Bytes, base: nat, len: nat, lc: nat, ind: array<int>, ghost ds: seq<int>)
      returns (buf: Bytes)
      requires |entry| == len && |keys| == len * base * lc
      requires lc <= ind.Length && ind[..lc] == ds && DigitsBelow(ds, base)
      ensures buf == Xor(entry, FoldKeys(keys, base, len, lc, ds))
    {
      buf := entry;
      XorZeros(entry);
      assert ds[..0] == [];
      var j := 0;
      while j < lc
        invariant 0 <= j <= lc
        invariant buf == Xor(entry, FoldKeys(keys, base, len, lc, ds[..j]))
      {
        assert ind[j] == ds[j];
        FoldKeysStep(keys, base, len, lc, ds, j);
        var key := Block(keys, len, base * j + ind[j]);
        XorAssoc(entry, FoldKeys(keys, base, len, lc, ds[..j]), key);
        buf := Xor(buf, key);
        j := j + 1;
      }
      assert ds[..lc] == ds;
    }

    /** `npotSendLong(s, arr, n, len)`: entries longer than `HASH_BYTES` are
        padded with the streams of fresh seeds, and the seeds are transferred. */
    method SendLong(arr: seq<Bytes>, len: nat) returns (m: LongMsg)
      requires 1 <= |arr| && Uniform(arr, len)
      requires |arr| <= nmax || (nmax >= 2 && LogCeilOf(|arr|, nmax) <= LOGMAX)
      modifies this
      ensures m == LongSent(tape, old(drawn), old(R), nmax, prg, arr, len)
      ensures R == old(R) + ManyRounds(|arr|, nmax)
      ensures drawn == old(drawn) + LongDrawn(|arr|, nmax, len)
    {
      if len <= HASH_BYTES {
        var many := SendMany(arr, len);
        return Short(many);
      }
      var n := |arr|;
      var keys := Random(n * SEED_BYTES);
      var kstarts := seq(n, i requires 0 <= i < n => (BlockBound(n, SEED_BYTES, i); Block(keys, SEED_BYTES, i)));
      assert kstarts == Seeds(tape, old(drawn), n);
      var seeds := SendMany(kstarts, SEED_BYTES);
      var cts: seq<Bytes> := [];
      var i := 0;
      while i < n
        invariant 0 <= i <= n
        invariant cts == seq(i, t requires 0 <= t < i => Xor(prg(kstarts[t], 0, len), arr[t]))
      {
        var buf := prg(kstarts[i], 0, len);
        buf := Xor(buf, arr[i]);
        cts := cts + [buf];
        i := i + 1;
      }
      m := Seeded(seeds, cts);
    }

    /** `npotSend1Of2Once(s, opt0, opt1, n, len)`: n 1-out-of-2 transfers at
        once, as one transfer out of the 2^n combinations of options. */
    method Send1Of2Once(opt0: seq<Bytes>, opt1: seq<Bytes>, len: nat) returns (m: LongMsg)
      requires Options(opt0, opt1, len) && |opt0| < 32 && nmax >= 2
      modifies this
      ensures m == OnceSent(tape, old(drawn), old(R), nmax, prg, opt0, opt1, len)
      ensures R == old(R) + ManyRounds(Pow2(|opt0|), nmax)
      ensures drawn == old(drawn) + LongDrawn(Pow2(|opt0|), nmax, |opt0| * len)
    {
      var n := |opt0|;
      var table := BuildTable(opt0, opt1);
      TableUniform(opt0, opt1, len);
      TableRounds(n, nmax);
      m := SendLong(table, n * len);
    }

    /** The table loop of `npotSend1Of2Once`: the 2^n entries, entry i
        choosing by the bits of i. */
    static method BuildTable(opt0: seq<Bytes>, opt1: seq<Bytes>) returns (table: seq<Bytes>)
      requires |opt0| == |opt1|
      ensures table == Table(opt0, opt1)
    {
      var c := Pow2(|opt0|);
      table := [];
      var i := 0;
      while i < c
        invariant 0 <= i <= c
        invariant table == Table(opt0, opt1)[..i]
      {
        var entry := TableRow(opt0, opt1, i);
        table := table + [entry];
        i := i + 1;
      }
    }

    /** One row of the table of `npotSend1Of2Once`: option j from `opt1`
        when bit j of i is set, else from `opt0`. */
    static method TableRow(opt0: seq<Bytes>, opt1: seq<Bytes>, i: nat) returns (entry: Bytes)
      requires |opt0| == |opt1|
      ensures entry == TableEntry(opt0, opt1, i)
    {
      var n := |opt0|;
      ghost var picks := seq(n, j requires 0 <= j < n => if BitSet(i, j) then opt1[j] else opt0[j]);
      entry := [];
      var j := 0;
      while j < n
        invariant 0 <= j <= n
        invariant entry == Flatten(picks[..j])
      {
        assert picks[..j + 1][..j] == picks[..j];
        if BitSet(i, j) {
          entry := entry + opt1[j];
        } else {
          entry := entry + opt0[j];
        }
        j := j + 1;
      }
      assert picks[..n] == picks;
    }

    /** `npotSend1Of2(s, opt0, opt1, n, len, bs)`: n 1-out-of-2 transfers in
        batches of `bs`, the remainder in a last, smaller batch. */
    method Send1Of2(opt0: seq<Bytes>, opt1: seq<Bytes>, len: nat, bs: nat) returns (ms: seq<LongMsg>)
      requires Options(opt0, opt1, len) && 1 <= bs < 32 && nmax >= 2
      modifies this
      ensures BatchesFit(Batches(|opt0|, bs), opt0, opt1)
      ensures ms == BatchSent(tape, old(drawn), old(R), nmax, prg, opt0, opt1, len, Batches(|opt0|, bs))
      ensures R == old(R) + BatchesRounds(Batches(|opt0|, bs), nmax)
      ensures drawn == old(drawn) + BatchesDrawn(Batches(|opt0|, bs), nmax, len)
    {
      var n := |opt0|;
      ghost var b := Batches(n, bs);
      ghost var at0, R0 := drawn, R;
      BatchesAreConsecutive(n, bs);
      ConsecutiveWithin(b, n);
      ghost var all := BatchSent(tape, at0, R0, nmax, prg, opt0, opt1, len, b);
      ms := [];
      var i := 0;
      ghost var k := 0;
      while i + bs <= n
        invariant i == k * bs && i <= n && k <= |b| == |all|
        invariant ms == all[..k]
        invariant R == R0 + BatchesRounds(b[..k], nmax)
        invariant drawn == at0 + BatchesDrawn(b[..k], nmax, len)
      {
        BatchesStep(n, bs, k);
        var m := SendBatch(opt0, opt1, len, b, k, i, i + bs, at0, R0);
        PrefixStep(all, k);
        ms := ms + [m];
        i := i + bs;
        k := k + 1;
      }
      BatchesStep(n, bs, k);
      if i < n {
        var m := SendBatch(opt0, opt1, len, b, k, i, n, at0, R0);
        PrefixStep(all, k);
        ms := ms + [m];
        k := k + 1;
      }
      PrefixWhole(b, k);
      PrefixWhole(all, k);
    }

    /** The body of the loop of `npotSend1Of2` for batch k, transfers lo .. hi-1. */
    method SendBatch(opt0: seq<Bytes>, opt1: seq<Bytes>, len: nat, ghost b: seq<Batch>, ghost k: nat, lo: nat, hi: nat,
                     ghost at0: nat, ghost R0: nat)
        returns (m: LongMsg)
      requires Options(opt0, opt1, len) && nmax >= 2 && BatchesFit(b, opt0, opt1)
      requires lo < hi && k < |b| && b[k] == Batch(lo, hi - lo) && hi - lo < 32
      requires R == R0 + BatchesRounds(b[..k], nmax) && drawn == at0 + BatchesDrawn(b[..k], nmax, len)
      modifies this
      ensures m == BatchSent(tape, at0, R0, nmax, prg, opt0, opt1, len, b)[k]
      ensures R == R0 + BatchesRounds(b[..k + 1], nmax) && drawn == at0 + BatchesDrawn(b[..k + 1], nmax, len)
    {
      BatchesCountStep(b, k, nmax, len);
      ghost var o0, o1 := opt0[lo..hi], opt1[lo..hi];
      assert |o0| == b[k].size;
      assert BatchSent(tape, at0, R0, nmax, prg, opt0, opt1, len, b)[k]
          == OnceSent(tape, drawn, R, nmax, prg, o0, o1, len);
      m := Send1Of2Once(opt0[lo..hi], opt1[lo..hi], len);
    }
  }

  /** The receiver of base transfers; `R` counts its sessions. */
  class NpotRecver {
    const nmax: nat
    const prg: Prg
    var R: nat

    /** `npotRecverNew(nmax, pd, srcParty)`: a fresh receiver in session 0. */
    constructor (nmax: nat, prg: Prg)
      ensures this.nmax == nmax && this.prg == prg && R == 0
    {
      this.nmax := nmax;
      this.prg := prg;
      R := 0;
    }

    /** `npotRecv(r, dest, seli, n, len)`: the chosen entry of the transfer
        of the current session. */
    method Recv(o: Offer, seli: nat, n: nat, len: nat) returns (dest: Bytes)
      requires o.session == R && OfferShaped(o, n, len) && seli < n <= nmax && len <= HASH_BYTES
      modifies this
      ensures dest == o.slots[seli] && |dest| == len
      ensures R == old(R) + 1
    {
      dest := o.slots[seli];
      R := R + 1;
    }

    /** `npotRecvMany(r, dest, seli, n, len)`: ask for digit j of `seli`
        in round j, XOR the keys obtained, and unpad ciphertext `seli`. */
    method RecvMany(m: ManyMsg, seli: nat, n: nat, len: nat) returns (dest: Bytes)
      requires n <= nmax || (nmax >= 2 && LogCeilOf(n, nmax) <= LOGMAX)
      requires ManyShaped(m, n, len, nmax) && ManySessions(m, R) && seli < n && len <= HASH_BYTES
      modifies this
      ensures dest == ManyOpened(m, seli, n, len, nmax)
      ensures R == old(R) + ManyRounds(n, nmax)
    {
      var base := nmax;
      if n <= base {
        dest := Recv(m.offer, seli, n, len);
        return;
      }
      var lc := LogCeil(n, base);
      var ind := new int[lc];
      var ok := InBaseN(ind, lc, seli, base);
      LogCeilSuffices(n, base, seli);
      DigitsFacts(seli, base, lc);
      ghost var ds := DigitsOf(seli, base, lc);
      var buf2 := RecvRounds(m.offers, ind, lc, len, ds);
      dest := Zeros(len);
      var i := 0;
      while i < n
        invariant 0 <= i <= n
        invariant i > seli ==> dest == m.cts[seli]
      {
        if i == seli {
          dest := m.cts[i];
        }
        i := i + 1;
      }
      dest := Xor(dest, buf2);
    }

    /** The rounds of `npotRecvMany`: in round i ask for digit ind[i], and
        XOR together the keys the rounds give. */
    method RecvRounds(offers: seq<Offer>, ind: array<int>, lc: nat, len: nat, ghost ds: seq<int>) returns (buf2: Bytes)
      requires nmax >= 2 && len <= HASH_BYTES && lc <= ind.Length && lc <= |offers|
      requires ind[..lc] == ds && DigitsBelow(ds, nmax)
      requires forall j | 0 <= j < |offers| :: OfferShaped(offers[j], nmax, len)
      requires forall j | 0 <= j < |offers| :: offers[j].session == R + j
      modifies this
      ensures buf2 == FoldSlots(offers, nmax, len, ds)
      ensures R == old(R) + lc
    {
      ghost var R0 := R;
      buf2 := Zeros(len);
      assert ds[..0] == [];
      var i := 0;
      while i < lc
        invariant 0 <= i <= lc
        invariant R == R0 + i
        invariant buf2 == FoldSlots(offers, nmax, len, ds[..i])
      {
        assert ind[i] == ds[i];
        FoldSlotsStep(offers, nmax, len, ds, i);
        var buf1 := Recv(offers[i], ind[i], nmax, len);
        buf2 := Xor(buf2, buf1);
        i := i + 1;
      }
      assert ds[..lc] == ds;
    }

    /** `npotRecvLong(r, dest, seli, n, len)`: obtain the seed of entry
        `seli` and unpad its ciphertext with the seed's stream. */
    method RecvLong(m: LongMsg, seli: nat, n: nat, len: nat) returns (dest: Bytes)
      requires n <= nmax || (nmax >= 2 && LogCeilOf(n, nmax) <= LOGMAX)
      requires LongShaped(m, n, len, nmax) && LongSessions(m, R) && seli < n
      modifies this
      ensures dest == LongOpened(m, seli, n, len, nmax, prg)
      ensures R == old(R) + ManyRounds(n, nmax)
    {
      if len <= HASH_BYTES {
        dest := RecvMany(m.many, seli, n, len);
        return;
      }
      var key := RecvMany(m.seeds, seli, n, SEED_BYTES);
      dest := Zeros(len);
      var i := 0;
      while i < n
        invariant 0 <= i <= n
        invariant i > seli ==> dest == m.cts[seli]
      {
        if i == seli {
          dest := m.cts[i];
        }
        i := i + 1;
      }
      var dummy := prg(key, 0, len);
      dest := Xor(dest, dummy);
    }

    /** `npotRecv1Of2Once(r, dest, mask, n, len)`: bit j of `mask` chooses
        between the two options of transfer j. */
    method Recv1Of2Once(m: LongMsg, mask: nat, n: nat, len: nat) returns (dest: Bytes)
      requires n < 32 && nmax >= 2 && mask < Pow2(n)
      requires LongShaped(m, Pow2(n), n * len, nmax) && LongSessions(m, R)
      modifies this
      ensures dest == LongOpened(m, mask, Pow2(n), n * len, nmax, prg)
      ensures R == old(R) + ManyRounds(Pow2(n), nmax)
    {
      TableRounds(n, nmax);
      dest := RecvLong(m, mask, Pow2(n), n * len);
    }

    /** `npotRecv1Of2(r, dest, sel, n, len, bs)`: the choice bits of each
        batch form its mask, bit j for transfer j of the batch; the results
        of the batches are laid one after another. */
    method Recv1Of2(ms: seq<LongMsg>, sel: seq<bool>, len: nat, bs: nat) returns (dest: Bytes)
      requires 1 <= bs < 32 && nmax >= 2
      requires |ms| == |Batches(|sel|, bs)|
      requires BatchShaped(ms, len, nmax, Batches(|sel|, bs))
      requires BatchSessions(ms, R, nmax, Batches(|sel|, bs))
      modifies this
      ensures forall k | 0 <= k < |ms| :: Batches(|sel|, bs)[k].start + Batches(|sel|, bs)[k].size <= |sel|
      ensures dest == BatchOpened(ms, sel, len, nmax, prg, Batches(|sel|, bs))
      ensures R == old(R) + BatchesRounds(Batches(|sel|, bs), nmax)
    {
      var n := |sel|;
      ghost var b := Batches(n, bs);
      ghost var R0 := R;
      BatchesAreConsecutive(n, bs);
      ConsecutiveWithin(b, n);
      ghost var pieces := OpenedPieces(ms, sel, len, nmax, prg, b);
      dest := [];
      var i := 0;
      var k := 0;
      while i + bs <= n
        invariant i == k * bs && i <= n && k <= |b|
        invariant dest == Flatten(pieces[..k])
        invariant R == R0 + BatchesRounds(b[..k], nmax)
      {
        BatchesStep(n, bs, k);
        dest := RecvBatch(ms, sel, len, b, k, i, i + bs, R0, dest);
        i := i + bs;
        k := k + 1;
      }
      BatchesStep(n, bs, k);
      if i < n {
        dest := RecvBatch(ms, sel, len, b, k, i, n, R0, dest);
        k := k + 1;
      }
      PrefixWhole(b, k);
      PrefixWhole(pieces, k);
      assert R == R0 + BatchesRounds(b, nmax);
    }

    /** The body of the loop of `npotRecv1Of2` for batch k. */
    method RecvBatch(ms: seq<LongMsg>, sel: seq<bool>, len: nat, ghost b: seq<Batch>, k: nat, lo: nat, hi: nat,
                     ghost R0: nat, dest: Bytes)
        returns (dest': Bytes)
      requires nmax >= 2 && |ms| == |b| && lo < hi && k < |b| && b[k] == Batch(lo, hi - lo)
      requires forall t | 0 <= t < |b| :: b[t].start + b[t].size <= |sel| && b[t].size < 32
      requires BatchShaped(ms, len, nmax, b)
      requires BatchSessions(ms, R0, nmax, b) && R == R0 + BatchesRounds(b[..k], nmax)
      requires dest == Flatten(OpenedPieces(ms, sel, len, nmax, prg, b)[..k])
      modifies this
      ensures dest' == Flatten(OpenedPieces(ms, sel, len, nmax, prg, b)[..k + 1])
      ensures R == R0 + BatchesRounds(b[..k + 1], nmax)
    {
      BatchPiece(ms, sel, len, nmax, prg, b, k, R0);
      var mask := ChoiceMask(sel, lo, hi - lo);
      var got := Recv1Of2Once(ms[k], mask, hi - lo, len);
      dest' := dest + got;
    }

    /** The mask loop of `npotRecv1Of2`: bit j is the choice of transfer
        start + j. */
    static method ChoiceMask(sel: seq<bool>, start: nat, size: nat) returns (mask: nat)
      requires start + size <= |sel|
      ensures mask == BatchMask(sel, Batch(start, size))
    {
      ghost var bits := sel[start..start + size];
      mask := 0;
      var p := 1;
      var j := 0;
      while j < size
        invariant 0 <= j <= size
        invariant p == Pow2(j)
        invariant mask == MaskOf(bits[..j])
      {
        assert bits[..j + 1][..j] == bits[..j];
        mask := mask + (if sel[start + j] then p else 0);
        p := 2 * p;
        j := j + 1;
      }
      assert bits[..size] == bits;
    }
  }
}
