/**
 * What the base-OT combinators of src/ext/oblivc/ot.c:428-578 send and what
 * the receiver makes of it, as functions of the sender's random bytes and
 * session counter, and the proofs that the receiver always ends up with
 * the entry it chose.
 *
 * The 1-out-of-n Naor-Pinkas transfer (`npotSend`/`npotRecv`) is taken as
 * an ideal functionality: in session R the sender offers `arr`, and a
 * receiver in session R who asks for `seli` learns `arr[seli]` and
 * nothing else. An `Offer` is that ideal message.
 */
module NpotSpec {
  import opened Bytes
  import opened Digits

  /** The largest message the base transfer pads with one SHA-256 digest (`HASH_BYTES`). */
  const HASH_BYTES: nat := 32
  /** The seed length of the block-cipher stream (`BC_SEEDLEN_DEFAULT`). */
  const SEED_BYTES: nat := 16

  /** A random generator's output stream: byte t of it is tape(t). */
  type Tape = nat -> Byte

  /** The `n` bytes a generator produces once `at` bytes have been drawn. */
  function Draw(tape: Tape, at: nat, n: nat): (r: Bytes)
    ensures |r| == n
  {
    seq(n, t requires 0 <= t < n => tape(at + t))
  }

  /** One base transfer: in session `session` the sender offers `slots`. */
  datatype Offer = Offer(session: nat, slots: seq<Bytes>)

  /** What `npotSendMany` sends: one base transfer when n <= nmax; otherwise
      one base transfer of keys per digit position and one ciphertext per entry. */
  datatype ManyMsg = Direct(offer: Offer) | Folded(offers: seq<Offer>, cts: seq<Bytes>)

  /** What `npotSendLong` sends: the `npotSendMany` message itself for short
      entries; otherwise a transfer of seeds and the entries padded with the
      streams of those seeds. */
  datatype LongMsg = Short(many: ManyMsg) | Seeded(seeds: ManyMsg, cts: seq<Bytes>)

  /** Entry `idx` of a buffer of `len`-byte entries. */
  function Block(buf: Bytes, len: nat, idx: nat): (r: Bytes)
    requires idx * len + len <= |buf|
    ensures |r| == len
  {
    buf[idx * len .. idx * len + len]
  }

  lemma BlockBound(count: nat, len: nat, idx: nat)
    requires idx < count
    ensures idx * len + len <= count * len
  {
    MulMono(idx + 1, count, len);
  }

  // ---------------------------------------------------------------------
  // npotSendMany / npotRecvMany

  /** Digit strings usable as row choices among `base` options. */
  ghost predicate DigitsBelow(ds: seq<int>, base: nat)
  {
    forall j | 0 <= j < |ds| :: 0 <= ds[j] < base
  }

  lemma KeyBound(base: nat, len: nat, lc: nat, j: nat, d: nat)
    requires j < lc && d < base
    ensures (base * j + d) * len + len <= len * base * lc
  {
    MatIndexBound(j, d, lc, base);
    assert j * base == base * j;
    BlockBound(lc * base, len, base * j + d);
    assert lc * base * len == len * base * lc;
  }

  /** The exclusive or of the keys picked by the digits `ds`: key `ds[j]`
      of round `j`, where key (j, d) is entry base*j + d of `keys`. */
  function FoldKeys(keys: Bytes, base: nat, len: nat, lc: nat, ds: seq<int>): (r: Bytes)
    requires DigitsBelow(ds, base) && |ds| <= lc && |keys| == len * base * lc
    ensures |r| == len
  {
    if ds == [] then Zeros(len)
    else
      var j := |ds| - 1;
      KeyBound(base, len, lc, j, ds[j]);
      Xor(FoldKeys(keys, base, len, lc, ds[..j]), Block(keys, len, base * j + ds[j]))
  }

  /** Folding in one more digit XORs in the key it picks. */
  lemma FoldKeysStep(keys: Bytes, base: nat, len: nat, lc: nat, ds: seq<int>, j: nat)
    requires DigitsBelow(ds, base) && j < |ds| <= lc && |keys| == len * base * lc
    ensures (base * j + ds[j]) * len + len <= |keys|
    ensures FoldKeys(keys, base, len, lc, ds[..j + 1])
         == Xor(FoldKeys(keys, base, len, lc, ds[..j]), Block(keys, len, base * j + ds[j]))
  {
    KeyBound(base, len, lc, j, ds[j]);
    assert ds[..j + 1][..j] == ds[..j];
  }

  /** The key the entry with index i is padded with: the fold of the keys
      picked by its base-`base` digits. */
  function DigitKey(keys: Bytes, base: nat, len: nat, lc: nat, i: nat): (r: Bytes)
    requires base >= 2 && NumDigits(i, base) <= lc && |keys| == len * base * lc
    ensures |r| == len
  {
    DigitsFacts(i, base, lc);
    FoldKeys(keys, base, len, lc, DigitsOf(i, base, lc))
  }

  /** The entries padded with their digit keys: the ciphertexts of `npotSendMany`. */
  function PaddedEntries(arr: seq<Bytes>, keys: Bytes, base: nat, len: nat, lc: nat): (r: seq<Bytes>)
    requires base >= 2 && lc == LogCeilOf(|arr|, base) && |keys| == len * base * lc
    requires Uniform(arr, len)
    ensures |r| == |arr| && Uniform(r, len)
  {
    seq(|arr|, i requires 0 <= i < |arr| =>
      (LogCeilSuffices(|arr|, base, i); Xor(arr[i], DigitKey(keys, base, len, lc, i))))
  }

  /** The base transfers of `npotSendMany`: in round j (session R + j) the
      keys base*j .. base*j + base - 1. */
  function RoundOffers(keys: Bytes, base: nat, len: nat, lc: nat, R: nat): (r: seq<Offer>)
    requires |keys| == len * base * lc
    ensures |r| == lc
  {
    seq(lc, j requires 0 <= j < lc =>
      Offer(R + j, seq(base, d requires 0 <= d < base => (KeyBound(base, len, lc, j, d); Block(keys, len, base * j + d)))))
  }

  /** The number of base transfers (sessions) one `npotSendMany` uses. */
  function ManyRounds(n: nat, base: nat): nat
    requires n <= base || base >= 2
  {
    if n <= base then 1 else LogCeilOf(n, base)
  }

  /** The number of random bytes one `npotSendMany` draws. */
  function ManyDrawn(n: nat, base: nat, len: nat): nat
    requires n <= base || base >= 2
  {
    if n <= base then 0 else len * base * LogCeilOf(n, base)
  }

  /** The message `npotSendMany(s, arr, n, len)` sends from session `R`
      with random stream `tape` drawn up to `at`. */
  function ManySent(tape: Tape, at: nat, R: nat, base: nat, arr: seq<Bytes>, len: nat): ManyMsg
    requires |arr| <= base || base >= 2
    requires Uniform(arr, len)
  {
    if |arr| <= base then Direct(Offer(R, arr))
    else
      var lc := LogCeilOf(|arr|, base);
      var keys := Draw(tape, at, len * base * lc);
      Folded(RoundOffers(keys, base, len, lc, R), PaddedEntries(arr, keys, base, len, lc))
  }

  /** An offer of `n` entries of `len` bytes. */
  ghost predicate OfferShaped(o: Offer, n: nat, len: nat)
  {
    |o.slots| == n && Uniform(o.slots, len)
  }

  /** A message of the shape `npotRecvMany(r, dest, seli, n, len)` reads. */
  ghost predicate ManyShaped(m: ManyMsg, n: nat, len: nat, base: nat)
    requires n <= base || base >= 2
  {
    if n <= base then m.Direct? && OfferShaped(m.offer, n, len)
    else
      && m.Folded? && |m.offers| == LogCeilOf(n, base)
      && (forall j | 0 <= j < |m.offers| :: OfferShaped(m.offers[j], base, len))
      && |m.cts| == n && Uniform(m.cts, len)
  }

  /** The base transfers of the message run in sessions R, R + 1, ...: the
      order in which both sides must call them. */
  ghost predicate ManySessions(m: ManyMsg, R: nat)
  {
    match m
    case Direct(o) => o.session == R
    case Folded(offers, _) => forall j | 0 <= j < |offers| :: offers[j].session == R + j
  }

  ghost predicate LongSessions(m: LongMsg, R: nat)
  {
    match m
    case Short(many) => ManySessions(many, R)
    case Seeded(seeds, _) => ManySessions(seeds, R)
  }

  /** The exclusive or of what the receiver learns in rounds 0 .. |ds|-1,
      asking for entry ds[j] in round j. */
  function FoldSlots(offers: seq<Offer>, base: nat, len: nat, ds: seq<int>): (r: Bytes)
    requires DigitsBelow(ds, base) && |ds| <= |offers|
    requires forall j | 0 <= j < |offers| :: OfferShaped(offers[j], base, len)
    ensures |r| == len
  {
    if ds == [] then Zeros(len)
    else
      var j := |ds| - 1;
      Xor(FoldSlots(offers, base, len, ds[..j]), offers[j].slots[ds[j]])
  }

  /** Folding in one more round XORs in the slot its digit picks. */
  lemma FoldSlotsStep(offers: seq<Offer>, base: nat, len: nat, ds: seq<int>, i: nat)
    requires DigitsBelow(ds, base) && i < |ds| <= |offers|
    requires forall j | 0 <= j < |offers| :: OfferShaped(offers[j], base, len)
    ensures FoldSlots(offers, base, len, ds[..i + 1])
         == Xor(FoldSlots(offers, base, len, ds[..i]), offers[i].slots[ds[i]])
  {
    assert ds[..i + 1][..i] == ds[..i];
  }

  /** What `npotRecvMany(r, dest, seli, n, len)` writes into `dest`. */
  function ManyOpened(m: ManyMsg, seli: nat, n: nat, len: nat, base: nat): (r: Bytes)
    requires n <= base || base >= 2
    requires ManyShaped(m, n, len, base) && seli < n
    ensures |r| == len
  {
    if n <= base then m.offer.slots[seli]
    else
      var lc := LogCeilOf(n, base);
      LogCeilSuffices(n, base, seli);
      DigitsFacts(seli, base, lc);
      Xor(m.cts[seli], FoldSlots(m.offers, base, len, DigitsOf(seli, base, lc)))
  }

  lemma RoundOffersShaped(keys: Bytes, base: nat, len: nat, lc: nat, R: nat)
    requires |keys| == len * base * lc
    ensures forall j | 0 <= j < lc :: OfferShaped(RoundOffers(keys, base, len, lc, R)[j], base, len)
  {
    var offers := RoundOffers(keys, base, len, lc, R);
    forall j | 0 <= j < lc
      ensures OfferShaped(offers[j], base, len)
    {
      forall d | 0 <= d < base
        ensures |offers[j].slots[d]| == len
      {
        KeyBound(base, len, lc, j, d);
        assert offers[j].slots[d] == Block(keys, len, base * j + d);
      }
    }
  }

  lemma {:induction false} FoldSlotsOfRounds(keys: Bytes, base: nat, len: nat, lc: nat, R: nat, ds: seq<int>)
    requires |keys| == len * base * lc && DigitsBelow(ds, base) && |ds| <= lc
    ensures forall j | 0 <= j < lc :: OfferShaped(RoundOffers(keys, base, len, lc, R)[j], base, len)
    ensures FoldSlots(RoundOffers(keys, base, len, lc, R), base, len, ds) == FoldKeys(keys, base, len, lc, ds)
  {
    RoundOffersShaped(keys, base, len, lc, R);
    if ds != [] {
      FoldSlotsOfRounds(keys, base, len, lc, R, ds[..|ds| - 1]);
    }
  }

  /** `npotRecvMany` after `npotSendMany` yields the chosen entry: every
      key of the fold is used twice and cancels. */
  lemma ManyCorrect(tape: Tape, at: nat, R: nat, base: nat, arr: seq<Bytes>, len: nat, seli: nat)
    requires |arr| <= base || base >= 2
    requires Uniform(arr, len) && seli < |arr|
    ensures ManyShaped(ManySent(tape, at, R, base, arr, len), |arr|, len, base)
    ensures ManySessions(ManySent(tape, at, R, base, arr, len), R)
    ensures ManyOpened(ManySent(tape, at, R, base, arr, len), seli, |arr|, len, base) == arr[seli]
  {
    var m := ManySent(tape, at, R, base, arr, len);
    if |arr| > base {
      var lc := LogCeilOf(|arr|, base);
      var keys := Draw(tape, at, len * base * lc);
      LogCeilSuffices(|arr|, base, seli);
      DigitsFacts(seli, base, lc);
      var ds := DigitsOf(seli, base, lc);
      FoldSlotsOfRounds(keys, base, len, lc, R, ds);
      RoundOffersShaped(keys, base, len, lc, R);
      XorCancel(arr[seli], FoldKeys(keys, base, len, lc, ds));
    }
  }

  // ---------------------------------------------------------------------
  // npotSendLong / npotRecvLong

  function LongDrawn(n: nat, base: nat, len: nat): nat
    requires n <= base || base >= 2
  {
    if len <= HASH_BYTES then ManyDrawn(n, base, len) else n * SEED_BYTES + ManyDrawn(n, base, SEED_BYTES)
  }

  /** The seeds of `npotSendLong`: entry i of its first random draw. */
  function Seeds(tape: Tape, at: nat, n: nat): (r: seq<Bytes>)
    ensures |r| == n && Uniform(r, SEED_BYTES)
  {
    seq(n, i requires 0 <= i < n => (BlockBound(n, SEED_BYTES, i); Block(Draw(tape, at, n * SEED_BYTES), SEED_BYTES, i)))
  }

  /** The message `npotSendLong(s, arr, n, len)` sends. */
  function LongSent(tape: Tape, at: nat, R: nat, base: nat, prg: Prg, arr: seq<Bytes>, len: nat): LongMsg
    requires |arr| <= base || base >= 2
    requires Uniform(arr, len)
  {
    if len <= HASH_BYTES then Short(ManySent(tape, at, R, base, arr, len))
    else
      var seeds := Seeds(tape, at, |arr|);
      Seeded(ManySent(tape, at + |arr| * SEED_BYTES, R, base, seeds, SEED_BYTES),
             seq(|arr|, i requires 0 <= i < |arr| => Xor(prg(seeds[i], 0, len), arr[i])))
  }

  ghost predicate LongShaped(m: LongMsg, n: nat, len: nat, base: nat)
    requires n <= base || base >= 2
  {
    if len <= HASH_BYTES then m.Short? && ManyShaped(m.many, n, len, base)
    else m.Seeded? && ManyShaped(m.seeds, n, SEED_BYTES, base) && |m.cts| == n && Uniform(m.cts, len)
  }

  /** What `npotRecvLong(r, dest, seli, n, len)` writes into `dest`. */
  function LongOpened(m: LongMsg, seli: nat, n: nat, len: nat, base: nat, prg: Prg): (r: Bytes)
    requires n <= base || base >= 2
    requires LongShaped(m, n, len, base) && seli < n
    ensures |r| == len
  {
    if len <= HASH_BYTES then ManyOpened(m.many, seli, n, len, base)
    else Xor(m.cts[seli], prg(ManyOpened(m.seeds, seli, n, SEED_BYTES, base), 0, len))
  }

  /** `npotRecvLong` after `npotSendLong` yields the chosen entry: the
      receiver regenerates the one stream whose seed it obtained. */
  lemma LongCorrect(tape: Tape, at: nat, R: nat, base: nat, prg: Prg, arr: seq<Bytes>, len: nat, seli: nat)
    requires |arr| <= base || base >= 2
    requires Uniform(arr, len) && seli < |arr|
    ensures LongShaped(LongSent(tape, at, R, base, prg, arr, len), |arr|, len, base)
    ensures LongSessions(LongSent(tape, at, R, base, prg, arr, len), R)
    ensures LongOpened(LongSent(tape, at, R, base, prg, arr, len), seli, |arr|, len, base, prg) == arr[seli]
  {
    if len <= HASH_BYTES {
      ManyCorrect(tape, at, R, base, arr, len, seli);
    } else {
      SeededCorrect(tape, at, R, base, prg, arr, len, seli);
    }
  }

  /** `LongCorrect` for entries longer than a hash: the seeds go through
      `npotSendMany` and each entry is masked by its seed's stream. */
  lemma SeededCorrect(tape: Tape, at: nat, R: nat, base: nat, prg: Prg, arr: seq<Bytes>, len: nat, seli: nat)
    requires |arr| <= base || base >= 2
    requires Uniform(arr, len) && seli < |arr| && len > HASH_BYTES
    ensures LongShaped(LongSent(tape, at, R, base, prg, arr, len), |arr|, len, base)
    ensures LongSessions(LongSent(tape, at, R, base, prg, arr, len), R)
    ensures LongOpened(LongSent(tape, at, R, base, prg, arr, len), seli, |arr|, len, base, prg) == arr[seli]
  {
    var seeds := Seeds(tape, at, |arr|);
    var many := ManySent(tape, at + |arr| * SEED_BYTES, R, base, seeds, SEED_BYTES);
    ManyCorrect(tape, at + |arr| * SEED_BYTES, R, base, seeds, SEED_BYTES, seli);
    var m := LongSent(tape, at, R, base, prg, arr, len);
    assert m.Seeded? && m.seeds == many;
    forall i | 0 <= i < |arr|
      ensures |m.cts[i]| == len
    {
      assert |prg(seeds[i], 0, len)| == len;
    }
    var pad := prg(seeds[seli], 0, len);
    assert ManyOpened(many, seli, |arr|, SEED_BYTES, base) == seeds[seli];
    assert m.cts[seli] == Xor(pad, arr[seli]);
    XorComm(pad, arr[seli]);
    XorCancel(arr[seli], pad);
  }

  // ---------------------------------------------------------------------
  // npotSend1Of2Once / npotRecv1Of2Once

  /** 2^j, which `1 << j` computes. */
  function Pow2(j: nat): (r: nat)
    ensures r >= 1
  {
    if j == 0 then 1 else 2 * Pow2(j - 1)
  }

  /** Bit j of the number i (`i & (1 << j)`). */
  predicate BitSet(i: nat, j: nat)
  {
    (i / Pow2(j)) % 2 == 1
  }

  /** Entry i of the table of `npotSend1Of2Once`: option j is taken from
      `opt1` when bit j of i is set, else from `opt0`. */
  function TableEntry(opt0: seq<Bytes>, opt1: seq<Bytes>, i: nat): Bytes
    requires |opt0| == |opt1|
  {
    Flatten(seq(|opt0|, j requires 0 <= j < |opt0| => if BitSet(i, j) then opt1[j] else opt0[j]))
  }

  /** The 2^n entries `npotSend1Of2Once` offers for n pairs of options. */
  function Table(opt0: seq<Bytes>, opt1: seq<Bytes>): (r: seq<Bytes>)
    requires |opt0| == |opt1|
    ensures |r| == Pow2(|opt0|)
  {
    seq(Pow2(|opt0|), i requires 0 <= i < Pow2(|opt0|) => TableEntry(opt0, opt1, i))
  }

  /** Every table entry holds n options of `len` bytes. */
  lemma TableUniform(opt0: seq<Bytes>, opt1: seq<Bytes>, len: nat)
    requires |opt0| == |opt1| && Uniform(opt0, len) && Uniform(opt1, len)
    ensures Uniform(Table(opt0, opt1), |opt0| * len)
  {
    var n := |opt0|;
    forall i | 0 <= i < Pow2(n)
      ensures |TableEntry(opt0, opt1, i)| == n * len
    {
      FlattenLength(seq(n, j requires 0 <= j < n => if BitSet(i, j) then opt1[j] else opt0[j]), len);
    }
  }

  // ---------------------------------------------------------------------
  // npotRecv1Of2: choice masks

  /** The mask `npotRecv1Of2` builds: bit j is s[j]. */
  function MaskOf(s: seq<bool>): nat
  {
    if s == [] then 0 else MaskOf(s[..|s| - 1]) + (if s[|s| - 1] then Pow2(|s| - 1) else 0)
  }

  lemma {:induction false} MaskBound(s: seq<bool>)
    ensures MaskOf(s) < Pow2(|s|)
  {
    if s != [] {
      MaskBound(s[..|s| - 1]);
    }
  }

  /** Division by d recovers q from q * d + r when 0 <= r < d. */
  lemma DivUnique(n: nat, d: nat, q: nat, r: nat)
    requires 0 <= r < d && n == q * d + r
    ensures n / d == q && n % d == r
  {
    var q2, r2 := n / d, n % d;
    assert n == q2 * d + r2;
    if q2 < q {
      MulMono(q2 + 1, q, d);
    } else if q < q2 {
      MulMono(q + 1, q2, d);
    }
  }

  lemma DivAddMultiple(a: nat, q: nat, d: nat)
    requires d > 0
    ensures (a + q * d) / d == a / d + q
  {
    var x, y := a / d, a % d;
    assert a == x * d + y;
    assert a + q * d == (x + q) * d + y;
    DivUnique(a + q * d, d, x + q, y);
  }

  lemma {:induction false} Pow2Split(a: nat, b: nat)
    ensures Pow2(a + b) == Pow2(b) * Pow2(a)
  {
    if b > 0 {
      Pow2Split(a, b - 1);
      assert Pow2(a + b) == 2 * Pow2(a + b - 1);
    }
  }

  lemma {:induction false} Pow2Mono(a: nat, b: nat)
    requires a <= b
    ensures Pow2(a) <= Pow2(b)
  {
    if a < b {
      Pow2Mono(a, b - 1);
    }
  }

  lemma ModAddEven(x: int, e: int)
    ensures (x + 2 * e) % 2 == x % 2
  {
  }

  lemma BitSetOfAddBelow(m: nat, k: nat, j: nat)
    requires j < k
    ensures BitSet(m + Pow2(k), j) == BitSet(m, j)
  {
    var d, e := Pow2(j), Pow2(k - j - 1);
    Pow2Split(j, k - j);
    assert Pow2(k - j) == 2 * e;
    assert Pow2(k) == (2 * e) * d;
    DivAddMultiple(m, 2 * e, d);
    var q: int := m / d;
    assert (m + Pow2(k)) / d == q + 2 * e;
    ModAddEven(q, e);
  }

  lemma BitSetOfAddAbove(m: nat, k: nat, j: nat)
    requires m < Pow2(k) && k < j
    ensures !BitSet(m + Pow2(k), j) && !BitSet(m, j)
  {
    Pow2Mono(k + 1, j);
    assert m + Pow2(k) < Pow2(j);
    DivUnique(m + Pow2(k), Pow2(j), 0, m + Pow2(k));
    DivUnique(m, Pow2(j), 0, m);
  }

  /** Adding 2^k to a number below 2^k sets bit k and leaves the others. */
  lemma BitSetOfAdd(m: nat, k: nat, j: nat)
    requires m < Pow2(k)
    ensures BitSet(m + Pow2(k), j) == (j == k || BitSet(m, j))
  {
    if j < k {
      BitSetOfAddBelow(m, k, j);
    } else if j == k {
      DivUnique(m + Pow2(k), Pow2(k), 1, m);
    } else {
      BitSetOfAddAbove(m, k, j);
    }
  }

  /** A number below 2^k has bit k clear. */
  lemma BitClearBelow(m: nat, k: nat)
    requires m < Pow2(k)
    ensures !BitSet(m, k)
  {
    DivUnique(m, Pow2(k), 0, m);
  }

  /** Bit j of the mask is the choice s[j]. */
  lemma {:induction false} MaskBits(s: seq<bool>, j: nat)
    requires j < |s|
    ensures BitSet(MaskOf(s), j) == s[j]
  {
    var k := |s| - 1;
    var init := s[..k];
    var m := MaskOf(init);
    MaskBound(init);
    assert MaskOf(s) == m + (if s[k] then Pow2(k) else 0);
    if j < k {
      MaskBits(init, j);
      assert init[j] == s[j];
      if s[k] {
        BitSetOfAdd(m, k, j);
      }
    } else if s[k] {
      BitSetOfAdd(m, k, j);
    } else {
      BitClearBelow(m, k);
    }
  }

  // ---------------------------------------------------------------------
  // npotSend1Of2 / npotRecv1Of2: batches

  /** A batch of `size` transfers starting at transfer `start`. */
  datatype Batch = Batch(start: nat, size: nat)

  /** The batches the loops of `npotSend1Of2` and `npotRecv1Of2` go
      through: full batches of `bs`, then the remainder if any. */
  function Batches(n: nat, bs: nat): (r: seq<Batch>)
    requires bs >= 1
  {
    seq(n / bs, k requires 0 <= k < n / bs => Batch(k * bs, bs))
      + (if n % bs != 0 then [Batch(n - n % bs, n % bs)] else [])
  }

  /** The batches cover 0 .. n-1 in order: batch k starts at k * bs, every
      batch but the last has `bs` transfers, the last one between 1 and
      `bs` and ends at n. */
  lemma BatchesCover(n: nat, bs: nat)
    requires bs >= 1
    ensures var b := Batches(n, bs);
      && (|b| == 0 <==> n == 0)
      && (forall k | 0 <= k < |b| :: b[k].start == k * bs && 1 <= b[k].size <= bs)
      && (forall k | 0 <= k < |b| - 1 :: b[k].size == bs)
      && (|b| > 0 ==> b[|b| - 1].start + b[|b| - 1].size == n)
  {
    var b := Batches(n, bs);
    var q := n / bs;
    assert n == q * bs + n % bs;
    if n % bs != 0 {
      assert b[q] == Batch(q * bs, n % bs);
    }
  }

  /** Growing a prefix by one element, for loops that build a sequence of messages. */
  lemma PrefixStep<T>(s: seq<T>, k: nat)
    requires k < |s|
    ensures s[..k + 1] == s[..k] + [s[k]]
  {
  }

  lemma PrefixWhole<T>(s: seq<T>, k: nat)
    requires k == |s|
    ensures s[..k] == s
  {
  }

  /** How the loops of `npotSend1Of2` and `npotRecv1Of2` walk the batches:
      at i = k * bs, a full batch remains while i + bs <= n, then one
      remainder batch if i < n, and then none. */
  lemma BatchesStep(n: nat, bs: nat, k: nat)
    requires bs >= 1 && k * bs <= n
    ensures var b, i := Batches(n, bs), k * bs;
      && (i + bs <= n ==> k < |b| && b[k] == Batch(i, bs) && (k + 1) * bs <= n)
      && (n < i + bs && i < n ==> k == |b| - 1 && b[k] == Batch(i, n - i))
      && (n < i + bs && n <= i ==> k == |b|)
  {
    var b, i := Batches(n, bs), k * bs;
    var q, r := n / bs, n % bs;
    assert n == q * bs + r;
    DivLess(n, bs, k);
    DivLess(n, bs, k + 1);
    assert (k + 1) * bs == i + bs;
    if i + bs <= n {
      assert k < q;
    } else {
      assert q == k;
    }
  }

  /** The batches are consecutive, each of 1 to 31 transfers, and end at `hi`. */
  ghost predicate Consecutive(b: seq<Batch>, hi: nat)
  {
    if b == [] then hi == 0
    else
      var last := b[|b| - 1];
      && 1 <= last.size < 32 && last.start + last.size == hi
      && Consecutive(b[..|b| - 1], last.start)
  }

  /** Each batch starts where the one before it ends. */
  lemma BatchesAdjacent(n: nat, bs: nat)
    requires 1 <= bs < 32
    ensures var b := Batches(n, bs);
      && (forall t | 0 <= t < |b| :: 1 <= b[t].size < 32)
      && (forall t | 0 < t < |b| :: b[t - 1].start + b[t - 1].size == b[t].start)
      && (|b| > 0 ==> b[0].start == 0 && b[|b| - 1].start + b[|b| - 1].size == n)
  {
    BatchesCover(n, bs);
    var b := Batches(n, bs);
    forall t | 0 < t < |b|
      ensures b[t - 1].start + b[t - 1].size == b[t].start
    {
      assert (t - 1) * bs + bs == t * bs;
    }
  }

  lemma {:induction false} ConsecutivePrefix(b: seq<Batch>, k: nat)
    requires k <= |b|
    requires forall t | 0 <= t < |b| :: 1 <= b[t].size < 32
    requires forall t | 0 < t < |b| :: b[t - 1].start + b[t - 1].size == b[t].start
    requires |b| > 0 ==> b[0].start == 0
    ensures Consecutive(b[..k], if k == 0 then 0 else b[k - 1].start + b[k - 1].size)
  {
    if k > 0 {
      assert b[..k][..k - 1] == b[..k - 1];
      ConsecutivePrefix(b, k - 1);
    }
  }

  lemma BatchesAreConsecutive(n: nat, bs: nat)
    requires 1 <= bs < 32
    ensures Consecutive(Batches(n, bs), n)
  {
    var b := Batches(n, bs);
    BatchesAdjacent(n, bs);
    ConsecutivePrefix(b, |b|);
    PrefixWhole(b, |b|);
  }

  lemma {:induction false} ConsecutiveBound(b: seq<Batch>, hi: nat, k: nat)
    requires Consecutive(b, hi) && k < |b|
    ensures b[k].start + b[k].size <= hi && 1 <= b[k].size < 32
  {
    if k < |b| - 1 {
      ConsecutiveBound(b[..|b| - 1], b[|b| - 1].start, k);
    }
  }

  /** The random bytes the base transfers of the batches draw. */
  function BatchesDrawn(b: seq<Batch>, base: nat, len: nat): nat
    requires base >= 2
  {
    if b == [] then 0
    else BatchesDrawn(b[..|b| - 1], base, len) + LongDrawn(Pow2(b[|b| - 1].size), base, b[|b| - 1].size * len)
  }

  /** The sessions the base transfers of the batches use. */
  function BatchesRounds(b: seq<Batch>, base: nat): nat
    requires base >= 2
  {
    if b == [] then 0
    else BatchesRounds(b[..|b| - 1], base) + ManyRounds(Pow2(b[|b| - 1].size), base)
  }

  /** One more batch adds its own sessions and random bytes. */
  lemma BatchesCountStep(b: seq<Batch>, k: nat, base: nat, len: nat)
    requires base >= 2 && k < |b|
    ensures BatchesRounds(b[..k + 1], base) == BatchesRounds(b[..k], base) + ManyRounds(Pow2(b[k].size), base)
    ensures BatchesDrawn(b[..k + 1], base, len)
         == BatchesDrawn(b[..k], base, len) + LongDrawn(Pow2(b[k].size), base, b[k].size * len)
  {
    assert b[..k + 1][..k] == b[..k];
  }

  /** Every batch lies inside the options. */
  ghost predicate BatchesFit(b: seq<Batch>, opt0: seq<Bytes>, opt1: seq<Bytes>)
  {
    forall k | 0 <= k < |b| :: b[k].start + b[k].size <= |opt0| && b[k].start + b[k].size <= |opt1|
  }

  /** Two lists of `len`-byte options, one pair per transfer. */
  ghost predicate Options(opt0: seq<Bytes>, opt1: seq<Bytes>, len: nat)
  {
    |opt0| == |opt1| && Uniform(opt0, len) && Uniform(opt1, len)
  }

  /** The message `npotSend1Of2Once` sends for one batch. */
  function OnceSent(tape: Tape, at: nat, R: nat, base: nat, prg: Prg, opt0: seq<Bytes>, opt1: seq<Bytes>, len: nat): LongMsg
    requires base >= 2 && Options(opt0, opt1, len)
  {
    TableUniform(opt0, opt1, len);
    LongSent(tape, at, R, base, prg, Table(opt0, opt1), |opt0| * len)
  }

  /** The messages `npotSend1Of2(s, opt0, opt1, n, len, bs)` sends: message
      k is the table transfer of batch k, drawn and numbered after the
      batches before it. */
  function BatchSent(tape: Tape, at: nat, R: nat, base: nat, prg: Prg,
                     opt0: seq<Bytes>, opt1: seq<Bytes>, len: nat, b: seq<Batch>): (r: seq<LongMsg>)
    requires base >= 2 && Options(opt0, opt1, len) && BatchesFit(b, opt0, opt1)
    ensures |r| == |b|
  {
    seq(|b|, k requires 0 <= k < |b| =>
      OnceSent(tape, at + BatchesDrawn(b[..k], base, len), R + BatchesRounds(b[..k], base), base, prg,
               opt0[b[k].start .. b[k].start + b[k].size], opt1[b[k].start .. b[k].start + b[k].size], len))
  }

  /** The options the choice bits `sel` pick: what the receiver of
      `npotRecv1Of2` is meant to end up with, one block per transfer. */
  function Chosen(opt0: seq<Bytes>, opt1: seq<Bytes>, sel: seq<bool>): Bytes
    requires |sel| <= |opt0| && |sel| <= |opt1|
  {
    Flatten(seq(|sel|, j requires 0 <= j < |sel| => if sel[j] then opt1[j] else opt0[j]))
  }

  /** The table entry at the mask of `sel` is the options `sel` picks. */
  lemma TableEntryOfMask(opt0: seq<Bytes>, opt1: seq<Bytes>, sel: seq<bool>)
    requires |opt0| == |opt1| == |sel|
    ensures TableEntry(opt0, opt1, MaskOf(sel)) == Chosen(opt0, opt1, sel)
  {
    var n := |sel|;
    var entry := seq(n, j requires 0 <= j < n => if BitSet(MaskOf(sel), j) then opt1[j] else opt0[j]);
    var want := seq(n, j requires 0 <= j < n => if sel[j] then opt1[j] else opt0[j]);
    forall j | 0 <= j < n
      ensures entry[j] == want[j]
    {
      MaskBits(sel, j);
    }
    assert entry == want;
  }

  /** The receiver of a table transfer gets the entry it asks for. */
  lemma TableOpened(tape: Tape, at: nat, R: nat, base: nat, prg: Prg, opt0: seq<Bytes>, opt1: seq<Bytes>, len: nat, mask: nat)
    requires base >= 2 && Options(opt0, opt1, len) && mask < Pow2(|opt0|)
    ensures var m := OnceSent(tape, at, R, base, prg, opt0, opt1, len);
      && LongShaped(m, Pow2(|opt0|), |opt0| * len, base)
      && LongSessions(m, R)
      && LongOpened(m, mask, Pow2(|opt0|), |opt0| * len, base, prg) == TableEntry(opt0, opt1, mask)
  {
    TableUniform(opt0, opt1, len);
    LongCorrect(tape, at, R, base, prg, Table(opt0, opt1), |opt0| * len, mask);
  }

  /** `npotRecv1Of2Once(r, dest, mask, n, len)` after `npotSend1Of2Once`
      with the mask of the choice bits `sel`: the receiver gets option j of
      `opt1` where sel[j] holds and of `opt0` elsewhere. */
  lemma OnceCorrect(tape: Tape, at: nat, R: nat, base: nat, prg: Prg, opt0: seq<Bytes>, opt1: seq<Bytes>, len: nat, sel: seq<bool>)
    requires base >= 2 && Options(opt0, opt1, len) && |sel| == |opt0|
    ensures var m := OnceSent(tape, at, R, base, prg, opt0, opt1, len);
      && MaskOf(sel) < Pow2(|sel|)
      && LongShaped(m, Pow2(|sel|), |sel| * len, base)
      && LongSessions(m, R)
      && LongOpened(m, MaskOf(sel), Pow2(|sel|), |sel| * len, base, prg) == Chosen(opt0, opt1, sel)
  {
    MaskBound(sel);
    TableOpened(tape, at, R, base, prg, opt0, opt1, len, MaskOf(sel));
    TableEntryOfMask(opt0, opt1, sel);
  }

  /** The mask of the choice bits of batch `bt`. */
  function BatchMask(sel: seq<bool>, bt: Batch): (r: nat)
    requires bt.start + bt.size <= |sel|
    ensures r < Pow2(bt.size)
  {
    MaskBound(sel[bt.start .. bt.start + bt.size]);
    MaskOf(sel[bt.start .. bt.start + bt.size])
  }

  /** Batch message k has the shape of a table transfer over the batch's
      2^size entries of size * len bytes. */
  ghost predicate ShapedAt(ms: seq<LongMsg>, len: nat, base: nat, b: seq<Batch>, k: nat)
    requires base >= 2 && |ms| == |b| && k < |b|
  {
    LongShaped(ms[k], Pow2(b[k].size), b[k].size * len, base)
  }

  ghost predicate BatchShaped(ms: seq<LongMsg>, len: nat, base: nat, b: seq<Batch>)
    requires base >= 2 && |ms| == |b|
  {
    forall k | 0 <= k < |b| :: ShapedAt(ms, len, base, b, k)
  }

  /** Batch by batch, what the receiver opens: message k with the mask of
      the choice bits of batch k. */
  function OpenedPieces(ms: seq<LongMsg>, sel: seq<bool>, len: nat, base: nat, prg: Prg, b: seq<Batch>): (r: seq<Bytes>)
    requires base >= 2 && |ms| == |b|
    requires forall k | 0 <= k < |b| :: b[k].start + b[k].size <= |sel|
    requires BatchShaped(ms, len, base, b)
    ensures |r| == |b|
  {
    seq(|b|, k requires 0 <= k < |b| =>
      assert ShapedAt(ms, len, base, b, k);
      LongOpened(ms[k], BatchMask(sel, b[k]), Pow2(b[k].size), b[k].size * len, base, prg))
  }

  /** What `npotRecv1Of2` writes into `dest`: the batch results one after another. */
  function BatchOpened(ms: seq<LongMsg>, sel: seq<bool>, len: nat, base: nat, prg: Prg, b: seq<Batch>): Bytes
    requires base >= 2 && |ms| == |b|
    requires forall k | 0 <= k < |b| :: b[k].start + b[k].size <= |sel|
    requires BatchShaped(ms, len, base, b)
  {
    Flatten(OpenedPieces(ms, sel, len, base, prg, b))
  }

  /** Sessions of consecutive batch messages follow each other. */
  ghost predicate SessionAt(ms: seq<LongMsg>, R: nat, base: nat, b: seq<Batch>, k: nat)
    requires base >= 2 && |ms| == |b| && k < |b|
  {
    LongSessions(ms[k], R + BatchesRounds(b[..k], base))
  }

  ghost predicate BatchSessions(ms: seq<LongMsg>, R: nat, base: nat, b: seq<Batch>)
    requires base >= 2 && |ms| == |b|
  {
    forall k | 0 <= k < |b| :: SessionAt(ms, R, base, b, k)
  }

  lemma ChosenSplit(opt0: seq<Bytes>, opt1: seq<Bytes>, sel: seq<bool>, start: nat, size: nat)
    requires start + size <= |opt0| && start + size <= |opt1| && start + size <= |sel|
    ensures Chosen(opt0, opt1, sel[..start + size])
         == Chosen(opt0, opt1, sel[..start]) + Chosen(opt0[start..start + size], opt1[start..start + size], sel[start..start + size])
  {
    var hi := start + size;
    var all, lo, mid := sel[..hi], sel[..start], sel[start..hi];
    var o0, o1 := opt0[start..hi], opt1[start..hi];
    var wa := seq(|all|, j requires 0 <= j < |all| => if all[j] then opt1[j] else opt0[j]);
    var wl := seq(|lo|, j requires 0 <= j < |lo| => if lo[j] then opt1[j] else opt0[j]);
    var wh := seq(|mid|, j requires 0 <= j < |mid| => if mid[j] then o1[j] else o0[j]);
    assert wa == wl + wh;
    FlattenAppend(wl, wh);
  }

  /** Consecutive batches that end at `hi` lie inside `hi` options. */
  lemma ConsecutiveWithin(b: seq<Batch>, hi: nat)
    requires Consecutive(b, hi)
    ensures forall k | 0 <= k < |b| :: b[k].start + b[k].size <= hi && 1 <= b[k].size < 32
  {
    forall k | 0 <= k < |b|
      ensures b[k].start + b[k].size <= hi && 1 <= b[k].size < 32
    {
      ConsecutiveBound(b, hi, k);
    }
  }

  lemma ConsecutiveFit(b: seq<Batch>, hi: nat, opt0: seq<Bytes>, opt1: seq<Bytes>, sel: seq<bool>)
    requires Consecutive(b, hi) && hi <= |sel| && hi <= |opt0| && hi <= |opt1|
    ensures BatchesFit(b, opt0, opt1)
    ensures forall k | 0 <= k < |b| :: b[k].start + b[k].size <= |sel|
  {
    ConsecutiveWithin(b, hi);
  }

  /** Every batch message has the shape of its table transfer and runs in
      the sessions that follow those of the batches before it. */
  lemma BatchSentFacts(tape: Tape, at: nat, R: nat, base: nat, prg: Prg,
                       opt0: seq<Bytes>, opt1: seq<Bytes>, len: nat, b: seq<Batch>)
    requires base >= 2 && Options(opt0, opt1, len) && BatchesFit(b, opt0, opt1)
    ensures var ms := BatchSent(tape, at, R, base, prg, opt0, opt1, len, b);
      && BatchShaped(ms, len, base, b)
      && BatchSessions(ms, R, base, b)
  {
    var ms := BatchSent(tape, at, R, base, prg, opt0, opt1, len, b);
    forall k | 0 <= k < |b|
      ensures ShapedAt(ms, len, base, b, k) && SessionAt(ms, R, base, b, k)
    {
      var lo, hi := b[k].start, b[k].start + b[k].size;
      var at', R' := at + BatchesDrawn(b[..k], base, len), R + BatchesRounds(b[..k], base);
      assert ms[k] == OnceSent(tape, at', R', base, prg, opt0[lo..hi], opt1[lo..hi], len);
      assert |opt0[lo..hi]| == b[k].size;
      TableOpened(tape, at', R', base, prg, opt0[lo..hi], opt1[lo..hi], len, 0);
    }
  }

  /** Pieces of `size * len` bytes, one per consecutive batch ending at
      `hi`, laid end to end make `hi * len` bytes. */
  lemma {:induction false} PiecesLength(pieces: seq<Bytes>, b: seq<Batch>, len: nat, hi: nat)
    requires |pieces| == |b| && Consecutive(b, hi)
    requires forall t | 0 <= t < |b| :: |pieces[t]| == b[t].size * len
    ensures |Flatten(pieces)| == hi * len
  {
    if b != [] {
      var k := |b| - 1;
      var last := b[k];
      PiecesLength(pieces[..k], b[..k], len, last.start);
      FlattenPrefix(pieces, k);
      assert pieces[..k + 1] == pieces;
      assert hi * len == last.start * len + last.size * len;
    }
  }

  /** Over consecutive batches that end at `hi`, the receiver opens
      `len` bytes per transfer. */
  lemma OpenedLength(ms: seq<LongMsg>, sel: seq<bool>, len: nat, base: nat, prg: Prg, b: seq<Batch>, hi: nat)
    requires base >= 2 && |ms| == |b| && Consecutive(b, hi) && hi <= |sel|
    requires BatchShaped(ms, len, base, b)
    ensures forall k | 0 <= k < |b| :: b[k].start + b[k].size <= |sel|
    ensures |BatchOpened(ms, sel, len, base, prg, b)| == hi * len
  {
    ConsecutiveWithin(b, hi);
    PiecesLength(OpenedPieces(ms, sel, len, base, prg, b), b, len, hi);
  }

  /** Batch by batch, the options the choice bits of the batch pick. */
  function ChosenPieces(opt0: seq<Bytes>, opt1: seq<Bytes>, sel: seq<bool>, b: seq<Batch>): (r: seq<Bytes>)
    requires BatchesFit(b, opt0, opt1)
    requires forall k | 0 <= k < |b| :: b[k].start + b[k].size <= |sel|
    ensures |r| == |b|
  {
    seq(|b|, k requires 0 <= k < |b| =>
      var lo, hi := b[k].start, b[k].start + b[k].size;
      Chosen(opt0[lo..hi], opt1[lo..hi], sel[lo..hi]))
  }

  /** Adding a batch at the end adds its piece at the end of the flattening. */
  lemma ChosenPiecesSnoc(opt0: seq<Bytes>, opt1: seq<Bytes>, sel: seq<bool>, b: seq<Batch>)
    requires BatchesFit(b, opt0, opt1) && b != []
    requires forall k | 0 <= k < |b| :: b[k].start + b[k].size <= |sel|
    ensures BatchesFit(b[..|b| - 1], opt0, opt1)
    ensures Flatten(ChosenPieces(opt0, opt1, sel, b))
         == Flatten(ChosenPieces(opt0, opt1, sel, b[..|b| - 1])) + ChosenPieces(opt0, opt1, sel, b)[|b| - 1]
  {
    var k := |b| - 1;
    var init := b[..k];
    assert forall t | 0 <= t < k :: init[t] == b[t];
    var pieces, before := ChosenPieces(opt0, opt1, sel, b), ChosenPieces(opt0, opt1, sel, init);
    assert pieces == before + [pieces[k]];
    FlattenAppend(before, [pieces[k]]);
    assert Flatten([pieces[k]]) == pieces[k] by {
      assert [pieces[k]][..0] == [];
    }
  }

  /** The options picked batch by batch, laid one after another, are the
      options picked over all transfers the batches cover. */
  lemma {:induction false} ChosenByBatches(opt0: seq<Bytes>, opt1: seq<Bytes>, sel: seq<bool>, b: seq<Batch>, hi: nat)
    requires Consecutive(b, hi) && hi <= |sel| && hi <= |opt0| && hi <= |opt1|
    ensures BatchesFit(b, opt0, opt1)
    ensures forall k | 0 <= k < |b| :: b[k].start + b[k].size <= |sel|
    ensures Flatten(ChosenPieces(opt0, opt1, sel, b)) == Chosen(opt0, opt1, sel[..hi])
  {
    ConsecutiveFit(b, hi, opt0, opt1, sel);
    if b == [] {
      assert sel[..hi] == [];
    } else {
      var k := |b| - 1;
      var last := b[k];
      assert hi == last.start + last.size && Consecutive(b[..k], last.start);
      ChosenByBatches(opt0, opt1, sel, b[..k], last.start);
      ChosenPiecesSnoc(opt0, opt1, sel, b);
      assert ChosenPieces(opt0, opt1, sel, b)[k] == Chosen(opt0[last.start..hi], opt1[last.start..hi], sel[last.start..hi]);
      ChosenSplit(opt0, opt1, sel, last.start, last.size);
    }
  }

  /** Batch message k is shaped for, and in the sessions of, batch k, and
      opening it extends what the batches before it opened. */
  lemma BatchPiece(ms: seq<LongMsg>, sel: seq<bool>, len: nat, base: nat, prg: Prg, b: seq<Batch>, k: nat, R0: nat)
    requires base >= 2 && |ms| == |b| && k < |b|
    requires forall t | 0 <= t < |b| :: b[t].start + b[t].size <= |sel|
    requires BatchShaped(ms, len, base, b) && BatchSessions(ms, R0, base, b)
    ensures LongShaped(ms[k], Pow2(b[k].size), b[k].size * len, base)
    ensures LongSessions(ms[k], R0 + BatchesRounds(b[..k], base))
    ensures BatchesRounds(b[..k + 1], base) == BatchesRounds(b[..k], base) + ManyRounds(Pow2(b[k].size), base)
    ensures Flatten(OpenedPieces(ms, sel, len, base, prg, b)[..k + 1])
         == Flatten(OpenedPieces(ms, sel, len, base, prg, b)[..k])
            + LongOpened(ms[k], BatchMask(sel, b[k]), Pow2(b[k].size), b[k].size * len, base, prg)
  {
    assert ShapedAt(ms, len, base, b, k) && SessionAt(ms, R0, base, b, k);
    BatchesCountStep(b, k, base, 0);
    FlattenPrefix(OpenedPieces(ms, sel, len, base, prg, b), k);
  }

  /** The receiver opens batch k to the options its choice bits pick. */
  lemma BatchOpenedAt(tape: Tape, at: nat, R: nat, base: nat, prg: Prg,
                      opt0: seq<Bytes>, opt1: seq<Bytes>, len: nat, sel: seq<bool>, b: seq<Batch>, k: nat)
    requires base >= 2 && Options(opt0, opt1, len) && BatchesFit(b, opt0, opt1)
    requires forall t | 0 <= t < |b| :: b[t].start + b[t].size <= |sel|
    requires k < |b|
    ensures var ms := BatchSent(tape, at, R, base, prg, opt0, opt1, len, b);
      && LongShaped(ms[k], Pow2(b[k].size), b[k].size * len, base)
      && LongOpened(ms[k], BatchMask(sel, b[k]), Pow2(b[k].size), b[k].size * len, base, prg)
         == ChosenPieces(opt0, opt1, sel, b)[k]
  {
    var lo, hi := b[k].start, b[k].start + b[k].size;
    var at', R' := at + BatchesDrawn(b[..k], base, len), R + BatchesRounds(b[..k], base);
    assert BatchSent(tape, at, R, base, prg, opt0, opt1, len, b)[k]
        == OnceSent(tape, at', R', base, prg, opt0[lo..hi], opt1[lo..hi], len);
    assert |sel[lo..hi]| == b[k].size;
    assert BatchMask(sel, b[k]) == MaskOf(sel[lo..hi]);
    assert ChosenPieces(opt0, opt1, sel, b)[k] == Chosen(opt0[lo..hi], opt1[lo..hi], sel[lo..hi]);
    OnceCorrect(tape, at', R', base, prg, opt0[lo..hi], opt1[lo..hi], len, sel[lo..hi]);
  }

  /** `npotRecv1Of2` after `npotSend1Of2`: over consecutive batches that
      end at `hi`, the receiver assembles the options its choice bits pick. */
  lemma BatchesCorrect(tape: Tape, at: nat, R: nat, base: nat, prg: Prg,
                       opt0: seq<Bytes>, opt1: seq<Bytes>, len: nat, sel: seq<bool>, b: seq<Batch>, hi: nat)
    requires base >= 2 && Options(opt0, opt1, len) && Consecutive(b, hi) && hi <= |sel| && hi <= |opt0|
    ensures BatchesFit(b, opt0, opt1)
    ensures forall k | 0 <= k < |b| :: b[k].start + b[k].size <= |sel|
    ensures var ms := BatchSent(tape, at, R, base, prg, opt0, opt1, len, b);
      && BatchShaped(ms, len, base, b)
      && BatchSessions(ms, R, base, b)
      && BatchOpened(ms, sel, len, base, prg, b) == Chosen(opt0, opt1, sel[..hi])
  {
    ConsecutiveFit(b, hi, opt0, opt1, sel);
    BatchSentFacts(tape, at, R, base, prg, opt0, opt1, len, b);
    ChosenByBatches(opt0, opt1, sel, b, hi);
    var ms := BatchSent(tape, at, R, base, prg, opt0, opt1, len, b);
    var got, pieces := OpenedPieces(ms, sel, len, base, prg, b), ChosenPieces(opt0, opt1, sel, b);
    forall k | 0 <= k < |b|
      ensures got[k] == pieces[k]
    {
      BatchOpenedAt(tape, at, R, base, prg, opt0, opt1, len, sel, b, k);
    }
    assert got == pieces;
  }

  /** `npotRecv1Of2(r, dest, sel, n, len, bs)` after `npotSend1Of2(s, opt0,
      opt1, n, len, bs)` with the same batch size: dest holds, transfer by
      transfer, opt1[i] where sel[i] holds and opt0[i] elsewhere. */
  lemma OneOfTwoCorrect(tape: Tape, at: nat, R: nat, base: nat, prg: Prg,
                        opt0: seq<Bytes>, opt1: seq<Bytes>, len: nat, sel: seq<bool>, bs: nat)
    requires base >= 2 && 1 <= bs < 32 && Options(opt0, opt1, len) && |sel| == |opt0|
    ensures BatchesFit(Batches(|sel|, bs), opt0, opt1)
    ensures forall k | 0 <= k < |Batches(|sel|, bs)| :: Batches(|sel|, bs)[k].start + Batches(|sel|, bs)[k].size <= |sel|
    ensures var b := Batches(|sel|, bs);
      var ms := BatchSent(tape, at, R, base, prg, opt0, opt1, len, b);
      && BatchShaped(ms, len, base, b)
      && BatchSessions(ms, R, base, b)
      && BatchOpened(ms, sel, len, base, prg, b) == Chosen(opt0, opt1, sel)
  {
    assert sel[..|sel|] == sel;
    var b := Batches(|sel|, bs);
    BatchesAreConsecutive(|sel|, bs);
    BatchesCorrect(tape, at, R, base, prg, opt0, opt1, len, sel, b, |sel|);
  }

  lemma {:induction false} Pow2BelowPow(s: nat, b: nat)
    requires b >= 2
    ensures Pow2(s) <= Pow(b, s)
  {
    if s > 0 {
      Pow2BelowPow(s - 1, b);
      MulMono(2, b, Pow(b, s - 1));
    }
  }

  /** A table of 2^s entries needs at most s base transfers, so the
      `LOGMAX` assertion of `npotSendMany` holds for every batch. */
  lemma TableRounds(s: nat, b: nat)
    requires b >= 2
    ensures LogCeilOf(Pow2(s), b) <= s
  {
    Pow2BelowPow(s, b);
    NumDigitsFit(Pow2(s) - 1, b, s);
  }
}
