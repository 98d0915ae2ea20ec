/**
 * The two checks the sender can run on the receiver right after `Xpose`
 * (src/ext/oblivc/ot.c:780-940).
 *
 * `_hhash`: both ends hash every row of their box with the same random
 * 80 x 8*rowBytes bit matrix. Folded as an unsigned byte (as in
 * `BitMatrix.FoldParity`) the hash is linear, so the sender's hash of
 * row i XOR the receiver's is H(mask) where S[i] holds and 0 elsewhere. The
 * sender accepts when the rows with S[i] false hash alike and the rows
 * with S[i] true all differ by one and the same value (`HhashConsistent`);
 * honest boxes always pass (`HhashComplete`).
 *
 * `_byPair`: the sender draws a permutation of the k rows and pairs them
 * up; for each pair (a, b) it tells the receiver whether S[a] differs from
 * S[b], and the receiver answers row a XOR row b of its box, XOR `mask`
 * when told so. Honest answers equal the sender's own row a XOR row b
 * (`ByPairComplete`). Both ends keep the first row of every pair.
 *
 * The hash matrix comes from a coin toss between the parties
 * (`ocRandomBytes`), which may fail; it is a parameter that is `None`
 * when it did. Hashes, flags and answers the other party sends are
 * parameters too.
 */
module Validate {
  import opened Bytes
  import opened Packing
  import opened NpotSpec
  import opened BitMatrix
  import opened ExtBox

  datatype Option<T> = None | Some(value: T)

  const CHECK_HASH_BYTES: nat := 10
  const CHECK_HASH_BITS: nat := 8 * CHECK_HASH_BYTES

  // ---------------------------------------------------------------------
  // _hhash

  /** The hash of a row: the product of the CHECK_HASH_BITS x 8*|row| bit
      matrix `hashmat` with it. */
  function RowHash(hashmat: Bytes, row: Bytes): (r: Bytes)
    ensures |r| == CHECK_HASH_BYTES
  {
    MatMul(hashmat, row, CHECK_HASH_BITS, 8 * |row|)
  }

  function RowHashAt(hashmat: Bytes, box: Bytes, rowBytes: nat, k: nat, i: nat): (r: Bytes)
    requires k * rowBytes <= |box| && i < k
    ensures |r| == CHECK_HASH_BYTES
  {
    BlockBound(k, rowBytes, i);
    MatMul(hashmat, Block(box, rowBytes, i), CHECK_HASH_BITS, 8 * rowBytes)
  }

  /** The hashes of the k rows of `box`, in row order. */
  function RowHashes(hashmat: Bytes, box: Bytes, rowBytes: nat, k: nat): (r: seq<Bytes>)
    requires k * rowBytes <= |box|
    ensures |r| == k && Uniform(r, CHECK_HASH_BYTES)
  {
    seq(k, i requires 0 <= i < k => RowHashAt(hashmat, box, rowBytes, k, i))
  }

  /** The first n hashes agree with the sender's rule: equal where the flag
      is clear, and one common difference where it is set. */
  ghost predicate ConsistentUpTo(flags: seq<bool>, mine: seq<Bytes>, theirs: seq<Bytes>, n: nat)
    requires n <= |flags| == |mine| == |theirs|
    requires Uniform(mine, CHECK_HASH_BYTES) && Uniform(theirs, CHECK_HASH_BYTES)
  {
    && (forall i | 0 <= i < n && !flags[i] :: mine[i] == theirs[i])
    && (forall i, j | 0 <= i < n && 0 <= j < n && flags[i] && flags[j] ::
          Xor(mine[i], theirs[i]) == Xor(mine[j], theirs[j]))
  }

  ghost predicate HhashConsistent(flags: seq<bool>, mine: seq<Bytes>, theirs: seq<Bytes>)
    requires |flags| == |mine| == |theirs|
    requires Uniform(mine, CHECK_HASH_BYTES) && Uniform(theirs, CHECK_HASH_BYTES)
  {
    ConsistentUpTo(flags, mine, theirs, |flags|)
  }

  /** Extending the prefix by one row: a flagged row must show the
      difference of the first flagged row, if there is one. */
  lemma ConsistentStep(flags: seq<bool>, mine: seq<Bytes>, theirs: seq<Bytes>, i: nat, seen: bool, first: nat)
    requires i < |flags| == |mine| == |theirs|
    requires Uniform(mine, CHECK_HASH_BYTES) && Uniform(theirs, CHECK_HASH_BYTES)
    requires seen ==> first < i && flags[first]
    requires !seen ==> forall j | 0 <= j < i :: !flags[j]
    ensures ConsistentUpTo(flags, mine, theirs, i + 1) <==>
      && ConsistentUpTo(flags, mine, theirs, i)
      && if flags[i] then !seen || Xor(mine[i], theirs[i]) == Xor(mine[first], theirs[first])
         else mine[i] == theirs[i]
  {
  }

  /** The loop shared by both versions of `senderExtensionBoxValidate_hhash`:
      row i is judged as flagged when flags[i] holds. The source hashes row
      i and judges it in the same iteration; here every row is hashed
      first, with the receiver's loop, and the hashes are judged in order. */
  method CheckHashes(flags: seq<bool>, hashmat: Bytes, box: Bytes, rowBytes: nat, theirs: seq<Bytes>)
      returns (res: bool)
    requires |flags| * rowBytes <= |box| && CHECK_HASH_BITS * rowBytes <= |hashmat|
    requires |theirs| == |flags| && Uniform(theirs, CHECK_HASH_BYTES)
    ensures res <==> HhashConsistent(flags, RowHashes(hashmat, box, rowBytes, |flags|), theirs)
  {
    var mine := HashRows(hashmat, box, rowBytes, |flags|);
    res := JudgeRows(flags, mine, theirs);
  }

  /** The judging half of that loop, over the sender's hashes `mine`. */
  method JudgeRows(flags: seq<bool>, mine: seq<Bytes>, theirs: seq<Bytes>) returns (res: bool)
    requires |flags| == |mine| == |theirs|
    requires Uniform(mine, CHECK_HASH_BYTES) && Uniform(theirs, CHECK_HASH_BYTES)
    ensures res <==> HhashConsistent(flags, mine, theirs)
  {
    var hashxor: Bytes := [];
    var xorseen := false;
    ghost var first: nat := 0;
    res := true;
    var i := 0;
    while i < |flags|
      invariant 0 <= i <= |flags|
      invariant xorseen ==> first < i && flags[first] && hashxor == Xor(mine[first], theirs[first])
      invariant !xorseen ==> forall j | 0 <= j < i :: !flags[j]
      invariant res <==> ConsistentUpTo(flags, mine, theirs, i)
    {
      ConsistentStep(flags, mine, theirs, i, xorseen, first);
      if flags[i] && !xorseen {
        first := i;
      }
      var bad;
      bad, xorseen, hashxor := JudgeRow(flags[i], mine[i], theirs[i], xorseen, hashxor);
      if bad {
        res := false;
      }
      i := i + 1;
    }
  }

  /** One row of the check: a flagged row's difference `h` XOR `their` is
      compared with the first one seen, or becomes it; an unflagged row's
      hash must equal `their`. */
  method JudgeRow(flag: bool, h: Bytes, their: Bytes, xorseen: bool, hashxor: Bytes)
      returns (bad: bool, seen: bool, diff: Bytes)
    requires |h| == |their|
    ensures flag ==> seen && (bad <==> xorseen && hashxor != Xor(h, their))
    ensures flag ==> diff == if xorseen then hashxor else Xor(h, their)
    ensures !flag ==> seen == xorseen && diff == hashxor && (bad <==> h != their)
  {
    bad, seen, diff := false, xorseen, hashxor;
    if flag {
      var cur := Xor(h, their);
      if xorseen && hashxor != cur {
        bad := true;
      } else {
        diff := cur;
        seen := true;
      }
    } else if their != h {
      bad := true;
    }
  }

  /** One `bitmatMul` call of the validators: the hash of row i. */
  method HashRow(hashcur: array<Byte>, hashmat: Bytes, box: Bytes, rowBytes: nat, k: nat, i: nat) returns (h: Bytes)
    requires hashcur.Length == CHECK_HASH_BYTES && k * rowBytes <= |box| && i < k
    requires CHECK_HASH_BITS * rowBytes <= |hashmat|
    modifies hashcur
    ensures h == RowHashAt(hashmat, box, rowBytes, k, i)
  {
    BlockBound(k, rowBytes, i);
    var row := box[i * rowBytes .. i * rowBytes + rowBytes];
    assert (8 * rowBytes) / 8 == rowBytes && CHECK_HASH_BITS / 8 == CHECK_HASH_BYTES;
    BitmatMul(hashcur, hashmat, row, CHECK_HASH_BITS, 8 * rowBytes);
    h := hashcur[..];
    assert h == hashcur[..CHECK_HASH_BITS / 8];
    assert row == Block(box, rowBytes, i);
  }

  /** `senderExtensionBoxValidate_hhash`, with row i judged by S[i]:
      rejects when the coin toss failed, and otherwise accepts exactly
      when the receiver's hashes `theirs` are consistent with its own. */
  method SenderHhash(s: SenderExtensionBox, hashmat: Option<Bytes>, box: Bytes, rowBytes: nat, theirs: seq<Bytes>)
      returns (res: bool)
    requires s.Valid() && 8 * s.keyBytes * rowBytes <= |box|
    requires hashmat.Some? ==> CHECK_HASH_BITS * rowBytes <= |hashmat.value|
    requires |theirs| == 8 * s.keyBytes && Uniform(theirs, CHECK_HASH_BYTES)
    ensures res <==> hashmat.Some? && HhashConsistent(s.S, RowHashes(hashmat.value, box, rowBytes, |s.S|), theirs)
  {
    if hashmat.None? {
      return false;
    }
    res := CheckHashes(s.S, hashmat.value, box, rowBytes, theirs);
  }

  /** The flags the source's check uses: S[0] for every row. */
  function FirstBitFlags(S: seq<bool>): (r: seq<bool>)
    ensures |r| == |S| && forall i | 0 <= i < |S| :: r[i] == S[0]
  {
    seq(|S|, i requires 0 <= i < |S| => S[0])
  }

  /** When every choice bit equals the first, judging by S[0] is judging
      by S[i]. */
  lemma FirstBitFlagsUniform(S: seq<bool>)
    requires forall t | 0 <= t < |S| :: S[t] == S[0]
    ensures FirstBitFlags(S) == S
  {
  }

  /** `senderExtensionBoxValidate_hhash` as written: every row is judged by
      S[0] instead of S[i]. */
  method SenderHhashAsWritten(s: SenderExtensionBox, hashmat: Option<Bytes>, box: Bytes, rowBytes: nat,
                              theirs: seq<Bytes>) returns (res: bool)
    requires s.Valid() && 8 * s.keyBytes * rowBytes <= |box|
    requires hashmat.Some? ==> CHECK_HASH_BITS * rowBytes <= |hashmat.value|
    requires |theirs| == 8 * s.keyBytes && Uniform(theirs, CHECK_HASH_BYTES)
    ensures res <==> (hashmat.Some? &&
      HhashConsistent(FirstBitFlags(s.S), RowHashes(hashmat.value, box, rowBytes, |s.S|), theirs))
  {
    if hashmat.None? {
      return false;
    }
    res := CheckHashes(FirstBitFlags(s.S), hashmat.value, box, rowBytes, theirs);
  }

  /** `recverExtensionBoxValidate_hhash`: fails only when the coin toss
      failed, and otherwise sends the hash of every row of its box. */
  method RecverHhash(r: RecverExtensionBox, hashmat: Option<Bytes>, box: Bytes, rowBytes: nat)
      returns (ok: bool, sent: seq<Bytes>)
    requires r.Valid() && 8 * r.keyBytes * rowBytes <= |box|
    requires hashmat.Some? ==> CHECK_HASH_BITS * rowBytes <= |hashmat.value|
    ensures ok <==> hashmat.Some?
    ensures ok ==> sent == RowHashes(hashmat.value, box, rowBytes, 8 * r.keyBytes)
    ensures !ok ==> sent == []
  {
    if hashmat.None? {
      return false, [];
    }
    ok := true;
    sent := HashRows(hashmat.value, box, rowBytes, 8 * r.keyBytes);
  }

  /** The loop of `recverExtensionBoxValidate_hhash`. */
  method HashRows(hashmat: Bytes, box: Bytes, rowBytes: nat, k: nat) returns (sent: seq<Bytes>)
    requires k * rowBytes <= |box| && CHECK_HASH_BITS * rowBytes <= |hashmat|
    ensures sent == RowHashes(hashmat, box, rowBytes, k)
  {
    var hashcur := new Byte[CHECK_HASH_BYTES];
    sent := [];
    var i := 0;
    while i < k
      invariant 0 <= i <= k
      invariant sent == RowHashes(hashmat, box, rowBytes, k)[..i]
    {
      var h := HashRow(hashcur, hashmat, box, rowBytes, k, i);
      sent := sent + [h];
      i := i + 1;
    }
  }

  /** The hash of an all-zero row is zero. */
  lemma HashOfZeros(hashmat: Bytes, n: nat)
    ensures RowHash(hashmat, Zeros(n)) == Zeros(CHECK_HASH_BYTES)
  {
    var z := Zeros(n);
    MatMulXor(hashmat, z, z, CHECK_HASH_BITS, 8 * n);
    XorSelf(z);
    XorSelf(RowHash(hashmat, z));
  }

  lemma XorZerosEqual(a: Bytes, b: Bytes)
    requires |a| == |b| && Xor(a, b) == Zeros(|a|)
    ensures a == b
  {
    forall i | 0 <= i < |a|
      ensures a[i] == b[i]
    {
      assert Xor(a, b)[i] == 0;
    }
  }

  /** With correlated boxes, the hash of sender row i XOR that of receiver
      row i is H(mask) where S[i] holds and zero elsewhere. */
  lemma HashDiff(hashmat: Bytes, srows: seq<Bytes>, rrows: seq<Bytes>, S: seq<bool>, mask: Bytes, i: nat)
    requires BoxesCorrelated(srows, rrows, S, mask) && i < |S|
    ensures |Flatten(srows)| == |Flatten(rrows)| == |S| * |mask|
    ensures Xor(RowHashes(hashmat, Flatten(srows), |mask|, |S|)[i], RowHashes(hashmat, Flatten(rrows), |mask|, |S|)[i])
         == if S[i] then RowHash(hashmat, mask) else Zeros(CHECK_HASH_BYTES)
  {
    var n, k := |mask|, |S|;
    var sbox, rbox := Flatten(srows), Flatten(rrows);
    FlattenBlock(srows, n, i);
    FlattenBlock(rrows, n, i);
    assert Block(sbox, n, i) == srows[i] && Block(rbox, n, i) == rrows[i];
    assert RowHashes(hashmat, sbox, n, k)[i] == RowHash(hashmat, srows[i]);
    assert RowHashes(hashmat, rbox, n, k)[i] == RowHash(hashmat, rrows[i]);
    MatMulXor(hashmat, srows[i], rrows[i], CHECK_HASH_BITS, 8 * n);
    HashOfZeros(hashmat, n);
  }

  /** Honest boxes pass the check that judges row i by S[i]. */
  lemma HhashComplete(hashmat: Bytes, srows: seq<Bytes>, rrows: seq<Bytes>, S: seq<bool>, mask: Bytes)
    requires BoxesCorrelated(srows, rrows, S, mask)
    ensures |Flatten(srows)| == |Flatten(rrows)| == |S| * |mask|
    ensures HhashConsistent(S, RowHashes(hashmat, Flatten(srows), |mask|, |S|),
                               RowHashes(hashmat, Flatten(rrows), |mask|, |S|))
  {
    FlattenLength(srows, |mask|);
    FlattenLength(rrows, |mask|);
    var mine := RowHashes(hashmat, Flatten(srows), |mask|, |S|);
    var theirs := RowHashes(hashmat, Flatten(rrows), |mask|, |S|);
    forall i | 0 <= i < |S|
      ensures Xor(mine[i], theirs[i]) == if S[i] then RowHash(hashmat, mask) else Zeros(CHECK_HASH_BYTES)
      ensures !S[i] ==> mine[i] == theirs[i]
    {
      HashDiff(hashmat, srows, rrows, S, mask, i);
      if !S[i] {
        XorZerosEqual(mine[i], theirs[i]);
      }
    }
  }

  /** The check as written rejects honest boxes as soon as S mixes both
      bits and the mask does not hash to zero. */
  lemma HhashAsWrittenRejectsHonest(hashmat: Bytes, srows: seq<Bytes>, rrows: seq<Bytes>, S: seq<bool>, mask: Bytes,
                                    i: nat, j: nat)
    requires BoxesCorrelated(srows, rrows, S, mask) && i < |S| && j < |S| && S[i] && !S[j]
    requires RowHash(hashmat, mask) != Zeros(CHECK_HASH_BYTES)
    ensures |Flatten(srows)| == |Flatten(rrows)| == |S| * |mask|
    ensures !HhashConsistent(FirstBitFlags(S), RowHashes(hashmat, Flatten(srows), |mask|, |S|),
                                               RowHashes(hashmat, Flatten(rrows), |mask|, |S|))
  {
    FlattenLength(srows, |mask|);
    FlattenLength(rrows, |mask|);
    var mine := RowHashes(hashmat, Flatten(srows), |mask|, |S|);
    var theirs := RowHashes(hashmat, Flatten(rrows), |mask|, |S|);
    HashDiff(hashmat, srows, rrows, S, mask, i);
    HashDiff(hashmat, srows, rrows, S, mask, j);
    if S[0] {
      assert Xor(mine[i], theirs[i]) != Xor(mine[j], theirs[j]);
    } else {
      if mine[i] == theirs[i] {
        XorSelf(mine[i]);
      }
      assert mine[i] != theirs[i];
    }
  }

  /** The check as written on honest boxes: it passes when every bit of S
      equals S[0], and fails when S mixes both bits and the mask does not
      hash to zero. */
  lemma HhashAsWrittenOnHonest(hashmat: Bytes, srows: seq<Bytes>, rrows: seq<Bytes>, S: seq<bool>, mask: Bytes,
                               i: nat, j: nat)
    requires BoxesCorrelated(srows, rrows, S, mask)
    ensures |Flatten(srows)| == |Flatten(rrows)| == |S| * |mask|
    ensures (forall t | 0 <= t < |S| :: S[t] == S[0]) ==>
      HhashConsistent(FirstBitFlags(S), RowHashes(hashmat, Flatten(srows), |mask|, |S|),
                                        RowHashes(hashmat, Flatten(rrows), |mask|, |S|))
    ensures i < |S| && j < |S| && S[i] && !S[j] && RowHash(hashmat, mask) != Zeros(CHECK_HASH_BYTES) ==>
      !HhashConsistent(FirstBitFlags(S), RowHashes(hashmat, Flatten(srows), |mask|, |S|),
                                         RowHashes(hashmat, Flatten(rrows), |mask|, |S|))
  {
    HhashComplete(hashmat, srows, rrows, S, mask);
    if forall t | 0 <= t < |S| :: S[t] == S[0] {
      FirstBitFlagsUniform(S);
    }
    if i < |S| && j < |S| && S[i] && !S[j] && RowHash(hashmat, mask) != Zeros(CHECK_HASH_BYTES) {
      HhashAsWrittenRejectsHonest(hashmat, srows, rrows, S, mask, i, j);
    }
  }

  // ---------------------------------------------------------------------
  // _byPair

  /** `perm` lists each of 0 .. k-1 exactly once. */
  ghost predicate IsPermutation(perm: seq<nat>, k: nat)
  {
    && |perm| == k
    && (forall i | 0 <= i < k :: perm[i] < k)
    && (forall i, j | 0 <= i < j < k :: perm[i] != perm[j])
  }

  /** The rows both ends keep: the first row of every pair. */
  function EvenPositions(perm: seq<nat>): (r: seq<int>)
    ensures |r| == |perm| / 2
  {
    seq(|perm| / 2, j requires 0 <= j < |perm| / 2 => perm[2 * j])
  }

  /** The flag the sender sends for pair j: whether S differs on its rows. */
  function PairFlags(S: seq<bool>, perm: seq<nat>): (r: seq<bool>)
    requires forall i | 0 <= i < |perm| :: perm[i] < |S|
    ensures |r| == |perm| / 2
  {
    seq(|perm| / 2, j requires 0 <= j < |perm| / 2 => S[perm[2 * j]] != S[perm[2 * j + 1]])
  }

  /** Row a XOR row b of a box of k rows. */
  function RowPairXor(box: Bytes, rowBytes: nat, k: nat, a: nat, b: nat): (r: Bytes)
    requires k * rowBytes <= |box| && a < k && b < k
    ensures |r| == rowBytes
  {
    BlockBound(k, rowBytes, a);
    BlockBound(k, rowBytes, b);
    Xor(Block(box, rowBytes, a), Block(box, rowBytes, b))
  }

  /** For every pair, row a XOR row b: what the sender expects. */
  function PairXors(box: Bytes, rowBytes: nat, k: nat, perm: seq<nat>): (r: seq<Bytes>)
    requires k * rowBytes <= |box| && forall i | 0 <= i < |perm| :: perm[i] < k
    ensures |r| == |perm| / 2
  {
    seq(|perm| / 2, j requires 0 <= j < |perm| / 2 => RowPairXor(box, rowBytes, k, perm[2 * j], perm[2 * j + 1]))
  }

  /** The receiver's answer for a pair: row a XOR row b, XOR `mask` when
      the sender's flag is set. */
  function PairReply(box: Bytes, rowBytes: nat, k: nat, a: nat, b: nat, sx: bool, mask: Bytes): (r: Bytes)
    requires k * rowBytes <= |box| && a < k && b < k && |mask| == rowBytes
    ensures |r| == rowBytes
  {
    if sx then Xor(RowPairXor(box, rowBytes, k, a, b), mask) else RowPairXor(box, rowBytes, k, a, b)
  }

  function PairReplies(box: Bytes, rowBytes: nat, k: nat, perm: seq<nat>, sxs: seq<bool>, mask: Bytes): (r: seq<Bytes>)
    requires k * rowBytes <= |box| && |mask| == rowBytes && |sxs| == |perm| / 2
    requires forall i | 0 <= i < |perm| :: perm[i] < k
    ensures |r| == |perm| / 2
  {
    seq(|perm| / 2, j requires 0 <= j < |perm| / 2 =>
      PairReply(box, rowBytes, k, perm[2 * j], perm[2 * j + 1], sxs[j], mask))
  }

  /** `senderExtensionBoxValidate_byPair`, given the permutation the random
      generator drew and the receiver's answers: keeps the first row of
      every pair, sends the pair flags, and accepts exactly when every
      answer equals its own row a XOR row b. */
  method SenderByPair(s: SenderExtensionBox, perm: seq<nat>, rowsRemaining: array<int>, box: Bytes, rowBytes: nat,
                      replies: seq<Bytes>) returns (res: bool, sxs: seq<bool>)
    requires s.Valid() && IsPermutation(perm, 8 * s.keyBytes) && 8 * s.keyBytes * rowBytes <= |box|
    requires 4 * s.keyBytes <= rowsRemaining.Length && |replies| == 4 * s.keyBytes && Uniform(replies, rowBytes)
    modifies rowsRemaining
    ensures rowsRemaining[..4 * s.keyBytes] == EvenPositions(perm)
    ensures rowsRemaining[4 * s.keyBytes..] == old(rowsRemaining[4 * s.keyBytes..])
    ensures sxs == PairFlags(s.S, perm)
    ensures res <==> replies == PairXors(box, rowBytes, 8 * s.keyBytes, perm)
  {
    res, sxs := SenderPairs(s.S, perm, rowsRemaining, box, rowBytes, replies);
  }

  /** The loop of `senderExtensionBoxValidate_byPair`. */
  method SenderPairs(S: seq<bool>, perm: seq<nat>, rowsRemaining: array<int>, box: Bytes, rowBytes: nat,
                     replies: seq<Bytes>) returns (res: bool, sxs: seq<bool>)
    requires |perm| == |S| && |S| % 2 == 0 && forall i | 0 <= i < |perm| :: perm[i] < |S|
    requires |S| * rowBytes <= |box| && |S| / 2 <= rowsRemaining.Length
    requires |replies| == |S| / 2 && Uniform(replies, rowBytes)
    modifies rowsRemaining
    ensures rowsRemaining[..|S| / 2] == EvenPositions(perm)
    ensures rowsRemaining[|S| / 2..] == old(rowsRemaining[|S| / 2..])
    ensures sxs == PairFlags(S, perm)
    ensures res <==> replies == PairXors(box, rowBytes, |S|, perm)
  {
    var k := |S|;
    ghost var want := PairXors(box, rowBytes, k, perm);
    res, sxs := true, [];
    // pair p is perm[2p], perm[2p + 1]: the source's index i is 2p
    var p := 0;
    while p < k / 2
      invariant 0 <= p <= k / 2
      invariant sxs == PairFlags(S, perm)[..p]
      invariant forall j | 0 <= j < p :: rowsRemaining[j] == perm[2 * j]
      invariant forall j | p <= j < rowsRemaining.Length :: rowsRemaining[j] == old(rowsRemaining[j])
      invariant res <==> forall j | 0 <= j < p :: replies[j] == want[j]
    {
      var a, b := perm[2 * p], perm[2 * p + 1];
      rowsRemaining[p] := a;
      var sx := S[a] != S[b];
      sxs := sxs + [sx];
      var rowxme := RowPairXor(box, rowBytes, k, a, b);
      if rowxme != replies[p] {
        res := false;
      }
      p := p + 1;
    }
    assert rowsRemaining[..k / 2] == EvenPositions(perm);
    assert res <==> replies == want;
  }

  /** The first loop of `recverExtensionBoxValidate_byPair`, with the range
      test on perm[i]: accepts exactly a permutation. */
  method CheckPerm(perm: seq<nat>, k: nat) returns (ok: bool)
    requires |perm| == k
    ensures ok <==> IsPermutation(perm, k)
  {
    var inperm := new bool[k](_ => false);
    var i := 0;
    while i < k
      invariant 0 <= i <= k
      invariant forall j | 0 <= j < i :: perm[j] < k
      invariant forall j, l | 0 <= j < l < i :: perm[j] != perm[l]
      invariant forall v | 0 <= v < k :: inperm[v] <==> exists j | 0 <= j < i :: perm[j] == v
    {
      if perm[i] >= k {
        return false;
      } else if inperm[perm[i]] {
        return false;
      }
      inperm[perm[i]] := true;
      i := i + 1;
    }
    return true;
  }

  /** The range test of that loop as written: it tests the loop index,
      not the entry perm[i]. */
  predicate RangeGuardAsWritten(i: int, k: int)
  {
    i < 0 || i >= k
  }

  /** The test as written never fires inside the loop, so an entry out of
      range, such as 5 in [0, 5] with k = 2, reaches `inperm[perm[i]]`. */
  lemma RangeGuardAsWrittenPasses(perm: seq<nat>, k: nat)
    requires |perm| == k
    ensures forall i | 0 <= i < k :: !RangeGuardAsWritten(i, k)
    ensures perm == [0, 5] ==> !IsPermutation(perm, k) && perm[1] >= k
  {
    if perm == [0, 5] {
      assert perm[1] == 5 && k == 2;
    }
  }

  /** `recverExtensionBoxValidate_byPair`, given the permutation and flags
      the sender sent: rejects anything but a permutation, and otherwise
      keeps the first row of every pair and answers every pair. */
  method RecverByPair(r: RecverExtensionBox, perm: seq<nat>, sxs: seq<bool>, rowsRemaining: array<int>,
                      box: Bytes, mask: Bytes, rowBytes: nat) returns (ok: bool, replies: seq<Bytes>)
    requires r.Valid() && |perm| == 8 * r.keyBytes && |sxs| == 4 * r.keyBytes && |mask| == rowBytes
    requires 8 * r.keyBytes * rowBytes <= |box| && 4 * r.keyBytes <= rowsRemaining.Length
    modifies rowsRemaining
    ensures ok <==> IsPermutation(perm, 8 * r.keyBytes)
    ensures ok ==> rowsRemaining[..4 * r.keyBytes] == EvenPositions(perm)
    ensures ok ==> rowsRemaining[4 * r.keyBytes..] == old(rowsRemaining[4 * r.keyBytes..])
    ensures ok ==> replies == PairReplies(box, rowBytes, 8 * r.keyBytes, perm, sxs, mask)
    ensures !ok ==> replies == [] && rowsRemaining[..] == old(rowsRemaining[..])
  {
    ok := CheckPerm(perm, 8 * r.keyBytes);
    if !ok {
      return false, [];
    }
    replies := RecverPairs(perm, sxs, rowsRemaining, box, mask, rowBytes, 8 * r.keyBytes);
  }

  /** The second loop of `recverExtensionBoxValidate_byPair`. */
  method RecverPairs(perm: seq<nat>, sxs: seq<bool>, rowsRemaining: array<int>, box: Bytes, mask: Bytes,
                     rowBytes: nat, k: nat) returns (replies: seq<Bytes>)
    requires |perm| == k && k % 2 == 0 && forall i | 0 <= i < k :: perm[i] < k
    requires |sxs| == k / 2 && |mask| == rowBytes && k * rowBytes <= |box| && k / 2 <= rowsRemaining.Length
    modifies rowsRemaining
    ensures rowsRemaining[..k / 2] == EvenPositions(perm)
    ensures rowsRemaining[k / 2..] == old(rowsRemaining[k / 2..])
    ensures replies == PairReplies(box, rowBytes, k, perm, sxs, mask)
  {
    replies := [];
    // pair p is perm[2p], perm[2p + 1]: the source's index i is 2p
    var p := 0;
    while p < k / 2
      invariant 0 <= p <= k / 2
      invariant replies == PairReplies(box, rowBytes, k, perm, sxs, mask)[..p]
      invariant forall j | 0 <= j < p :: rowsRemaining[j] == perm[2 * j]
      invariant forall j | p <= j < rowsRemaining.Length :: rowsRemaining[j] == old(rowsRemaining[j])
    {
      var a, b := perm[2 * p], perm[2 * p + 1];
      rowsRemaining[p] := a;
      var rowx := RowPairXor(box, rowBytes, k, a, b);
      if sxs[p] {
        rowx := Xor(rowx, mask);
      }
      replies := replies + [rowx];
      p := p + 1;
    }
    assert rowsRemaining[..k / 2] == EvenPositions(perm);
  }

  /** With correlated boxes, the honest receiver's answers to the sender's
      flags are exactly what the sender expects, so it accepts; this holds
      for any sequence of row indices, a permutation or not. */
  lemma ByPairComplete(srows: seq<Bytes>, rrows: seq<Bytes>, S: seq<bool>, mask: Bytes, perm: seq<nat>)
    requires BoxesCorrelated(srows, rrows, S, mask) && forall i | 0 <= i < |perm| :: perm[i] < |S|
    ensures |Flatten(srows)| == |Flatten(rrows)| == |S| * |mask|
    ensures PairReplies(Flatten(rrows), |mask|, |S|, perm, PairFlags(S, perm), mask)
         == PairXors(Flatten(srows), |mask|, |S|, perm)
  {
    FlattenLength(srows, |mask|);
    FlattenLength(rrows, |mask|);
    var got := PairReplies(Flatten(rrows), |mask|, |S|, perm, PairFlags(S, perm), mask);
    var want := PairXors(Flatten(srows), |mask|, |S|, perm);
    forall j | 0 <= j < |perm| / 2
      ensures got[j] == want[j]
    {
      PairAnsweredAt(srows, rrows, S, mask, perm, j);
    }
  }

  lemma PairAnsweredAt(srows: seq<Bytes>, rrows: seq<Bytes>, S: seq<bool>, mask: Bytes, perm: seq<nat>, j: nat)
    requires BoxesCorrelated(srows, rrows, S, mask) && j < |perm| / 2
    requires forall i | 0 <= i < |perm| :: perm[i] < |S|
    ensures |Flatten(srows)| == |Flatten(rrows)| == |S| * |mask|
    ensures PairReplies(Flatten(rrows), |mask|, |S|, perm, PairFlags(S, perm), mask)[j]
         == PairXors(Flatten(srows), |mask|, |S|, perm)[j]
  {
    var a, b := perm[2 * j], perm[2 * j + 1];
    PairAnswered(srows, rrows, S, mask, a, b);
    assert PairFlags(S, perm)[j] == (S[a] != S[b]);
  }

  /** One pair of `ByPairComplete`. */
  lemma PairAnswered(srows: seq<Bytes>, rrows: seq<Bytes>, S: seq<bool>, mask: Bytes, a: nat, b: nat)
    requires BoxesCorrelated(srows, rrows, S, mask) && a < |S| && b < |S|
    ensures |Flatten(srows)| == |Flatten(rrows)| == |S| * |mask|
    ensures PairReply(Flatten(rrows), |mask|, |S|, a, b, S[a] != S[b], mask)
         == RowPairXor(Flatten(srows), |mask|, |S|, a, b)
  {
    var n, k := |mask|, |S|;
    var sbox, rbox := Flatten(srows), Flatten(rrows);
    FlattenBlock(srows, n, a);
    FlattenBlock(srows, n, b);
    FlattenBlock(rrows, n, a);
    FlattenBlock(rrows, n, b);
    assert Block(sbox, n, a) == srows[a] && Block(sbox, n, b) == srows[b];
    assert Block(rbox, n, a) == rrows[a] && Block(rbox, n, b) == rrows[b];
    var da := if S[a] then mask else Zeros(n);
    var db := if S[b] then mask else Zeros(n);
    XorOfCorrelated(srows[a], srows[b], rrows[a], rrows[b], da, db);
    XorZeros(mask);
    XorSelf(mask);
    XorZeros(Xor(rrows[a], rrows[b]));
  }

  /** Two correlated pairs: (sa XOR sb) = (ra XOR rb) XOR (da XOR db)
      when sa XOR ra = da and sb XOR rb = db. */
  lemma XorOfCorrelated(sa: Bytes, sb: Bytes, ra: Bytes, rb: Bytes, da: Bytes, db: Bytes)
    requires |sa| == |sb| == |ra| == |rb| == |da| == |db|
    requires Xor(sa, ra) == da && Xor(sb, rb) == db
    ensures Xor(sa, sb) == Xor(Xor(ra, rb), Xor(da, db))
  {
    forall t | 0 <= t < |sa|
      ensures Xor(sa, sb)[t] == Xor(Xor(ra, rb), Xor(da, db))[t]
    {
      assert Xor(sa, ra)[t] == da[t] && Xor(sb, rb)[t] == db[t];
    }
  }
}
