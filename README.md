# Oblivious transfer in Obliv-C: a Dafny model

This project models the combinatorial and bit-level core of the
oblivious-transfer (OT) stack of Obliv-C, `src/ext/oblivc/ot.c`. It covers
four parts.

- **Digit and bit utilities.**
  - `logceil` and `inBaseN` write a number in base b.
  - `xorBuffer` is byte-wise XOR.
  - `packBytes` and `unpackBytes` move between bools and bytes, least
    significant bit first.
  - `matrixXpose` and `matrixXposeAndFilter` transpose bit matrices.
  - `bitmatMul` multiplies a bit matrix by a vector over GF(2).
- **Base-OT combinators** over an ideal Naor-Pinkas 1-out-of-n transfer.
  The ideal transfer hands the receiver `arr[seli]` and bumps the session
  counter `R`. The combinators are `npotSendMany`/`npotRecvMany` (XOR of
  digit keys), `npotSendLong`/`npotRecvLong` (a seed and its stream),
  `npotSend1Of2Once`/`npotRecv1Of2Once` (a table of 2^n combinations) and
  `npotSend1Of2`/`npotRecv1Of2` (batches).
- **The IKNP extension box**: `New`, `Xpose`, `SendMsg(s)` and
  `RecvMsg(s)` on both sides. On top of them sit the honest wrappers with
  their nonce counter and the checked wrappers with their `error` flag.
- **The two consistency validators**: `_hhash`, a row hash that is
  XOR-homomorphic where `char` is unsigned, and `_byPair`, which pairs up
  rows after a random permutation.

Primitives are abstract parameters:

- the elliptic-curve base OT is ideal;
- the block-cipher generator is a tape `nat -> byte`;
- the keyed stream is `prg(seed, pos, len)`;
- `bcipherCryptNoResize` is XOR with `pad(key, nonce, len)`.

Messages between the parties are explicit values. Lemmas compose the
sender and the receiver directly, with no transport.

The modules are:

- `Bytes` (`bytes.dfy`): byte strings, XOR, flattening, bit access.
- `Digits` (`digits.dfy`): `logceil`, `inBaseN`.
- `Packing` (`packing.dfy`): `packBytes`, `unpackBytes`.
- `BitMatrix` (`bitmatrix.dfy`): transposition and `bitmatMul`.
- `NpotSpec` (`npot_spec.dfy`): the messages and results of the base-OT
  combinators, and their correctness lemmas.
- `Npot` (`npot.dfy`): the classes `NpotSender` and `NpotRecver`, with
  the session counter `R`.
- `ExtBox` (`extbox.dfy`): the extension boxes, the correlation invariant
  and delivery.
- `Validate` (`validate.dfy`): `_hhash` and `_byPair`.
- `OTExt` (`otext.dfy`): the honest and checked wrappers.

Conventions:

- Bit i of a byte buffer is bit i % 8 of byte i / 8. This is the order
  `packBytes` uses, and it is assumed for `getBit`/`setBit`.
- `BC_SEEDLEN_DEFAULT` (`OT_SEEDLEN`) is taken to be 16 bytes.
- The batch size of the base OT is a parameter. `BATCH_SIZE` is 5.

## Model

| member | source | states |
|---|---|---|
| Bytes.XorBuffer | src/ext/oblivc/ot.c:138-141 | the first len bytes of dest become x XOR y; the rest of dest is unchanged |
| Bytes.XorCancel | src/ext/oblivc/ot.c:138-141 | XOR with the same buffer twice gives back the original |
| Bytes.XorAssoc | src/ext/oblivc/ot.c:138-141 | XOR of buffers is associative |
| Digits.LogCeil | src/ext/oblivc/ot.c:401-406 | returns LogCeilOf(x, b), the least d with x <= b^d |
| Digits.LogCeilLeast | src/ext/oblivc/ot.c:401-406 | x <= b^LogCeilOf(x, b), and b^(LogCeilOf(x, b) - 1) < x unless it is 0 |
| Digits.LogCeilSuffices | src/ext/oblivc/ot.c:401-423 | LogCeilOf(n, b) digits suffice for every x < n |
| Digits.InBaseN | src/ext/oblivc/ot.c:412-423 | false exactly when x needs more than dlen base-b digits; on true, dest[..dlen] holds x's digits, least significant first, padded with zeros |
| Digits.NumDigitsFit | src/ext/oblivc/ot.c:412-423 | x has at most d base-b digits iff x < b^d |
| Digits.DigitsValue | src/ext/oblivc/ot.c:412-423 | the digits written for x add up, with weights b^i, to x |
| Digits.DigitsInRange | src/ext/oblivc/ot.c:412-423 | every digit lies in [0, b) |
| Digits.DigitsAboveTop | src/ext/oblivc/ot.c:412-423 | positions above the top digit are 0 |
| Digits.DigitsFacts | src/ext/oblivc/ot.c:412-423 | on success, the digits are in range, sum to x and are 0 above the top digit |
| Packing.UnpackBytes | src/ext/oblivc/ot.c:603-611 | dest[..bits] becomes Unpacked(src, bits), with bool 8i+j equal to bit j of byte i; the rest is unchanged |
| Packing.PackBytes | src/ext/oblivc/ot.c:613-621 | dest[..ByteCount(bits)] becomes Packed(src, bits); the rest is unchanged |
| Packing.PackedBits | src/ext/oblivc/ot.c:613-621 | bit i of the packed bytes is src[i] below bits, and 0 in the unused high bits of the last byte |
| Packing.UnpackPack | src/ext/oblivc/ot.c:603-621 | unpacking what was packed gives back the first bits bools |
| Packing.PackUnpack | src/ext/oblivc/ot.c:603-621 | packing what was unpacked gives back the bytes |
| Packing.PackUnpackBits | src/ext/oblivc/ot.c:603-621 | for any bits, packing the first bits unpacked bits gives back bit i of the buffer below bits, and 0 in the unused high bits of the last byte |
| Packing.PackedXor | src/ext/oblivc/ot.c:603-621 | packing the pointwise difference of two bool vectors is the XOR of their packings |
| BitMatrix.MatrixXpose | src/ext/oblivc/ot.c:757-763 | dest is the transpose of the rows x cols bit matrix src |
| BitMatrix.XposeTwice | src/ext/oblivc/ot.c:757-763 | transposing twice gives back the matrix |
| BitMatrix.MatrixXposeAndFilter | src/ext/oblivc/ot.c:770-779 | column r of dest is row rowsRemaining[r] of src |
| BitMatrix.FilterIsXposeOfSelected | src/ext/oblivc/ot.c:770-779 | the filtered transpose is the transpose of the selected rows |
| BitMatrix.BitmatMul | src/ext/oblivc/ot.c:794-805 | dest[..rows/8] becomes MatMul(mat, src, rows, cols), whose bit r is the GF(2) inner product of row r and src; the rest is unchanged |
| BitMatrix.RowFoldParity | src/ext/oblivc/ot.c:794-805 | the parity of the XOR of the masked row bytes is the inner product of the row and src |
| BitMatrix.MatMulXor | src/ext/oblivc/ot.c:794-805 | the product is linear: mat·(x XOR y) = mat·x XOR mat·y |
| BitMatrix.ParityOfXor | src/ext/oblivc/ot.c:800-802 | the parity of x XOR y is the XOR of the parities |
| BitMatrix.FoldStep | src/ext/oblivc/ot.c:800-802 | one fold step (ch&1)^(ch>>1) keeps the parity and shrinks ch above 1 |
| BitMatrix.FoldParity | src/ext/oblivc/ot.c:800-802 | the fold on an unsigned byte ends at 0 or 1, and at 1 exactly when the parity is odd |
| BitMatrix.FoldParitySigned | src/ext/oblivc/ot.c:800-802 | the fold on a signed char ends non-zero exactly when bit 7 is set or the parity is odd |
| BitMatrix.SignedFoldCounterexample | src/ext/oblivc/ot.c:800-802 | 0x81 has even parity and bit 7 set, so the signed fold gets it wrong |
| Npot.NpotSender.constructor | src/ext/oblivc/ot.c:193-223 | a new sender is in session 0; the elliptic-curve draws of construction are left out, so the key tape starts at 0 |
| Npot.NpotSender.Send | src/ext/oblivc/ot.c:245-282 | offers arr in the current session, and R advances by 1 |
| Npot.NpotRecver.constructor | src/ext/oblivc/ot.c:314-331 | a new receiver is in session 0 |
| Npot.NpotRecver.Recv | src/ext/oblivc/ot.c:361-382 | obtains slot seli of the offer, and R advances by 1 |
| Npot.NpotSender.SendMany | src/ext/oblivc/ot.c:428-454 | sends ManySent (one base transfer per digit position, entries padded with their digit keys); R and the random bytes drawn advance by the counts ManyRounds and ManyDrawn |
| Npot.NpotSender.SendRounds | src/ext/oblivc/ot.c:440-444 | round j offers the keys of digit position j, in session R + j |
| Npot.NpotSender.PadEntries | src/ext/oblivc/ot.c:445-452 | entry i is padded with the XOR of the keys its digits pick |
| Npot.NpotRecver.RecvMany | src/ext/oblivc/ot.c:457-475 | writes ManyOpened, the ciphertext of seli XOR the keys its digits pick; R advances by ManyRounds |
| NpotSpec.FoldKeysStep | src/ext/oblivc/ot.c:450 | folding one more digit XORs in the key it picks |
| NpotSpec.ManyCorrect | src/ext/oblivc/ot.c:428-475 | npotRecvMany after npotSendMany gives arr[seli] |
| Npot.NpotSender.SendLong | src/ext/oblivc/ot.c:478-507 | sends LongSent (seeds through npotSendMany, entries masked by the seed streams); R and the bytes drawn advance as stated |
| Npot.NpotRecver.RecvLong | src/ext/oblivc/ot.c:509-527 | writes LongOpened, the chosen ciphertext unmasked by the stream of the seed obtained |
| NpotSpec.LongCorrect | src/ext/oblivc/ot.c:478-527 | npotRecvLong after npotSendLong gives arr[seli] |
| NpotSpec.SeededCorrect | src/ext/oblivc/ot.c:489-523 | the same for entries longer than HASH_BYTES, through the stream of the chosen seed |
| Npot.NpotSender.Send1Of2Once | src/ext/oblivc/ot.c:530-548 | sends the long transfer of Table(opt0, opt1) over 2^n entries |
| Npot.NpotSender.TableRow | src/ext/oblivc/ot.c:539-544 | entry i holds option j from opt1 when bit j of i is set, else from opt0 |
| NpotSpec.TableEntryOfMask | src/ext/oblivc/ot.c:530-548 | the table entry at the mask of sel is the options sel picks |
| Npot.NpotRecver.Recv1Of2Once | src/ext/oblivc/ot.c:550-554 | writes LongOpened of the table message at index mask |
| NpotSpec.OnceCorrect | src/ext/oblivc/ot.c:530-554 | npotRecv1Of2Once after npotSend1Of2Once, with the mask of sel, gives opt1[j] where sel[j] holds and opt0[j] elsewhere |
| NpotSpec.MaskBits | src/ext/oblivc/ot.c:565-578 | bit j of the batch mask is the choice sel[j] |
| Npot.NpotRecver.ChoiceMask | src/ext/oblivc/ot.c:571 | the mask loop builds the mask of the batch's choice bits |
| NpotSpec.BatchesCover | src/ext/oblivc/ot.c:556-563 | the batches cover 0 .. n-1 in order: batch k starts at k*bs; all but the last have bs transfers, the last has 1 .. bs and ends at n |
| NpotSpec.BatchesStep | src/ext/oblivc/ot.c:559-562 | how the loop walks the batches: full batches while i + bs <= n, then one remainder batch if i < n |
| Npot.NpotSender.Send1Of2 | src/ext/oblivc/ot.c:556-563 | sends BatchSent, one table transfer per batch; R advances by the sessions of all batches |
| Npot.NpotRecver.Recv1Of2 | src/ext/oblivc/ot.c:565-578 | writes BatchOpened, the batches' results laid one after another |
| NpotSpec.OneOfTwoCorrect | src/ext/oblivc/ot.c:556-578 | npotRecv1Of2 after npotSend1Of2 with the same batch size gives, transfer by transfer, opt1[i] where sel[i] holds and opt0[i] elsewhere |
| NpotSpec.TableRounds | src/ext/oblivc/ot.c:530-548 | a table of 2^s entries needs at most s base transfers, so the LOGMAX bound holds for every batch |
| ExtBox.SenderExtensionBox.New | src/ext/oblivc/ot.c:644-665 | the new box has S = Unpacked(spack), position 0, and one generator key per row, received with S as the choices |
| ExtBox.RecverExtensionBox.New | src/ext/oblivc/ot.c:685-702 | the new box offers seeds0[i], seeds1[i] in the base transfers it sends (SetupSent); position 0 |
| ExtBox.SetupCorrelates | src/ext/oblivc/ot.c:644-702 | after the base transfers, the sender's key i is seeds1[i] where S[i] holds and seeds0[i] elsewhere |
| ExtBox.KeyGenerators | src/ext/oblivc/ot.c:661-662 | generator key i is block i of the received seeds |
| ExtBox.SenderExtensionBox.Xpose | src/ext/oblivc/ot.c:723-736 | box[..k*rowBytes] becomes the sender rows: stream i, XOR the received row i where S[i] holds; the rest of box is unchanged; pos advances by rowBytes |
| ExtBox.RecverExtensionBox.Xpose | src/ext/oblivc/ot.c:738-753 | box[..k*rowBytes] becomes the streams of seeds0; sends stream0 XOR stream1 XOR mask per row; the rest of box is unchanged; pos advances by rowBytes |
| ExtBox.FillSenderRows | src/ext/oblivc/ot.c:727-734 | row i is written exactly at bytes [i*rowBytes, (i+1)*rowBytes) |
| ExtBox.FillRecverRows | src/ext/oblivc/ot.c:742-751 | row i is written exactly at bytes [i*rowBytes, (i+1)*rowBytes), and the rows to send are computed |
| ExtBox.RowsCorrelated | src/ext/oblivc/ot.c:722-753 | with correlated keys, sender row i XOR receiver row i is mask where S[i] holds and zero elsewhere |
| ExtBox.ExtractColumn | src/ext/oblivc/ot.c:981-1017 | the key is column c of the box, packed |
| ExtBox.ColumnKeysCorrelated | src/ext/oblivc/ot.c:981-1017 | the receiver's column key is the sender's, XOR spack where bit c of mask is set |
| ExtBox.CryptTwice | src/ext/oblivc/ot.c:958-965 | the pad is an involution: encrypting twice with the same key and nonce gives back the message |
| ExtBox.SenderExtensionBox.SendMsg | src/ext/oblivc/ot.c:981-997 | ct0 is msg0 under the column key, ct1 is msg1 under the key XOR spack, and each decrypts back |
| ExtBox.RecverExtensionBox.RecvMsg | src/ext/oblivc/ot.c:1002-1017 | decrypts the ciphertext bit c of mask selects with the column key |
| ExtBox.SenderExtensionBox.SendMsgs | src/ext/oblivc/ot.c:1020-1027 | transfer i is sealed with column i and nonce nonce0 + i (Sealed) |
| ExtBox.RecverExtensionBox.RecvMsgs | src/ext/oblivc/ot.c:1029-1036 | transfer i is opened with column i and nonce nonce0 + i, the results laid end to end |
| ExtBox.Delivered | src/ext/oblivc/ot.c:981-1017 | with the receiver key equal to the sender's, XOR spack exactly when the choice bit is set, the receiver decrypts the chosen message |
| ExtBox.TransferCorrect | src/ext/oblivc/ot.c:1020-1036 | over boxes with correlated keys, opening what was sealed gives opt1[i] where bit i of mask is set and opt0[i] elsewhere |
| ExtBox.ExtensionCorrect | src/ext/oblivc/ot.c:1020-1036 | with correlated rows and sel packed into mask, the receiver obtains exactly the options sel picks |
| Validate.JudgeRows | src/ext/oblivc/ot.c:832-840 | accepts iff the hashes of unflagged rows match exactly and the XOR differences of flagged rows are all equal |
| Validate.ConsistentStep | src/ext/oblivc/ot.c:835-839 | one more row keeps consistency iff it matches, or, when flagged, repeats the first flagged difference |
| Validate.HashRows | src/ext/oblivc/ot.c:832-833 | hash i is the product of the hash matrix and row i |
| Validate.CheckHashes | src/ext/oblivc/ot.c:823-843 | accepts iff the rows' hashes are consistent with the hashes received |
| Validate.SenderHhash | src/ext/oblivc/ot.c:823-843 | false when the coin toss fails; otherwise accepts iff the hashes are consistent, flagged by S[i] |
| Validate.SenderHhashAsWritten | src/ext/oblivc/ot.c:823-843 | as written: every row flagged by S[0] |
| Validate.RecverHhash | src/ext/oblivc/ot.c:848-862 | false when the coin toss fails; otherwise sends the hash of every row |
| Validate.HashDiff | src/ext/oblivc/ot.c:823-862 | on correlated boxes, the hashes of row i differ by the hash of mask where S[i] holds and by nothing elsewhere |
| Validate.HhashComplete | src/ext/oblivc/ot.c:823-862 | honest boxes pass the check |
| Validate.HhashAsWrittenRejectsHonest | src/ext/oblivc/ot.c:835 | honest boxes with S mixed fail the as-written check whenever the hash of mask is non-zero |
| Validate.HhashAsWrittenOnHonest | src/ext/oblivc/ot.c:832-840 | on honest boxes the as-written check passes when every bit of S equals S[0], and fails when S is mixed and the hash of mask is non-zero |
| Validate.SenderByPair | src/ext/oblivc/ot.c:883-906 | keeps perm[2j] as row j, sends S[a] != S[b] for every pair, and accepts iff every reply is its own row a XOR row b |
| Validate.SenderPairs | src/ext/oblivc/ot.c:893-903 | the pair loop keeps the even positions, computes the flags and compares the replies |
| Validate.CheckPerm | src/ext/oblivc/ot.c:923-928 | accepts iff perm is a permutation of 0 .. k-1 (entries in range, none repeated) |
| Validate.RangeGuardAsWrittenPasses | src/ext/oblivc/ot.c:925 | as written, the range test never fires, and [0, 5] passes it though 5 is out of range |
| Validate.RecverByPair | src/ext/oblivc/ot.c:913-940 | false iff perm is not a permutation; otherwise keeps perm[2j] as row j and replies row a XOR row b, XOR mask when flagged |
| Validate.RecverPairs | src/ext/oblivc/ot.c:929-937 | the pair loop keeps the even positions and computes the replies |
| Validate.ByPairComplete | src/ext/oblivc/ot.c:883-940 | on correlated boxes, the honest replies equal the sender's own pair XORs |
| Validate.PairAnswered | src/ext/oblivc/ot.c:883-940 | for one pair: the reply to S[a] != S[b] is the sender's row a XOR row b |
| OTExt.NonceRange | src/ext/oblivc/ot.c:1105 | the nonces of n transfers from nonce are exactly nonce .. nonce+n-1 |
| OTExt.HonestOTExtSender.constructor | src/ext/oblivc/ot.c:1052-1057 | a new box and the nonce at 0 |
| OTExt.HonestOTExtRecver.New | src/ext/oblivc/ot.c:1065-1070 | a new box and the nonce at 0 |
| OTExt.HonestOTExtSender.Send1Of2 | src/ext/oblivc/ot.c:1098-1107 | seals with the sender rows of ByteCount(n) bytes; the nonce advances by n; the n new nonces were not used before |
| OTExt.HonestOTExtRecver.Recv1Of2 | src/ext/oblivc/ot.c:1108-1119 | packs sel into mask, sends the rows, opens with the receiver rows; the nonce advances by n; the n new nonces were not used before |
| OTExt.HonestTransferCorrect | src/ext/oblivc/ot.c:1098-1119 | base transfers, both Xpose calls and the n transfers compose: the receiver gets the options sel picks |
| OTExt.HonestHashesPass | src/ext/oblivc/ot.c:1153-1181 | after honest base transfers and Xpose calls, the corrected hash check (row i judged by S[i]) passes |
| OTExt.HonestHashesAsWritten | src/ext/oblivc/ot.c:1161 | after honest base transfers and Xpose calls, the as-written check passes when S is uniform and fails when S is mixed and the hash of mask is non-zero |
| OTExt.OTExtSender.constructor | src/ext/oblivc/ot.c:1130-1135 | an honest sender with 2 * OT_KEY_BYTES_HONEST key bytes, and no error |
| OTExt.OTExtRecver.New | src/ext/oblivc/ot.c:1141-1146 | an honest receiver with 2 * OT_KEY_BYTES_HONEST key bytes, and no error |
| OTExt.OTExtSender.Send1Of2 | src/ext/oblivc/ot.c:1153-1165 | nothing once an error is flagged; the error is flagged iff the check fails, and then nothing is sent and no nonce is used; otherwise seals as the honest sender does |
| OTExt.OTExtSender.Send1Of2AsWritten | src/ext/oblivc/ot.c:1153-1165 | as written: error becomes the success of the as-written check (every row judged by S[0]), and the transfers are sealed whatever it said |
| OTExt.OTExtRecver.Recv1Of2 | src/ext/oblivc/ot.c:1167-1181 | nothing once an error is flagged; the error is flagged iff the coin toss fails, and then nothing is opened; otherwise opens as the honest receiver does |
| OTExt.OTExtRecver.Recv1Of2AsWritten | src/ext/oblivc/ot.c:1167-1181 | as written: error becomes the check's success, and the transfers are opened whatever it said |

## Left out

- Elliptic-curve arithmetic, key serialisation and the Naor-Pinkas rounds
  (ot.c:32-116, 227-267, 338-374) are foreign calls into libgcrypt. The
  base 1-out-of-n transfer is an ideal functionality: the sender's offer
  carries its session and entries, and the receiver reads its chosen slot.
  Both counters advance by one.
- The two network rounds of each base transfer are merged into one
  message.
- SHA-256 in `oneTimePad` (ot.c:146-158) and the AES-based
  `BCipherRandomGen` are left out. The model uses an abstract tape, stream
  and pad.
- `osend`/`orecv`, `ocRandomBytes` and `gcry_randomize` are left out.
  Messages are values, and the coin-tossed hash matrix is an
  `Option<Bytes>` parameter (`None` when the toss fails). The permutation
  from `bcRandomPermutation` and the secret bits `spack` are parameters.
- `pthread_once` initialisation, `dhRandomFinalize`, and every
  `malloc`/`free` and release function are left out: they concern
  concurrency and memory lifetime.
- The `#if 0` block (ot.c:1182-1585) is dead code, and the
  `OTsender`/`OTrecver` capability wrappers (ot.c:580-595) only forward
  calls. The batch size `NPOT_BATCH_SIZE` they pass is not part of this
  model; the batch size is a parameter.
- mitccrh.c/mitccrh.h and the test programs are not part of this model.
- The 2^-k security bounds of the validators are probabilistic claims
  and are not stated.
- The memory-only defects have no behaviour the model can carry, so the
  model uses the intended buffers:
  - `S` is allocated with k/8 bools but k are written (ot.c:651);
  - `keyblock0`/`keyblock1` are never allocated (ot.c:698-699);
  - `otExtSenderNew`/`otExtRecverNew` have no `return` (ot.c:1130-1146);
  - `memset` runs past `keyx` (ot.c:989, 1011).
- The hash matrix is allocated with `rowBytes*k` bytes (ot.c:827, 852) but
  only its first `rowBytes` bytes are filled with random bytes (ot.c:830,
  854), while 80 rows of `rowBytes` bytes are read (ot.c:833, 857). The
  read stays inside the allocation, as k is at least 80, but all rows
  after the first are uninitialised memory. The model reads a fully agreed matrix.
- Validate.RowHash: every `_hhash` member hashes with the unsigned fold
  of `BitMatrix.FoldParity`. This holds for the corrected validators and
  for the ones marked as written (`SenderHhashAsWritten`,
  `HhashAsWrittenOnHonest`, `HonestHashesAsWritten`,
  `OTExtSender.Send1Of2AsWritten`), so each row under "## Findings"
  isolates one defect. Where `char` is signed (ot.c:798-803), the source's
  row hash is "bit 7 set or odd parity", which is not XOR-linear: with
  one-byte rows, a hash row 0xFF and mask 0x80, receiver rows 0x00 and
  0x01 give hash differences 1 and 0, so honest boxes with two set bits
  of S fail even the per-row check. `HhashComplete`, `HonestHashesPass`
  and `HonestHashesAsWritten` therefore describe the source only where
  `char` is unsigned.
- Validate.CheckHashes: hashes all rows, then judges them. The source
  interleaves hashing, receiving and judging row by row; the verdict is
  the same.
- The last batch of `npotRecv1Of2` tests `sel[i+j]==1` where full batches
  test `!=0` (ot.c:571, 575). Both agree on genuine bools, so the model
  has one mask function.
- `mask << j` is assumed not to overflow `unsigned`. Batches have fewer
  than 32 transfers.
- Integer widths are not modelled:
  - nonces are unbounded, where C's `int` would wrap;
  - the `char` entries of `rowsRemaining` in `matrixXposeAndFilter` are
    naturals.
- `_byPair` receives the rows as `const char* box[]` but indexes them as
  one flat buffer. The model uses the flat buffer.
- Each extension box keeps one position `pos` for all its generators, as
  every call advances all of them by the same amount.
- ExtBox.SenderExtensionBox.SendMsg: the assertion `k/8 <= sizeof keyx`
  (ot.c:988) is not modelled. The column key is built in a buffer of the
  padder's key length `cipher->klen`, zero-padded and passed to
  `bcipherCryptNoResize` (ot.c:987-994); the model folds that padding into
  the abstract pad and accepts keys of any length. It thus assumes the
  padder's key length is at least `keyBytes`: 10 for the honest wrappers
  (ot.c:1061, 1074) and 20 for the checked ones (ot.c:1132, 1143). If that length is the
  16-byte default assumed above, the assertion fails on the first call of
  the checked sender, which the model does not show.
- ExtBox.RecverExtensionBox.RecvMsg: the same assertion (ot.c:1010) and
  key padding (ot.c:1009-1015) are not modelled, under the same
  assumption on the padder's key length.

## Findings

| source | as written | input that shows it | evidently intended | confidence | as-written member | corrected member |
|---|---|---|---|---|---|---|
| src/ext/oblivc/ot.c:800-802 | where `char` is signed, a byte with bit 7 set is negative, so `while(ch>1)` never runs and `setBit` stores a 1 whatever the parity | a row byte 0x81 (even parity): the result is non-zero | fold the byte as unsigned, ending at the parity | not executed | BitMatrix.FoldParitySigned, BitMatrix.SignedFoldCounterexample | BitMatrix.FoldParity |
| src/ext/oblivc/ot.c:835 | the hhash check tests `S[0]` for every row | honest boxes with S[i] set and S[j] clear, and a non-zero hash of mask, are rejected | flag row i by `S[i]` | not executed | Validate.SenderHhashAsWritten, Validate.HhashAsWrittenRejectsHonest | Validate.SenderHhash, Validate.HhashComplete |
| src/ext/oblivc/ot.c:925 | the range test checks the loop index `i` against k instead of `perm[i]` | perm = [0, 5] with k = 2 passes the test | test `perm[i] >= k` | not executed | Validate.RangeGuardAsWrittenPasses | Validate.CheckPerm |
| src/ext/oblivc/ot.c:1161, 1176 | `error` is assigned the validator's success, and the messages go out regardless | an honest first call with a successful coin toss: the receiver's check succeeds, so its `error` becomes true and every later receive does nothing; with S mixed and a mask that does not hash to zero the sender's check fails, so the sender goes on sending and the two ends fall out of step | set `error` on failure and send nothing then | not executed | OTExt.OTExtSender.Send1Of2AsWritten, OTExt.OTExtRecver.Recv1Of2AsWritten, OTExt.HonestHashesAsWritten | OTExt.OTExtSender.Send1Of2, OTExt.OTExtRecver.Recv1Of2 |
