# bincode2proof receipt commitments, modelled in Dafny

This project models the core of `bincode2proof/src/lib.rs`. That file contains a copy of the
risc0 zkVM receipt types together with the structural hashing scheme that commits to them, and it
flattens a Groth16 receipt into the seal bytes an on-chain verifier expects. The model covers:

- **Exit codes.** The `ExitCode` sum type and its `(system, user)` pair codec (`exit_code.dfy`).
- **Digests.** Eight 32-bit words with a 32-byte little-endian view: `ZERO`, `new`,
  `from_bytes` (its nested loops kept as a method over an array), `as_words`, `as_bytes` and
  `SHA256_INIT` (`words.dfy`, `digest.dfy`).
- **The `Sha256` capability.** Its four required operations are uninterpreted fields of a
  `Sha256` value that every hashing function takes as a parameter. The two default methods,
  `hash_words` and `hash_pair`, are defined from them (`sha.dfy`). No property of the hash is
  assumed, not even injectivity.
- **Tagged hashing.** `tagged_struct`, both as the function that fixes its exact preimage and
  as a method that builds the buffer in two loops. Also `tagged_list_cons`, `tagged_iter` (a
  right fold seeded with `Digest::ZERO`) and `tagged_list` (`tagged.dfy`).
- **The digest of every claim record.** `SystemState`, `Assumption`, `Assumptions`, `Output`,
  `ReceiptClaim`, `MaybePruned<T>`, `Option<T>`, byte vectors and the untagged slice fold
  (`claims.dfy`).
- **The receipt envelope.** `InnerReceipt` and its four strategies, the seal helpers of segment
  and succinct receipts, `encode_seal`, and `convert` applied to an already decoded receipt
  (`receipts.dfy`).

Integers use subset types `uint8`, `uint16` and `uint32`. The crate targets wasm, which is
little-endian, so the native byte view of a word (`bytemuck::cast_slice`) is its little-endian
encoding. `u32::from_be` and `u32::to_be` are both byte swaps. Tags are encoded as UTF-8 by
`Utf8`.

`into_pair(SessionLimit)` is `(2, 2)` (lib.rs:69), and `from_pair` reads every pair whose system
code is 2 as `SystemSplit` (lib.rs:79). So `SessionLimit` does not round-trip:
`SessionLimitDoesNotRoundTrip` proves it, and `FromPairIntoPair` proves the round trip for the
other three cases.

## Model

| member | source | states |
|---|---|---|
| ExitCodes.IntoPair | bincode2proof/src/lib.rs:64-71 | the system code is at most 2, and Halted/Paused carry their user code unchanged |
| ExitCodes.IntoPairInjective | bincode2proof/src/lib.rs:64-71 | distinct exit codes have distinct pairs |
| ExitCodes.FromPair | bincode2proof/src/lib.rs:75-82 | an error exactly when the system code exceeds 2, and then `InvalidExitCodeError(sys, user)`; on success the decoded code encodes back to the same system code |
| ExitCodes.FromPairIntoPair | bincode2proof/src/lib.rs:64-82 | decoding undoes encoding for Halted, Paused and SystemSplit |
| ExitCodes.SessionLimitDoesNotRoundTrip | bincode2proof/src/lib.rs:69-79 | SessionLimit encodes to (2, 2), which decodes to SystemSplit, so its round trip fails |
| ExitCodes.IntoPairFromPair | bincode2proof/src/lib.rs:64-82 | a decodable pair encodes back to itself, except that system code 2 resets the user code to 0 |
| ExitCodes.ExpectsOutputIffGuestExit | bincode2proof/src/lib.rs:87-92 | output is expected iff the code is Halted or Paused, i.e. iff its system code is below 2 |
| ExitCodes.IsOkIffZeroPair | bincode2proof/src/lib.rs:95-97 | the code is ok iff its pair is (0, 0), and an ok code expects output |
| Words.SwapBytes | bincode2proof/src/lib.rs:599 | the little-endian bytes of the result are the big-endian bytes of the input (`from_be`/`to_be` on a little-endian target) |
| Words.FromLE4LE4 | bincode2proof/src/lib.rs:612-614 | reading four little-endian bytes back gives the word that wrote them |
| Words.WordsToLEChunks | bincode2proof/src/lib.rs:612-614 | a byte string whose every 4-byte chunk is the LE bytes of the matching word is the words' byte view |
| Words.WordsToLEInjective | bincode2proof/src/lib.rs:612-614 | word sequences with equal byte views are equal |
| Words.BE4BEValue | bincode2proof/src/lib.rs:593-598 | shifting four bytes in from the left builds the word whose big-endian bytes are those four |
| Digests.New | bincode2proof/src/lib.rs:582-584 | `as_words` of the constructed digest returns the given words |
| Digests.AsBytes | bincode2proof/src/lib.rs:612-614 | the view has 32 bytes, and bytes 4i..4i+4 are the little-endian bytes of word i |
| Digests.AsBytesInjective | bincode2proof/src/lib.rs:612-614 | digests with equal byte views are equal |
| Digests.ZeroBytes | bincode2proof/src/lib.rs:579 | `Digest::ZERO` is 32 zero bytes |
| Digests.FromBytes | bincode2proof/src/lib.rs:588-604 | the byte view of the digest built from 32 bytes is those bytes, and word i is the LE reading of chunk i |
| Digests.Sha256InitBytes | bincode2proof/src/lib.rs:627-636 | the byte view of `SHA256_INIT` is H(0) from section 5.3.3 of FIPS 180-4 written big-endian |
| Sha.HashWordsHashesLEBytes | bincode2proof/src/lib.rs:660-662 | `hash_words` hashes exactly the bytes whose chunks are the words' LE bytes |
| Sha.HashWordsOfDigest | bincode2proof/src/lib.rs:660-662 | hashing a digest's words is hashing its byte view |
| Sha.HashPairStartsFromH0 | bincode2proof/src/lib.rs:667-669 | `hash_pair` compresses from the state whose bytes are FIPS 180-4's H(0) |
| Tagged.Utf8 | bincode2proof/src/lib.rs:285 | an ASCII tag encodes to its character codes, one byte each |
| Tagged.DigestsBytesAt | bincode2proof/src/lib.rs:291-293 | bytes 32i..32i+32 of the children's bytes are the view of child i |
| Tagged.DigestsBytesInjective | bincode2proof/src/lib.rs:291-293 | equal concatenated child bytes mean equal child lists |
| Tagged.TaggedStructPreimage | bincode2proof/src/lib.rs:284-302 | the preimage length is 32(n+1) + 4m + 2 for n children and m words |
| Tagged.TaggedStructLayout | bincode2proof/src/lib.rs:284-302 | the preimage is the tag digest, then each child's 32 bytes in order, then each word's 4 LE bytes, then the child count as LE u16 |
| Tagged.TaggedStructPreimageInjective | bincode2proof/src/lib.rs:284-302 | two preimages are equal iff their tag digests, children and data words are equal |
| Tagged.TaggedStructOrderSensitive | bincode2proof/src/lib.rs:284-302 | swapping two distinct children changes the preimage |
| Tagged.ComputeTaggedStruct | bincode2proof/src/lib.rs:284-303 | the loop-built buffer hashes to the digest whose preimage is fixed above |
| Tagged.TaggedPairBytes | bincode2proof/src/lib.rs:284-303 | a two-child struct without data hashes tag digest, both children and `[2, 0]` |
| Tagged.RFoldCons | bincode2proof/src/lib.rs:180-182 | a right fold over `h :: t` applies the step to the fold of `t` and then to `h` |
| Tagged.TaggedListConsBytes | bincode2proof/src/lib.rs:185-187 | a cons cell hashes tag digest, head, tail and the count 2 |
| Tagged.TaggedListNil | bincode2proof/src/lib.rs:173-183 | the empty list digests to `Digest::ZERO` |
| Tagged.TaggedListConsUnfold | bincode2proof/src/lib.rs:173-187 | the list `h :: t` digests to the cons cell of `h` and the digest of `t` |
| Claims.Prune | bincode2proof/src/lib.rs:223-243 | pruning yields the `Pruned` variant, and the pruned form digests as the original did |
| Claims.PruningTransparent | bincode2proof/src/lib.rs:238-243 | `Value(v)` digests as `v`, and `Pruned(d)` as `d` |
| Claims.OptionDigest | bincode2proof/src/lib.rs:507-513 | `None` digests to `Digest::ZERO` |
| Claims.SliceDigestStructure | bincode2proof/src/lib.rs:500-504 | the empty slice digests to ZERO, and `x :: xs` hashes the digest bytes of `xs` first, then those of `x` |
| Claims.SystemStateDigestBytes | bincode2proof/src/lib.rs:112-114 | a system state hashes its tag digest, merkle root, pc as LE bytes and the count 1 |
| Claims.AssumptionDigestBytes | bincode2proof/src/lib.rs:154-156 | an assumption hashes its tag digest, claim, control root and the count 2 |
| Claims.AssumptionsDigestCons | bincode2proof/src/lib.rs:165-187 | no assumptions digest to `Digest::ZERO`, and `x :: xs` digests to the cons cell of `x`'s digest and the digest of `xs` |
| Claims.OutputDigestBytes | bincode2proof/src/lib.rs:211-217 | an output hashes its tag digest, journal digest, assumptions digest and the count 2 |
| Claims.InputFieldDigest | bincode2proof/src/lib.rs:238-243 | through the generic `MaybePruned` and `Option` digests, an absent input digests to `Digest::ZERO` |
| Claims.ReceiptClaimDigestBytes | bincode2proof/src/lib.rs:269-281 | a claim hashes its tag digest, the input, pre, post and output digests in that order, the exit pair and the count 4 |
| Claims.ClaimPreimageCommits | bincode2proof/src/lib.rs:269-281 | two claims' preimages are equal iff their four child digests and their exit codes are equal |
| Claims.AssumptionsPruningPreservesDigest | bincode2proof/src/lib.rs:165-170 | pruning any assumptions keeps the `Assumptions` digest |
| Claims.AssumptionsFieldPruningPreservesDigest | bincode2proof/src/lib.rs:238-243 | pruning inside or at an assumptions field keeps its digest |
| Claims.OutputPruningPreservesDigest | bincode2proof/src/lib.rs:211-217 | pruning at any depth below an output keeps its digest |
| Claims.OutputFieldPruningPreservesDigest | bincode2proof/src/lib.rs:238-243 | pruning inside or at an output field keeps its digest |
| Claims.ClaimPruningPreservesDigest | bincode2proof/src/lib.rs:269-281 | pruning any parts of a claim at any depth keeps the claim digest |
| Claims.ClaimPruningReflexive | bincode2proof/src/lib.rs:269-281 | a claim is a pruning of itself |
| Claims.PruneOneClaimField | bincode2proof/src/lib.rs:269-281 | replacing input, pre, post or output with `Pruned(its digest)` keeps the claim digest |
| Receipts.SegmentReceipt.GetSealBytes | bincode2proof/src/lib.rs:342-344 | the seal bytes are 4 per word, chunk i being word i's LE bytes |
| Receipts.SegmentReceipt.SealSize | bincode2proof/src/lib.rs:347-349 | the size is the length of the seal bytes |
| Receipts.SuccinctReceipt.GetSealBytes | bincode2proof/src/lib.rs:432-434 | the seal bytes are 4 per word, chunk i being word i's LE bytes |
| Receipts.SuccinctReceipt.SealSize | bincode2proof/src/lib.rs:437-439 | the size is the length of the seal bytes |
| Receipts.EncodeSeal | bincode2proof/src/lib.rs:698-721 | succeeds iff the receipt is Groth16, giving the first 4 bytes of the verifier-parameters digest followed by the seal (4 + seal length bytes); otherwise the unsupported-type error |
| Receipts.Convert | bincode2proof/src/lib.rs:744-749 | for a decoded receipt, the encoded seal next to the journal bytes, or the seal error |

The digest functions that only compute have no rows of their own. Each one is the function its
lemmas above are stated about:

- `Claims.SystemStateDigest` (lib.rs:112-114), `Claims.AssumptionDigest` (154-156),
  `Claims.AssumptionsDigest` (165-170), `Claims.OutputDigest` (211-217),
  `Claims.ReceiptClaimDigest` (269-281) and `Claims.MaybePrunedDigest` (238-243).
- `Claims.BytesDigest` (481-491), `Claims.SliceDigest` (500-504) and `Tagged.TaggedStruct`
  (284-303).
- `Tagged.TaggedListCons` (185-187), `Tagged.TaggedIter` (176-183) and `Tagged.TaggedList`
  (173-175).
- `Sha.HashWords` (660-662), `Sha.HashPair` (667-669), `Digests.AsWords` (607-609) and
  `ExitCodes.ExpectsOutput` / `ExitCodes.IsOk` (87-97).

## Left out

- The concrete SHA-256, compression and raw-data hash functions are not modelled. The model
  does not assume collision resistance either. Injectivity and order sensitivity are therefore
  proved for the preimages, not for the digests.
- `SuccinctReceipt::control_root` and `MerkleProof::root` are not modelled. The first is
  compiled only with the `prove` feature, and both depend on hash suites that
  `bincode2proof/src/lib.rs` does not define. `MerkleProof` is a plain record.
- Convert: the bincode decoding of the input bytes is not modelled, so `convert` starts from an
  already decoded `Receipt`. Where the source panics on the seal error, the model returns that
  error instead.
- The wasm-bindgen getters of `ProofData` only copy a field, so they are not modelled.
- Serde and borsh derives, `Debug` formatting (`fmt_debug_journal`) and the `bytemuck` cast
  internals are not modelled. The byte view is modelled by its little-endian result.
- `as_mut_words` and `as_mut_bytes` are not modelled: they are mutable aliasing views with no
  behaviour of their own.
- Tagged.TaggedStruct: requires at most 65535 children instead of modelling the panic raised by
  `expect` when the count does not fit in a `u16`.
- Claims.InputFieldDigest: `Input` and `Unknown` are uninhabited in the source. Dafny types
  cannot be empty, so each has a single placeholder value, which subset types keep out of claims
  and assumption receipts. An input field is therefore always pruned or `None`.
- Tagged.ComputeTaggedStruct: builds the buffer as a growing `seq` rather than a pre-allocated
  `Vec`, so capacity is not modelled.
