/**
 * The receipt envelope: one variant per proof strategy, the seal helpers of
 * the STARK receipts, and `encode_seal`, which flattens a Groth16 receipt's
 * seal for external verification.
 */
module Receipts {
  import opened Wrappers
  import opened Words
  import opened Digests
  import opened Claims

  /** A leaf index and its sibling path (root excluded). Kept as a record only. */
  datatype MerkleProof = MerkleProof(index: uint32, digests: seq<Digest>)

  /** One STARK proof for one segment of an execution. */
  datatype SegmentReceipt = SegmentReceipt(
    seal: seq<uint32>,
    index: uint32,
    hashfn: string,
    verifierParameters: Digest,
    claim: ReceiptClaim)
  {
    /** `SegmentReceipt::get_seal_bytes`: each seal word's little-endian bytes, in order. */
    function GetSealBytes(): (r: seq<uint8>)
      ensures |r| == 4 * |seal|
      ensures forall i :: 0 <= i < |seal| ==> r[4 * i .. 4 * i + 4] == LE4(seal[i])
    {
      WordsToLEChunked(seal);
      WordsToLE(seal)
    }

    /** `SegmentReceipt::seal_size`: the size in bytes of the seal words. */
    function SealSize(): (n: nat)
      ensures n == |GetSealBytes()|
    {
      4 * |seal|
    }
  }

  /** A single STARK proving the claim, with the inclusion proof of its control id. */
  datatype SuccinctReceipt<Claim> = SuccinctReceipt(
    seal: seq<uint32>,
    controlId: Digest,
    claim: MaybePruned<Claim>,
    hashfn: string,
    verifierParameters: Digest,
    controlInclusionProof: MerkleProof)
  {
    /** `SuccinctReceipt::get_seal_bytes`: each seal word's little-endian bytes, in order. */
    function GetSealBytes(): (r: seq<uint8>)
      ensures |r| == 4 * |seal|
      ensures forall i :: 0 <= i < |seal| ==> r[4 * i .. 4 * i + 4] == LE4(seal[i])
    {
      WordsToLEChunked(seal);
      WordsToLE(seal)
    }

    /** `SuccinctReceipt::seal_size`: the size in bytes of the seal words. */
    function SealSize(): (n: nat)
      ensures n == |GetSealBytes()|
    {
      4 * |seal|
    }
  }

  /** A single Groth16 SNARK; its seal is raw bytes. */
  datatype Groth16Receipt<Claim> = Groth16Receipt(
    seal: seq<uint8>,
    claim: MaybePruned<Claim>,
    verifierParameters: Digest)

  /** A stand-in with no cryptographic material, for development. */
  datatype FakeReceipt<Claim> = FakeReceipt(claim: MaybePruned<Claim>)

  /**
   * The claim type `Unknown` is uninhabited in the source, so a receipt over it
   * can only carry its claim pruned. `Unknown` is the placeholder value the
   * subset types below keep out.
   */
  datatype Unknown = Unknown

  type UnknownSuccinctReceipt = r: SuccinctReceipt<Unknown> | r.claim.Pruned?
    witness SuccinctReceipt([], ZERO, Pruned(ZERO), "", ZERO, MerkleProof(0, []))

  type UnknownGroth16Receipt = r: Groth16Receipt<Unknown> | r.claim.Pruned?
    witness Groth16Receipt([], Pruned(ZERO), ZERO)

  type UnknownFakeReceipt = r: FakeReceipt<Unknown> | r.claim.Pruned?
    witness FakeReceipt(Pruned(ZERO))

  /** The receipt backing an assumption. */
  datatype InnerAssumptionReceipt =
    | AssumptionComposite(composite: CompositeReceipt)
    | AssumptionSuccinct(succinct: UnknownSuccinctReceipt)
    | AssumptionGroth16(groth16: UnknownGroth16Receipt)
    | AssumptionFake(fake: UnknownFakeReceipt)

  /** One receipt per segment plus one per assumption. */
  datatype CompositeReceipt = CompositeReceipt(
    segments: seq<SegmentReceipt>,
    assumptionReceipts: seq<InnerAssumptionReceipt>,
    verifierParameters: Digest)

  /** The proof strategy of a top-level receipt. */
  datatype InnerReceipt =
    | Composite(composite: CompositeReceipt)
    | Succinct(succinct: SuccinctReceipt<ReceiptClaim>)
    | Groth16(groth16: Groth16Receipt<ReceiptClaim>)
    | Fake(fake: FakeReceipt<ReceiptClaim>)

  datatype Journal = Journal(bytes: seq<uint8>)

  datatype ReceiptMetadata = ReceiptMetadata(verifierParameters: Digest)

  datatype Receipt = Receipt(inner: InnerReceipt, journal: Journal, metadata: ReceiptMetadata)

  /** The error `encode_seal` reports for every strategy but Groth16. */
  datatype SealError = UnsupportedReceiptType

  /**
   * `encode_seal`: for a Groth16 receipt, the first four bytes of its
   * verifier-parameters digest (the selector) followed by the seal bytes;
   * for every other strategy, an "Unsupported receipt type" error.
   */
  method EncodeSeal(receipt: Receipt) returns (r: Result<seq<uint8>, SealError>)
    ensures r.Ok? <==> receipt.inner.Groth16?
    ensures r.Err? ==> r.error == UnsupportedReceiptType
    ensures r.Ok? ==> var g := receipt.inner.groth16;
      && r.value == AsBytes(g.verifierParameters)[..4] + g.seal
      && |r.value| == 4 + |g.seal|
      && r.value[..4] == LE4(g.verifierParameters.words[0])
  {
    match receipt.inner {
      case Groth16(g) =>
        var selector := AsBytes(g.verifierParameters)[..4];
        var selectorSeal: seq<uint8> := [];
        selectorSeal := selectorSeal + selector;
        selectorSeal := selectorSeal + g.seal;
        r := Ok(selectorSeal);
      case _ =>
        r := Err(UnsupportedReceiptType);
    }
  }

  /** The seal and journal handed back to the caller (`ProofData`). */
  datatype ProofData = ProofData(seal: seq<uint8>, journal: seq<uint8>)

  /**
   * `convert` on an already decoded receipt: its encoded seal next to its
   * journal bytes. Where the source panics (`unwrap` on the seal error) this
   * returns the error.
   */
  method Convert(receipt: Receipt) returns (r: Result<ProofData, SealError>)
    ensures r.Ok? <==> receipt.inner.Groth16?
    ensures r.Err? ==> r.error == UnsupportedReceiptType
    ensures r.Ok? ==> var g := receipt.inner.groth16;
      && r.value.seal == AsBytes(g.verifierParameters)[..4] + g.seal
      && r.value.journal == receipt.journal.bytes
  {
    var seal :- EncodeSeal(receipt);
    r := Ok(ProofData(seal, receipt.journal.bytes));
  }
}
