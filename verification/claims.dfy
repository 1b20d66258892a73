/**
 * The claim model (`SystemState`, `Assumption`, `Assumptions`, `Output`,
 * `ReceiptClaim`), the selective-disclosure wrapper `MaybePruned`, and the
 * `Digestible` instances that commit to them.
 */
module Claims {
  import opened Wrappers
  import opened Words
  import opened Digests
  import opened Sha
  import opened Tagged
  import opened ExitCodes

  /** Either the value itself or only its digest. */
  datatype MaybePruned<T> = Value(value: T) | Pruned(digest: Digest)

  /** The digest of a `MaybePruned<T>`, given how a `T` is digested. */
  function MaybePrunedDigest<T>(m: MaybePruned<T>, digestOf: T -> Digest): Digest
  {
    match m
    case Value(v) => digestOf(v)
    case Pruned(d) => d
  }

  /** Replace a value by its digest: the pruned form digests as the original did. */
  function Prune<T>(m: MaybePruned<T>, digestOf: T -> Digest): (p: MaybePruned<T>)
    ensures p.Pruned?
    ensures MaybePrunedDigest(p, digestOf) == MaybePrunedDigest(m, digestOf)
  {
    Pruned(MaybePrunedDigest(m, digestOf))
  }

  /** Pruning transparency: a value digests as itself, and its pruned form as the digest it holds. */
  lemma PruningTransparent<T>(v: T, d: Digest, digestOf: T -> Digest)
    ensures MaybePrunedDigest(Value(v), digestOf) == digestOf(v)
    ensures MaybePrunedDigest(Pruned(d), digestOf) == d
  {
  }

  /** The digest of an `Option<T>`: the value's digest, or `Digest::ZERO` for `None`. */
  function OptionDigest<T>(o: Option<T>, digestOf: T -> Digest): (d: Digest)
    ensures o.None? ==> d == ZERO
  {
    match o
    case Some(v) => digestOf(v)
    case None => ZERO
  }

  /** `Vec<u8>` and `[u8]`: the one untagged leaf digest, the hash of the bytes. */
  function BytesDigest(sha: Sha256, bytes: seq<uint8>): Digest
  {
    sha.hashBytes(bytes)
  }

  /**
   * The generic slice digest: a right fold from `Digest::ZERO` that hashes the
   * accumulator's bytes followed by the element's digest bytes. It has no tag.
   */
  function SliceDigest<D>(sha: Sha256, xs: seq<D>, digestOf: D -> Digest): Digest
  {
    RFold(xs, ZERO, (accum: Digest, item: D) => sha.hashBytes(AsBytes(accum) + AsBytes(digestOf(item))))
  }

  /**
   * The empty slice digests to zero, and prepending an element hashes the old
   * digest's bytes then the element's: anyone holding a slice digest can
   * extend the slice at the front.
   */
  lemma SliceDigestStructure<D>(sha: Sha256, x: D, xs: seq<D>, digestOf: D -> Digest)
    ensures SliceDigest(sha, [], digestOf) == ZERO
    ensures SliceDigest(sha, [x] + xs, digestOf)
         == sha.hashBytes(AsBytes(SliceDigest(sha, xs, digestOf)) + AsBytes(digestOf(x)))
  {
    RFoldCons(x, xs, ZERO, (accum: Digest, item: D) => sha.hashBytes(AsBytes(accum) + AsBytes(digestOf(item))));
  }

  lemma OneDigestBytes(d: Digest)
    ensures DigestsBytes([d]) == AsBytes(d)
  {
    assert [d][..0] == [];
  }

  lemma TwoDigestsBytes(d: Digest, e: Digest)
    ensures DigestsBytes([d, e]) == AsBytes(d) + AsBytes(e)
  {
    OneDigestBytes(d);
    DigestsBytesAppend([d], e);
    assert [d] + [e] == [d, e];
  }

  const SYSTEM_STATE_TAG: string := "risc0.SystemState"
  const ASSUMPTION_TAG: string := "risc0.Assumption"
  const ASSUMPTIONS_TAG: string := "risc0.Assumptions"
  const OUTPUT_TAG: string := "risc0.Output"
  const RECEIPT_CLAIM_TAG: string := "risc0.ReceiptClaim"

  /** Machine state at a point of execution. */
  datatype SystemState = SystemState(pc: uint32, merkleRoot: Digest)

  function SystemStateDigest(sha: Sha256, s: SystemState): Digest
  {
    TaggedStruct(sha, SYSTEM_STATE_TAG, [s.merkleRoot], [s.pc])
  }

  /** The bytes hashed for a system state: tag digest, merkle root, pc, child count 1. */
  lemma SystemStateDigestBytes(sha: Sha256, s: SystemState)
    ensures SystemStateDigest(sha, s)
         == sha.hashBytes(AsBytes(sha.hashBytes(Utf8(SYSTEM_STATE_TAG))) + AsBytes(s.merkleRoot) + LE4(s.pc) + [1, 0])
  {
    OneDigestBytes(s.merkleRoot);
    assert [s.pc][..0] == [];
    assert WordsToLE([s.pc]) == LE4(s.pc);
  }

  function StateFieldDigest(sha: Sha256, m: MaybePruned<SystemState>): Digest
  {
    MaybePrunedDigest(m, (s: SystemState) => SystemStateDigest(sha, s))
  }

  /** A claim this execution relies on and the control root to verify it under. */
  datatype Assumption = Assumption(claim: Digest, controlRoot: Digest)

  function AssumptionDigest(sha: Sha256, a: Assumption): Digest
  {
    TaggedStruct(sha, ASSUMPTION_TAG, [a.claim, a.controlRoot], [])
  }

  /** The bytes hashed for an assumption: tag digest, claim, control root, child count 2. */
  lemma AssumptionDigestBytes(sha: Sha256, a: Assumption)
    ensures AssumptionDigest(sha, a)
         == sha.hashBytes(AsBytes(sha.hashBytes(Utf8(ASSUMPTION_TAG))) + AsBytes(a.claim) + AsBytes(a.controlRoot) + [2, 0])
  {
    TaggedPairBytes(sha, ASSUMPTION_TAG, a.claim, a.controlRoot);
  }

  function AssumptionFieldDigest(sha: Sha256, m: MaybePruned<Assumption>): Digest
  {
    MaybePrunedDigest(m, (a: Assumption) => AssumptionDigest(sha, a))
  }

  datatype Assumptions = Assumptions(items: seq<MaybePruned<Assumption>>)

  /** The digests of the assumptions, in order (`iter().map(digest).collect()`). */
  function AssumptionDigests(sha: Sha256, a: Assumptions): (ds: seq<Digest>)
    ensures |ds| == |a.items|
    ensures forall i :: 0 <= i < |a.items| ==> ds[i] == AssumptionFieldDigest(sha, a.items[i])
  {
    seq(|a.items|, i requires 0 <= i < |a.items| => AssumptionFieldDigest(sha, a.items[i]))
  }

  function AssumptionsDigest(sha: Sha256, a: Assumptions): Digest
  {
    TaggedList(sha, ASSUMPTIONS_TAG, AssumptionDigests(sha, a))
  }

  /**
   * The assumptions list digests as a tagged list: `ZERO` when empty, and
   * otherwise the cons cell of the first assumption's digest and the digest
   * of the rest.
   */
  lemma AssumptionsDigestCons(sha: Sha256, x: MaybePruned<Assumption>, xs: seq<MaybePruned<Assumption>>)
    ensures AssumptionsDigest(sha, Assumptions([])) == ZERO
    ensures AssumptionsDigest(sha, Assumptions([x] + xs))
         == TaggedListCons(sha, ASSUMPTIONS_TAG, AssumptionFieldDigest(sha, x), AssumptionsDigest(sha, Assumptions(xs)))
  {
    TaggedListNil(sha, ASSUMPTIONS_TAG);
    assert AssumptionDigests(sha, Assumptions([x] + xs)) == [AssumptionFieldDigest(sha, x)] + AssumptionDigests(sha, Assumptions(xs));
    TaggedListConsUnfold(sha, ASSUMPTIONS_TAG, AssumptionFieldDigest(sha, x), AssumptionDigests(sha, Assumptions(xs)));
  }

  function AssumptionsFieldDigest(sha: Sha256, m: MaybePruned<Assumptions>): Digest
  {
    MaybePrunedDigest(m, (a: Assumptions) => AssumptionsDigest(sha, a))
  }

  /** What the guest committed to: its journal and its assumptions. */
  datatype Output = Output(journal: MaybePruned<seq<uint8>>, assumptions: MaybePruned<Assumptions>)

  function JournalFieldDigest(sha: Sha256, m: MaybePruned<seq<uint8>>): Digest
  {
    MaybePrunedDigest(m, (bytes: seq<uint8>) => BytesDigest(sha, bytes))
  }

  function OutputDigest(sha: Sha256, o: Output): Digest
  {
    TaggedStruct(sha, OUTPUT_TAG, [JournalFieldDigest(sha, o.journal), AssumptionsFieldDigest(sha, o.assumptions)], [])
  }

  /** The bytes hashed for an output: tag digest, journal digest, assumptions digest, child count 2. */
  lemma OutputDigestBytes(sha: Sha256, o: Output)
    ensures OutputDigest(sha, o)
         == sha.hashBytes(AsBytes(sha.hashBytes(Utf8(OUTPUT_TAG)))
                          + AsBytes(JournalFieldDigest(sha, o.journal))
                          + AsBytes(AssumptionsFieldDigest(sha, o.assumptions))
                          + [2, 0])
  {
    TaggedPairBytes(sha, OUTPUT_TAG, JournalFieldDigest(sha, o.journal), AssumptionsFieldDigest(sha, o.assumptions));
  }

  function OutputFieldDigest(sha: Sha256, m: MaybePruned<Option<Output>>): Digest
  {
    MaybePrunedDigest(m, (o: Option<Output>) => OptionDigest(o, (x: Output) => OutputDigest(sha, x)))
  }

  /**
   * The guest input. The source type is uninhabited; a Dafny type cannot be,
   * so this one value stands for it and `InputField` keeps it out of claims.
   */
  datatype Input = Input

  /** `MaybePruned<Option<Input>>` with `Input` uninhabited: pruned, or no input. */
  type InputField = m: MaybePruned<Option<Input>> | !(m.Value? && m.value.Some?) witness Pruned(ZERO)

  /**
   * `Input::digest` has no case to handle. `InputField` keeps every input out
   * of claims, so this placeholder is never applied to one.
   */
  function InputDigest(i: Input): Digest
  {
    ZERO
  }

  function InputFieldDigest(m: InputField): (d: Digest)
    ensures m == Value(None) ==> d == ZERO
  {
    MaybePrunedDigest(m, (o: Option<Input>) => OptionDigest(o, InputDigest))
  }

  /** The statement every receipt attests to. */
  datatype ReceiptClaim = ReceiptClaim(
    pre: MaybePruned<SystemState>,
    post: MaybePruned<SystemState>,
    exitCode: ExitCode,
    input: InputField,
    output: MaybePruned<Option<Output>>)

  /** The children of a claim's digest, in the order the digest fixes. */
  function ClaimChildren(sha: Sha256, c: ReceiptClaim): (ds: seq<Digest>)
    ensures |ds| == 4
  {
    [InputFieldDigest(c.input), StateFieldDigest(sha, c.pre), StateFieldDigest(sha, c.post), OutputFieldDigest(sha, c.output)]
  }

  /** The data words of a claim's digest: the exit code as its pair. */
  function ClaimData(c: ReceiptClaim): (ws: seq<uint32>)
    ensures |ws| == 2
  {
    var (sysExit, userExit) := IntoPair(c.exitCode);
    [sysExit, userExit]
  }

  function ReceiptClaimDigest(sha: Sha256, c: ReceiptClaim): Digest
  {
    TaggedStruct(sha, RECEIPT_CLAIM_TAG, ClaimChildren(sha, c), ClaimData(c))
  }

  /**
   * The bytes hashed for a claim: tag digest, then the input, pre, post and
   * output digests in that order, then the exit code pair, then child count 4.
   */
  lemma ReceiptClaimDigestBytes(sha: Sha256, c: ReceiptClaim)
    ensures ReceiptClaimDigest(sha, c)
         == sha.hashBytes(AsBytes(sha.hashBytes(Utf8(RECEIPT_CLAIM_TAG)))
                          + (AsBytes(InputFieldDigest(c.input))
                             + AsBytes(StateFieldDigest(sha, c.pre))
                             + AsBytes(StateFieldDigest(sha, c.post))
                             + AsBytes(OutputFieldDigest(sha, c.output)))
                          + (LE4(IntoPair(c.exitCode).0) + LE4(IntoPair(c.exitCode).1))
                          + [4, 0])
  {
    var ds := ClaimChildren(sha, c);
    TwoDigestsBytes(ds[0], ds[1]);
    DigestsBytesAppend([ds[0], ds[1]], ds[2]);
    assert [ds[0], ds[1]] + [ds[2]] == [ds[0], ds[1], ds[2]];
    DigestsBytesAppend([ds[0], ds[1], ds[2]], ds[3]);
    assert [ds[0], ds[1], ds[2]] + [ds[3]] == ds;
    var ws := ClaimData(c);
    assert [ws[0]][..0] == [];
    assert WordsToLE([ws[0]]) == LE4(ws[0]);
    WordsToLEAppend([ws[0]], ws[1]);
    assert [ws[0]] + [ws[1]] == ws;
  }

  /**
   * What a claim's digest hashes commits to the exit code and to the digests
   * of input, pre, post and output, each in its place, and to nothing else.
   */
  lemma ClaimPreimageCommits(sha: Sha256, c1: ReceiptClaim, c2: ReceiptClaim)
    ensures TaggedStructPreimage(sha, RECEIPT_CLAIM_TAG, ClaimChildren(sha, c1), ClaimData(c1))
         == TaggedStructPreimage(sha, RECEIPT_CLAIM_TAG, ClaimChildren(sha, c2), ClaimData(c2))
        <==> ClaimChildren(sha, c1) == ClaimChildren(sha, c2) && c1.exitCode == c2.exitCode
  {
    TaggedStructPreimageInjective(sha, RECEIPT_CLAIM_TAG, ClaimChildren(sha, c1), ClaimData(c1),
                                  RECEIPT_CLAIM_TAG, ClaimChildren(sha, c2), ClaimData(c2));
    if ClaimData(c1) == ClaimData(c2) {
      IntoPairInjective(c1.exitCode, c2.exitCode);
    }
  }

  // Pruning relations: `a` is `b` with any of its MaybePruned parts, at any
  // depth, replaced by their digests.

  predicate StatePruning(sha: Sha256, a: MaybePruned<SystemState>, b: MaybePruned<SystemState>)
  {
    a == b || a == Pruned(StateFieldDigest(sha, b))
  }

  predicate InputPruning(a: InputField, b: InputField)
  {
    a == b || a == Pruned(InputFieldDigest(b))
  }

  predicate JournalPruning(sha: Sha256, a: MaybePruned<seq<uint8>>, b: MaybePruned<seq<uint8>>)
  {
    a == b || a == Pruned(JournalFieldDigest(sha, b))
  }

  predicate AssumptionPruning(sha: Sha256, a: MaybePruned<Assumption>, b: MaybePruned<Assumption>)
  {
    a == b || a == Pruned(AssumptionFieldDigest(sha, b))
  }

  predicate AssumptionsPruning(sha: Sha256, a: Assumptions, b: Assumptions)
  {
    && |a.items| == |b.items|
    && forall i :: 0 <= i < |a.items| ==> AssumptionPruning(sha, a.items[i], b.items[i])
  }

  predicate AssumptionsFieldPruning(sha: Sha256, a: MaybePruned<Assumptions>, b: MaybePruned<Assumptions>)
  {
    || a == Pruned(AssumptionsFieldDigest(sha, b))
    || (a.Value? && b.Value? && AssumptionsPruning(sha, a.value, b.value))
  }

  predicate OutputPruning(sha: Sha256, a: Output, b: Output)
  {
    JournalPruning(sha, a.journal, b.journal) && AssumptionsFieldPruning(sha, a.assumptions, b.assumptions)
  }

  predicate OutputFieldPruning(sha: Sha256, a: MaybePruned<Option<Output>>, b: MaybePruned<Option<Output>>)
  {
    || a == Pruned(OutputFieldDigest(sha, b))
    || (a.Value? && b.Value? &&
        (a.value == b.value || (a.value.Some? && b.value.Some? && OutputPruning(sha, a.value.value, b.value.value))))
  }

  predicate ClaimPruning(sha: Sha256, a: ReceiptClaim, b: ReceiptClaim)
  {
    && a.exitCode == b.exitCode
    && StatePruning(sha, a.pre, b.pre)
    && StatePruning(sha, a.post, b.post)
    && InputPruning(a.input, b.input)
    && OutputFieldPruning(sha, a.output, b.output)
  }

  lemma AssumptionsPruningPreservesDigest(sha: Sha256, a: Assumptions, b: Assumptions)
    requires AssumptionsPruning(sha, a, b)
    ensures AssumptionsDigest(sha, a) == AssumptionsDigest(sha, b)
  {
    assert AssumptionDigests(sha, a) == AssumptionDigests(sha, b);
  }

  lemma AssumptionsFieldPruningPreservesDigest(sha: Sha256, a: MaybePruned<Assumptions>, b: MaybePruned<Assumptions>)
    requires AssumptionsFieldPruning(sha, a, b)
    ensures AssumptionsFieldDigest(sha, a) == AssumptionsFieldDigest(sha, b)
  {
    if a.Value? && b.Value? && AssumptionsPruning(sha, a.value, b.value) {
      AssumptionsPruningPreservesDigest(sha, a.value, b.value);
    }
  }

  lemma OutputPruningPreservesDigest(sha: Sha256, a: Output, b: Output)
    requires OutputPruning(sha, a, b)
    ensures OutputDigest(sha, a) == OutputDigest(sha, b)
  {
    AssumptionsFieldPruningPreservesDigest(sha, a.assumptions, b.assumptions);
  }

  lemma OutputFieldPruningPreservesDigest(sha: Sha256, a: MaybePruned<Option<Output>>, b: MaybePruned<Option<Output>>)
    requires OutputFieldPruning(sha, a, b)
    ensures OutputFieldDigest(sha, a) == OutputFieldDigest(sha, b)
  {
    if a.Value? && b.Value? && a.value != b.value {
      OutputPruningPreservesDigest(sha, a.value.value, b.value.value);
    }
  }

  /**
   * Selective disclosure: pruning any parts of a claim, at any depth, leaves
   * the claim's digest unchanged.
   */
  lemma ClaimPruningPreservesDigest(sha: Sha256, a: ReceiptClaim, b: ReceiptClaim)
    requires ClaimPruning(sha, a, b)
    ensures ReceiptClaimDigest(sha, a) == ReceiptClaimDigest(sha, b)
  {
    OutputFieldPruningPreservesDigest(sha, a.output, b.output);
    assert ClaimChildren(sha, a) == ClaimChildren(sha, b);
  }

  /** Every claim is a pruning of itself, so the relation covers pruning just one part. */
  lemma ClaimPruningReflexive(sha: Sha256, c: ReceiptClaim)
    ensures ClaimPruning(sha, c, c)
  {
    if c.output.Value? && c.output.value.Some? {
      var o := c.output.value.value;
      if o.assumptions.Value? {
        assert AssumptionsPruning(sha, o.assumptions.value, o.assumptions.value);
      }
    }
  }

  /** Replacing one field of a claim by `Pruned` of its digest keeps the claim's digest. */
  lemma PruneOneClaimField(sha: Sha256, c: ReceiptClaim)
    ensures ReceiptClaimDigest(sha, c.(pre := Pruned(StateFieldDigest(sha, c.pre)))) == ReceiptClaimDigest(sha, c)
    ensures ReceiptClaimDigest(sha, c.(post := Pruned(StateFieldDigest(sha, c.post)))) == ReceiptClaimDigest(sha, c)
    ensures ReceiptClaimDigest(sha, c.(input := Pruned(InputFieldDigest(c.input)))) == ReceiptClaimDigest(sha, c)
    ensures ReceiptClaimDigest(sha, c.(output := Pruned(OutputFieldDigest(sha, c.output)))) == ReceiptClaimDigest(sha, c)
  {
    ClaimPruningReflexive(sha, c);
    ClaimPruningPreservesDigest(sha, c.(pre := Pruned(StateFieldDigest(sha, c.pre))), c);
    ClaimPruningPreservesDigest(sha, c.(post := Pruned(StateFieldDigest(sha, c.post))), c);
    ClaimPruningPreservesDigest(sha, c.(input := Pruned(InputFieldDigest(c.input))), c);
    ClaimPruningPreservesDigest(sha, c.(output := Pruned(OutputFieldDigest(sha, c.output))), c);
  }
}
