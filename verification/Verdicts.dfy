/** packages/vrf-client/src/verifyEndToEnd.ts: the verdict functions and the choice among candidate events. */
module Verdicts {
  import opened Common
  import opened Ciphersuite
  import opened Ecvrf
  import Registry
  import Instructions
  import opened Addresses

  datatype OnChainAuthority = OnChainAuthority(
    authorityAddress: Option<bytes32>,
    owner: bytes32, pk: bytes, suite: nat, frozen: bool, revoked: bool, labelBytes: bytes)

  datatype OnChainCommit = OnChainCommit(
    authority: Option<bytes32>, memoHash: bytes, proofHash: bytes, alphaHash: bytes, committedSlot: nat)

  datatype Reason =
    | SuiteNotSupported(suite: nat)
    | EcvrfVerifyFailed
    | ProofHashMismatch(computed: bytes, onChain: bytes)
    | AlphaHashMismatch
    | MemoHashMismatch
    | NotFrozen
    | Revoked
    | OwnerMismatch
    | LabelMismatch
    | CommitAuthorityMismatch
    | CommitAuthorityMissing
    | ExpectedAddressMismatch
    | OnChainBetaMismatch

  datatype Verdict = Verdict(
    valid: bool, ecvrfValid: bool, suiteSupported: bool,
    proofHashMatches: bool, alphaHashMatches: bool, memoHashMatches: bool,
    beta: Option<bytes>, reasons: seq<Reason>)

  /** The result of the full verifier; expectedAddressMatches is a local of the source, visible there in the reasons. */
  datatype FullVerdict = FullVerdict(
    base: Verdict, valid: bool, reasons: seq<Reason>,
    authorityFrozen: bool, authorityNotRevoked: bool, authorityOwnerMatches: bool, authorityLabelMatches: bool,
    commitAuthorityMatches: bool, expectedAddressMatches: bool, betaMatches: Option<bool>)

  /** The input of the full verifier. */
  datatype Request = Request(
    authority: OnChainAuthority, onChainCommit: OnChainCommit,
    alpha: bytes, proof: bytes, memo: bytes,
    expectedOwner: Option<bytes32>, expectedLabel: Option<bytes>, expectedAddress: Option<bytes32>,
    programId: Option<bytes32>, onChainBeta: Option<bytes>)

  // ---------------------------------------------------------------- what the verdicts mean

  /** The three stored hashes are those of the proof, the input and the memo. */
  predicate HashesMatch(cl: Client, alpha: bytes, proof: bytes, memo: bytes, c: OnChainCommit) {
    c.proofHash == cl.sha256(proof) && c.alphaHash == cl.sha256(alpha) && c.memoHash == cl.sha256(memo)
  }

  function SuiteOf(suite: Option<nat>): nat {
    if suite.Some? then suite.value else Registry.SUITE_TAI
  }

  /** verifyEndToEnd throws only where verifyVRF does. */
  ghost predicate BaseThrows(cl: Client, pk: bytes, suite: Option<nat>, alpha: bytes, proof: bytes)
    requires cl.g.q > 0
  {
    SuiteOf(suite) == Registry.SUITE_TAI && VerifyVRF(cl.g, pk, alpha, proof).Throws?
  }

  /** The reason a failed check leaves behind. */
  function Unless(holds: bool, reason: Reason): seq<Reason> {
    if holds then [] else [reason]
  }

  /** The base verdict: every flag is its check, the verdict is their conjunction, and beta comes with a valid proof. */
  ghost predicate BaseVerdict(cl: Client, pk: bytes, suite: Option<nat>, alpha: bytes, proof: bytes,
                              c: OnChainCommit, memo: bytes, v: Verdict)
    requires cl.g.q > 0
  {
    && (v.suiteSupported <==> SuiteOf(suite) == Registry.SUITE_TAI)
    && (v.ecvrfValid <==> v.suiteSupported && VerifyVRF(cl.g, pk, alpha, proof) == Returns(true))
    && (v.proofHashMatches <==> cl.sha256(proof) == c.proofHash)
    && (v.alphaHashMatches <==> cl.sha256(alpha) == c.alphaHash)
    && (v.memoHashMatches <==> cl.sha256(memo) == c.memoHash)
    && (v.valid <==> v.suiteSupported && v.ecvrfValid && v.proofHashMatches && v.alphaHashMatches && v.memoHashMatches)
    && v.reasons == Unless(v.suiteSupported, SuiteNotSupported(SuiteOf(suite)))
         + Unless(v.ecvrfValid, EcvrfVerifyFailed)
         + Unless(v.proofHashMatches, ProofHashMismatch(cl.sha256(proof), c.proofHash))
         + Unless(v.alphaHashMatches, AlphaHashMismatch) + Unless(v.memoHashMatches, MemoHashMismatch)
    && (if v.ecvrfValid then v.beta.Some? && ProofToHash(cl.g, proof) == Returns(v.beta.value) else v.beta == None)
  }

  /** An optional expectation, when given, is met. */
  predicate AsExpected<T(==)>(expected: Option<T>, actual: T) {
    expected.None? || actual == expected.value
  }

  /** The program whose addresses the verifier rederives. */
  function ProgramOf(cl: Client, q: Request): Registry.Program {
    if q.programId.Some? then cl.program.(id := q.programId.value) else cl.program
  }

  /** Everything the full verifier requires beyond the base verdict. */
  predicate LifecycleHolds(cl: Client, q: Request)
    requires |q.authority.labelBytes| == 32
  {
    var derived := ProgramOf(cl, q).AuthorityAddress(q.authority.owner, q.authority.labelBytes);
    && q.authority.frozen && !q.authority.revoked
    && AsExpected(q.expectedOwner, q.authority.owner) && AsExpected(q.expectedLabel, q.authority.labelBytes)
    && q.onChainCommit.authority == Some(derived) && AsExpected(q.expectedAddress, derived)
  }

  /** The full verdict: every flag is its check and the verdict is their conjunction. */
  ghost predicate FullVerdictOf(cl: Client, q: Request, v: FullVerdict)
    requires cl.g.q > 0
  {
    && |q.authority.labelBytes| == 32
    && BaseVerdict(cl, q.authority.pk, Some(q.authority.suite), q.alpha, q.proof, q.onChainCommit, q.memo, v.base)
    && AddressFlags(q, v, ProgramOf(cl, q).AuthorityAddress(q.authority.owner, q.authority.labelBytes))
    && v.authorityFrozen == q.authority.frozen && v.authorityNotRevoked == !q.authority.revoked
    && v.authorityOwnerMatches == AsExpected(q.expectedOwner, q.authority.owner)
    && v.authorityLabelMatches == AsExpected(q.expectedLabel, q.authority.labelBytes)
    && v.betaMatches == (if q.onChainBeta.Some? then Some(v.base.beta == q.onChainBeta) else None)
    && (v.valid <==>
          && v.base.valid && v.authorityFrozen && v.authorityNotRevoked && v.authorityOwnerMatches
          && v.authorityLabelMatches && v.commitAuthorityMatches && v.expectedAddressMatches
          && v.betaMatches != Some(false))
  }

  predicate AddressFlags(q: Request, v: FullVerdict, derived: bytes32) {
    && (v.commitAuthorityMatches <==> q.onChainCommit.authority == Some(derived))
    && v.expectedAddressMatches == AsExpected(q.expectedAddress, derived)
  }

  /** The reasons of the full verdict: those of the base verdict, then one for every further failed check. */
  function FullReasons(q: Request, v: FullVerdict): seq<Reason> {
    v.base.reasons
      + Unless(v.authorityFrozen, NotFrozen) + Unless(v.authorityNotRevoked, Revoked)
      + Unless(v.authorityOwnerMatches, OwnerMismatch) + Unless(v.authorityLabelMatches, LabelMismatch)
      + Unless(v.commitAuthorityMatches,
               if q.onChainCommit.authority.Some? then CommitAuthorityMismatch else CommitAuthorityMissing)
      + Unless(v.expectedAddressMatches, ExpectedAddressMismatch)
      + Unless(v.betaMatches != Some(false), OnChainBetaMismatch)
  }

  // ---------------------------------------------------------------- the code

  /** if (!holds) reasons.push(reason) */
  method PushUnless(reasons: seq<Reason>, holds: bool, reason: Reason) returns (r: seq<Reason>)
    ensures r == reasons + Unless(holds, reason)
  {
    r := reasons;
    if !holds { r := r + [reason]; }
  }

  /** Beta is computed for a valid proof, and then computing it does not throw. */
  method BetaOf(cl: Client, pk: bytes, alpha: bytes, proof: bytes, ecvrfValid: bool) returns (beta: Option<bytes>)
    requires cl.g.Valid() && (ecvrfValid ==> VerifyVRF(cl.g, pk, alpha, proof) == Returns(true))
    ensures if ecvrfValid then beta.Some? && ProofToHash(cl.g, proof) == Returns(beta.value) else beta == None
  {
    if !ecvrfValid { return None; }
    AcceptedProofHashes(cl.g, pk, alpha, proof);
    return Some(ProofToHash(cl.g, proof).value);
  }

  /** verifyEndToEnd: run every check, pushing a reason for each that fails. */
  method VerifyEndToEnd(cl: Client, pk: bytes, suite: Option<nat>, alpha: bytes, proof: bytes,
                        c: OnChainCommit, memo: bytes) returns (r: Outcome<Verdict>)
    requires cl.g.Valid()
    ensures r.Throws? <==> BaseThrows(cl, pk, suite, alpha, proof)
    ensures r.Throws? ==> r.error == VerifyVRF(cl.g, pk, alpha, proof).error
    ensures r.Returns? ==> BaseVerdict(cl, pk, suite, alpha, proof, c, memo, r.value)
  {
    var reasons: seq<Reason> := [];
    var suiteNumber := SuiteOf(suite);
    var suiteSupported := suiteNumber == Registry.SUITE_TAI;
    reasons := PushUnless(reasons, suiteSupported, SuiteNotSupported(suiteNumber));

    var verified := if suiteSupported then VerifyVRF(cl.g, pk, alpha, proof) else Returns(false);
    if verified.Throws? { return Throws(verified.error); }
    var ecvrfValid := verified.value;
    reasons := PushUnless(reasons, ecvrfValid, EcvrfVerifyFailed);

    var computedProofHash := cl.sha256(proof);
    var proofHashMatches := computedProofHash == c.proofHash;
    reasons := PushUnless(reasons, proofHashMatches, ProofHashMismatch(computedProofHash, c.proofHash));

    var alphaHashMatches := cl.sha256(alpha) == c.alphaHash;
    reasons := PushUnless(reasons, alphaHashMatches, AlphaHashMismatch);

    var memoHashMatches := cl.sha256(memo) == c.memoHash;
    reasons := PushUnless(reasons, memoHashMatches, MemoHashMismatch);

    var valid := suiteSupported && ecvrfValid && proofHashMatches && alphaHashMatches && memoHashMatches;
    var beta := BetaOf(cl, pk, alpha, proof, ecvrfValid);
    return Returns(Verdict(valid, ecvrfValid, suiteSupported, proofHashMatches, alphaHashMatches, memoHashMatches,
                           beta, reasons));
  }

  /** verifyAuthorityCommitEndToEnd: the base verdict, then the authority's lifecycle, address and beta. */
  method VerifyAuthorityCommit(cl: Client, q: Request) returns (r: Outcome<FullVerdict>)
    requires cl.g.Valid()
    ensures r.Throws? <==>
      BaseThrows(cl, q.authority.pk, Some(q.authority.suite), q.alpha, q.proof) || |q.authority.labelBytes| != 32
    ensures r.Throws? && BaseThrows(cl, q.authority.pk, Some(q.authority.suite), q.alpha, q.proof) ==>
      r.error == VerifyVRF(cl.g, q.authority.pk, q.alpha, q.proof).error
    ensures r.Throws? && !BaseThrows(cl, q.authority.pk, Some(q.authority.suite), q.alpha, q.proof) ==>
      r.error == BadLabelLength
    ensures r.Returns? ==> FullVerdictOf(cl, q, r.value)
    ensures r.Returns? ==> r.value.reasons == FullReasons(q, r.value)
  {
    hide BaseVerdict, BaseThrows, ProgramOf, VerifyVRF, Unless, AsExpected, Suite.Valid;
    var base := VerifyEndToEnd(cl, q.authority.pk, Some(q.authority.suite), q.alpha, q.proof, q.onChainCommit, q.memo);
    if base.Throws? { return Throws(base.error); }
    var reasons := base.value.reasons;

    var authorityFrozen := q.authority.frozen;
    reasons := PushUnless(reasons, authorityFrozen, NotFrozen);

    var authorityNotRevoked := !q.authority.revoked;
    reasons := PushUnless(reasons, authorityNotRevoked, Revoked);

    var authorityOwnerMatches := AsExpected(q.expectedOwner, q.authority.owner);
    reasons := PushUnless(reasons, authorityOwnerMatches, OwnerMismatch);

    var authorityLabelMatches := AsExpected(q.expectedLabel, q.authority.labelBytes);
    reasons := PushUnless(reasons, authorityLabelMatches, LabelMismatch);

    var derived := DeriveAuthorityAddress(q.authority.owner, q.authority.labelBytes, ProgramOf(cl, q));
    if derived.Throws? { return Throws(derived.error); }
    var commitAuthorityMatches := q.onChainCommit.authority == Some(derived.value);
    reasons := PushUnless(reasons, commitAuthorityMatches,
                          if q.onChainCommit.authority.Some? then CommitAuthorityMismatch else CommitAuthorityMissing);

    var expectedAddressMatches := AsExpected(q.expectedAddress, derived.value);
    reasons := PushUnless(reasons, expectedAddressMatches, ExpectedAddressMismatch);

    var betaMatches := if q.onChainBeta.Some? then Some(base.value.beta == Some(q.onChainBeta.value)) else None;
    reasons := PushUnless(reasons, betaMatches != Some(false), OnChainBetaMismatch);

    var valid := base.value.valid && authorityFrozen && authorityNotRevoked && authorityOwnerMatches
      && authorityLabelMatches && commitAuthorityMatches && expectedAddressMatches && betaMatches != Some(false);
    return Returns(FullVerdict(base.value, valid, reasons, authorityFrozen, authorityNotRevoked, authorityOwnerMatches,
                               authorityLabelMatches, commitAuthorityMatches, expectedAddressMatches, betaMatches));
  }

  // ---------------------------------------------------------------- consequences

  /** When the full verifier returns, it says valid exactly when this holds. */
  ghost predicate FullyValid(cl: Client, q: Request)
    requires cl.g.q > 0
  {
    && |q.authority.labelBytes| == 32 && q.authority.suite == Registry.SUITE_TAI
    && VerifyVRF(cl.g, q.authority.pk, q.alpha, q.proof) == Returns(true)
    && HashesMatch(cl, q.alpha, q.proof, q.memo, q.onChainCommit)
    && LifecycleHolds(cl, q)
    && (q.onChainBeta.Some? ==> ProofToHash(cl.g, q.proof) == Returns(q.onChainBeta.value))
  }

  /** A returned verdict is valid exactly when everything holds, and exactly when it carries no reason. */
  lemma VerdictMeaning(cl: Client, q: Request, v: FullVerdict)
    requires cl.g.Valid() && FullVerdictOf(cl, q, v) && v.reasons == FullReasons(q, v)
    ensures v.valid <==> FullyValid(cl, q)
    ensures v.valid <==> v.reasons == []
    ensures v.base.valid <==> v.base.reasons == []
  {
    BaseReasonsEmpty(cl, q.authority.pk, Some(q.authority.suite), q.alpha, q.proof, q.onChainCommit, q.memo, v.base);
  }

  lemma BaseReasonsEmpty(cl: Client, pk: bytes, suite: Option<nat>, alpha: bytes, proof: bytes,
                         c: OnChainCommit, memo: bytes, v: Verdict)
    requires cl.g.Valid() && BaseVerdict(cl, pk, suite, alpha, proof, c, memo, v)
    ensures v.valid <==> v.reasons == []
  {
  }

  /** An omitted suite counts as suite 3: whatever suite is given or left out, the base verdict is valid exactly when it
      is not another one, the proof verifies and the three hashes match; and only then can verifying throw. */
  lemma BaseVerdictIff(cl: Client, pk: bytes, suite: Option<nat>, alpha: bytes, proof: bytes,
                       c: OnChainCommit, memo: bytes, v: Verdict)
    requires cl.g.Valid()
    ensures BaseVerdict(cl, pk, suite, alpha, proof, c, memo, v) ==>
      && (v.valid <==> (suite == None || suite == Some(3)) && VerifyVRF(cl.g, pk, alpha, proof) == Returns(true)
                       && HashesMatch(cl, alpha, proof, memo, c))
      && v.suiteSupported == (suite == None || suite == Some(3))
    ensures BaseThrows(cl, pk, suite, alpha, proof) <==>
      (suite == None || suite == Some(3)) && VerifyVRF(cl.g, pk, alpha, proof).Throws?
  {
    hide VerifyVRF;
  }

  /** The full verdict spelled out: expectations count only when given, and the authority's address is rederived under
      the given program, or under the client's own. */
  lemma FullyValidIff(cl: Client, q: Request)
    requires cl.g.Valid()
    ensures FullyValid(cl, q) <==>
      && |q.authority.labelBytes| == 32 && q.authority.suite == 3 && q.authority.frozen && !q.authority.revoked
      && VerifyVRF(cl.g, q.authority.pk, q.alpha, q.proof) == Returns(true)
      && q.onChainCommit.proofHash == cl.sha256(q.proof) && q.onChainCommit.alphaHash == cl.sha256(q.alpha)
      && q.onChainCommit.memoHash == cl.sha256(q.memo)
      && (q.expectedOwner.Some? ==> q.expectedOwner.value == q.authority.owner)
      && (q.expectedLabel.Some? ==> q.expectedLabel.value == q.authority.labelBytes)
      && (q.onChainBeta.Some? ==> ProofToHash(cl.g, q.proof) == Returns(q.onChainBeta.value))
      && var program := if q.programId.Some? then cl.program.(id := q.programId.value) else cl.program;
         var address := Instructions.AuthorityAt(program, q.authority.owner, q.authority.labelBytes);
      && q.onChainCommit.authority == Some(address)
      && (q.expectedAddress.Some? ==> q.expectedAddress.value == address)
  {
    hide VerifyVRF, ProofToHash;
    if |q.authority.labelBytes| == 32 {
      Instructions.Seeds(ProgramOf(cl, q), q.authority.owner, q.authority.labelBytes);
    }
  }

  /** The thirteen reasons, each with its check, in the order in which they are given. */
  lemma BaseReasonsPinned(cl: Client, pk: bytes, suite: Option<nat>, alpha: bytes, proof: bytes,
                          c: OnChainCommit, memo: bytes, v: Verdict)
    requires cl.g.Valid() && BaseVerdict(cl, pk, suite, alpha, proof, c, memo, v)
    ensures var hashes := v.proofHashMatches && v.alphaHashMatches && v.memoHashMatches;
      && (hashes && suite.Some? && suite.value != 3 ==>
            v.reasons == [SuiteNotSupported(suite.value), EcvrfVerifyFailed])
      && (hashes && v.suiteSupported && !v.ecvrfValid ==> v.reasons == [EcvrfVerifyFailed])
      && (v.ecvrfValid && v.proofHashMatches && !v.alphaHashMatches && v.memoHashMatches ==>
            v.reasons == [AlphaHashMismatch])
      && (v.ecvrfValid && !v.proofHashMatches && !v.alphaHashMatches && !v.memoHashMatches ==>
            v.reasons == [ProofHashMismatch(cl.sha256(proof), c.proofHash), AlphaHashMismatch, MemoHashMismatch])
  {
    hide VerifyVRF, ProofToHash;
  }

  /** Every further reason stands alone when its check is the only one to fail, and all together come in this order. */
  lemma FurtherReasonsPinned(q: Request, v: FullVerdict)
    requires v.reasons == FullReasons(q, v)
    requires v.commitAuthorityMatches ==> q.onChainCommit.authority.Some?
    ensures
      var unbound := if q.onChainCommit.authority == None then CommitAuthorityMissing else CommitAuthorityMismatch;
      var owner, name, address := v.authorityOwnerMatches, v.authorityLabelMatches, v.expectedAddressMatches;
      var beta, rest := v.betaMatches != Some(false), owner && name && address;
      var flags := v.authorityFrozen && v.authorityNotRevoked && v.commitAuthorityMatches && beta;
      && (flags && !owner && name && address ==> v.reasons == v.base.reasons + [OwnerMismatch])
      && (flags && owner && !name && address ==> v.reasons == v.base.reasons + [LabelMismatch])
      && (flags && owner && name && !address ==> v.reasons == v.base.reasons + [ExpectedAddressMismatch])
      && (rest && !v.authorityFrozen && v.authorityNotRevoked && v.commitAuthorityMatches && beta ==>
            v.reasons == v.base.reasons + [NotFrozen])
      && (rest && v.authorityFrozen && !v.authorityNotRevoked && v.commitAuthorityMatches && beta ==>
            v.reasons == v.base.reasons + [Revoked])
      && (rest && v.authorityFrozen && v.authorityNotRevoked && !v.commitAuthorityMatches && beta ==>
            v.reasons == v.base.reasons + [unbound])
      && (rest && v.authorityFrozen && v.authorityNotRevoked && v.commitAuthorityMatches && !beta ==>
            v.reasons == v.base.reasons + [OnChainBetaMismatch])
  {
  }

  lemma FurtherReasonsOrdered(q: Request, v: FullVerdict)
    requires v.reasons == FullReasons(q, v)
    requires !v.authorityFrozen && !v.authorityNotRevoked && !v.authorityOwnerMatches && !v.authorityLabelMatches
    requires !v.commitAuthorityMatches && !v.expectedAddressMatches && v.betaMatches == Some(false)
    ensures v.reasons == v.base.reasons
      + [NotFrozen, Revoked, OwnerMismatch, LabelMismatch,
         if q.onChainCommit.authority == None then CommitAuthorityMissing else CommitAuthorityMismatch,
         ExpectedAddressMismatch, OnChainBetaMismatch]
  {
  }

  // ---------------------------------------------------------------- pickCanonicalCommit

  datatype Picked = Picked(
    canonical: Option<OnChainCommit>, candidates: seq<OnChainCommit>,
    duplicateMemoEvents: bool, multipleVerifying: bool)

  /** The candidates with the given proof hash, in order. */
  function Matching(candidates: seq<OnChainCommit>, proofHash: bytes): (m: seq<OnChainCommit>) {
    if candidates == [] then []
    else (if candidates[0].proofHash == proofHash then [candidates[0]] else []) + Matching(candidates[1..], proofHash)
  }

  function PickCanonicalCommit(cl: Client, candidates: seq<OnChainCommit>, proof: bytes): Picked {
    var matching := Matching(candidates, cl.sha256(proof));
    Picked(if matching == [] then None else Some(matching[0]), candidates, |candidates| > 1, |matching| > 1)
  }

  /** The candidates are handed back, and more than one counts as duplicates, whatever their hashes. */
  lemma PickReports(cl: Client, candidates: seq<OnChainCommit>, proof: bytes)
    ensures var r := PickCanonicalCommit(cl, candidates, proof);
      r.candidates == candidates && (r.duplicateMemoEvents <==> |candidates| >= 2)
  {
  }

  /** The first candidate with the proof's hash is picked; nothing is picked exactly when there is none;
      and two of them are reported exactly when there are two. */
  lemma {:induction false} PickedIsFirst(cl: Client, candidates: seq<OnChainCommit>, proof: bytes) returns (k: nat)
    ensures var r := PickCanonicalCommit(cl, candidates, proof);
      && k <= |candidates| && (forall i :: 0 <= i < k ==> candidates[i].proofHash != cl.sha256(proof))
      && (if k < |candidates| then candidates[k].proofHash == cl.sha256(proof) && r.canonical == Some(candidates[k])
          else r.canonical == None && !r.multipleVerifying)
      && (r.multipleVerifying <==>
            exists i :: k < i < |candidates| && candidates[i].proofHash == cl.sha256(proof))
    decreases |candidates|
  {
    var h := cl.sha256(proof);
    if candidates == [] {
      k := 0;
    } else if candidates[0].proofHash == h {
      k := 0;
      MatchingNonEmpty(candidates[1..], h);
      var rest := candidates[1..];
      assert forall i :: 0 < i < |candidates| ==> candidates[i] == rest[i - 1];
      if i :| 0 <= i < |rest| && rest[i].proofHash == h { assert candidates[i + 1].proofHash == h; }
    } else {
      var rest := candidates[1..];
      var j := PickedIsFirst(cl, rest, proof);
      k := j + 1;
      assert Matching(candidates, h) == Matching(rest, h);
      assert forall i :: 0 < i < |candidates| ==> candidates[i] == rest[i - 1];
      if i :| j < i < |rest| && rest[i].proofHash == h { assert candidates[i + 1].proofHash == h; }
    }
  }

  lemma {:induction false} MatchingNonEmpty(candidates: seq<OnChainCommit>, h: bytes)
    ensures Matching(candidates, h) != [] <==> exists i :: 0 <= i < |candidates| && candidates[i].proofHash == h
    decreases |candidates|
  {
    if candidates != [] {
      var rest := candidates[1..];
      MatchingNonEmpty(rest, h);
      assert forall i :: 0 < i < |candidates| ==> candidates[i] == rest[i - 1];
      if i :| 0 <= i < |rest| && rest[i].proofHash == h { assert candidates[i + 1].proofHash == h; }
    }
  }

  // ---------------------------------------------------------------- when the pick is right

  /** The first candidate with this proof hash has this alpha hash. */
  ghost predicate FirstIsRight(candidates: seq<OnChainCommit>, proofHash: bytes, alphaHash: bytes) {
    exists k :: 0 <= k < |candidates| && IsFirst(candidates, proofHash, k) && candidates[k].alphaHash == alphaHash
  }

  ghost predicate IsFirst(candidates: seq<OnChainCommit>, proofHash: bytes, k: nat)
    requires k < |candidates|
  {
    candidates[k].proofHash == proofHash && forall i :: 0 <= i < k ==> candidates[i].proofHash != proofHash
  }

  /** All candidates with this proof hash have this alpha hash. */
  ghost predicate AllRight(candidates: seq<OnChainCommit>, proofHash: bytes, alphaHash: bytes) {
    forall c :: c in candidates && c.proofHash == proofHash ==> c.alphaHash == alphaHash
  }

  predicate PicksAlpha(cl: Client, candidates: seq<OnChainCommit>, proof: bytes, alphaHash: bytes) {
    var picked := PickCanonicalCommit(cl, candidates, proof).canonical;
    picked.Some? && picked.value.alphaHash == alphaHash
  }

  /** In the given order: a candidate with the right alpha hash is picked if and only if the first candidate with the
      proof's hash is right. */
  lemma PicksAlphaIff(cl: Client, candidates: seq<OnChainCommit>, proof: bytes, alphaHash: bytes)
    ensures PicksAlpha(cl, candidates, proof, alphaHash) <==> FirstIsRight(candidates, cl.sha256(proof), alphaHash)
  {
    hide PickCanonicalCommit;
    var k := PickedIsFirst(cl, candidates, proof);
    if k < |candidates| {
      assert IsFirst(candidates, cl.sha256(proof), k);
      forall j | 0 <= j < |candidates| && IsFirst(candidates, cl.sha256(proof), j) ensures j == k {}
    }
  }

  /** In every order: a candidate with the right alpha hash is always picked if and only if there is a candidate with
      the proof's hash and all of them are right. */
  lemma PicksAlphaInEveryOrderIff(cl: Client, candidates: seq<OnChainCommit>, proof: bytes, alphaHash: bytes)
    ensures (forall order :: multiset(order) == multiset(candidates) ==> PicksAlpha(cl, order, proof, alphaHash))
      <==> (exists c :: c in candidates && c.proofHash == cl.sha256(proof))
           && AllRight(candidates, cl.sha256(proof), alphaHash)
  {
    hide PicksAlpha;
    var h := cl.sha256(proof);
    if (exists c :: c in candidates && c.proofHash == h) && AllRight(candidates, h, alphaHash) {
      forall order | multiset(order) == multiset(candidates) ensures PicksAlpha(cl, order, proof, alphaHash) {
        SameElements(order, candidates);
        var k := PickedIsFirst(cl, order, proof);
        if k < |order| { assert IsFirst(order, h, k); }
        PicksAlphaIff(cl, order, proof, alphaHash);
      }
    } else if forall order :: multiset(order) == multiset(candidates) ==> PicksAlpha(cl, order, proof, alphaHash) {
      PicksAlphaIff(cl, candidates, proof, alphaHash);
      forall c | c in candidates && c.proofHash == h ensures c.alphaHash == alphaHash {
        var order := BroughtForward(candidates, c);
        PicksAlphaIff(cl, order, proof, alphaHash);
        assert IsFirst(order, h, 0);
      }
    }
  }

  lemma SameElements<T>(a: seq<T>, b: seq<T>)
    requires multiset(a) == multiset(b)
    ensures forall x :: x in a <==> x in b
  {
    forall x ensures x in a <==> x in b { assert x in multiset(a) <==> x in multiset(b); }
  }

  /** The same elements with one of them in front. */
  lemma BroughtForward<T>(s: seq<T>, x: T) returns (r: seq<T>)
    requires x in s
    ensures multiset(r) == multiset(s) && r != [] && r[0] == x
  {
    var i :| 0 <= i < |s| && s[i] == x;
    assert s == s[..i] + [x] + s[i + 1..];
    r := [x] + s[..i] + s[i + 1..];
  }
}
