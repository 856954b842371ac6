/** From a built instruction through the chain to the verdict: the promises that span operations.ts, the program and
    verifyEndToEnd.ts. SHA-256 and the address derivation are never assumed injective: where a promise needs it, the
    alternative is a concrete collision. */
module EndToEnd {
  import opened Common
  import opened Ciphersuite
  import opened Keypair
  import opened Ecvrf
  import opened Registry
  import opened Addresses
  import opened Verdicts
  import opened Operations
  import opened Scan

  // ---------------------------------------------------------------- requests

  /** What a consumer asks about a fetched authority and a fetched commitment. */
  function RequestFor(a: FetchedAuthority, c: OnChainCommit, input: CommitInput, beta: Option<bytes>): Request {
    Request(OnChain(a), c, input.alpha, input.proof, input.memo,
            Some(input.owner), Some(input.labelBytes), Some(a.address), None, beta)
  }

  /** Neither verifier throws, and the base verdict is valid. */
  ghost predicate BaseValid(cl: Client, q: Request)
    requires cl.g.q > 0
  {
    && q.authority.suite == SUITE_TAI && |q.authority.labelBytes| == 32
    && VerifyVRF(cl.g, q.authority.pk, q.alpha, q.proof) == Returns(true) && ProofToHash(cl.g, q.proof).Returns?
    && HashesMatch(cl, q.alpha, q.proof, q.memo, q.onChainCommit)
  }

  /** The base verdict is valid, and the full verdict is valid exactly until revocation. */
  ghost predicate ValidUntilRevoked(cl: Client, q: Request)
    requires cl.g.q > 0
  {
    BaseValid(cl, q) && (FullyValid(cl, q) <==> !q.authority.revoked)
  }

  /** In terms of the verifiers themselves. */
  method VerdictsUntilRevoked(cl: Client, q: Request) returns (base: Verdict, full: FullVerdict)
    requires cl.g.Valid() && BaseValid(cl, q)
    ensures base.valid && base.beta.Some? && ProofToHash(cl.g, q.proof) == Returns(base.beta.value)
    ensures full.base == base && (full.valid <==> FullyValid(cl, q))
    ensures ValidUntilRevoked(cl, q) ==> (full.valid <==> !q.authority.revoked)
  {
    var b := VerifyEndToEnd(cl, q.authority.pk, Some(q.authority.suite), q.alpha, q.proof, q.onChainCommit, q.memo);
    var f := VerifyAuthorityCommit(cl, q);
    VerdictMeaning(cl, q, f.value);
    return b.value, f.value;
  }

  // ---------------------------------------------------------------- an applied commit stays

  /** The leaf a registry instruction writes. */
  function RecordOf(ix: Instruction, slot: nat): Leaf
    requires ix.CommitProof? || ix.CommitProofWithBeta?
  {
    var c := Commit(ix.address, ix.memoHash, ix.proofHash, ix.alphaHash, slot);
    if ix.CommitProof? then CommitLeaf(c) else BetaLeaf(c, ix.betaLo, ix.betaHi)
  }

  /** The run in which an instruction is applied at some point. */
  function Applied(before: seq<Action>, ix: Instruction, after: seq<Action>): seq<Action> {
    before + [Submit(ix)] + after
  }

  lemma AfterApplied(p: Program, before: seq<Action>, ix: Instruction)
    requires Step(p, After(p, before), ix).Ok?
    ensures After(p, before + [Submit(ix)]) == Step(p, After(p, before), ix).state
  {
    assert (before + [Submit(ix)])[..|before|] == before;
  }

  /** Once an authority is current, its later leaf differs at most in the two flags, and still sits at its address. */
  lemma AuthorityPersists(p: Program, run: seq<Action>, more: seq<Action>, address: bytes32, d: Authority)
    requires IsCurrent(After(p, run), address, d)
    ensures var s := After(p, run + more);
      && address in s.leaves && LeafKept(AuthorityLeaf(d), s.leaves[address])
      && s.leaves[address].authority.suite == SUITE_TAI
      && address == p.AuthorityAddress(d.owner, d.labelBytes)
  {
    RunKeeps(p, run, more);
    RunSound(p, run + more);
    var s := After(p, run + more);
    assert WellPlaced(p, s, address, s.leaves[address]);
  }

  /** Once a registry commit is applied, its record is there in every later state, exactly as written. */
  lemma RecordPersists(p: Program, before: seq<Action>, ix: Instruction, after: seq<Action>)
    requires ix.CommitProof? || ix.CommitProofWithBeta?
    requires Step(p, After(p, before), ix).Ok?
    ensures var s, address := After(p, Applied(before, ix, after)), p.CommitAddress(ix.address, ix.memoHash);
      && ix.current.owner == ix.signer && ix.current.frozen && IsCurrent(After(p, before), ix.address, ix.current)
      && address in s.leaves && s.leaves[address] == RecordOf(ix, After(p, before).slot)
  {
    AfterApplied(p, before, ix);
    RunKeeps(p, before + [Submit(ix)], after);
  }

  /** The verdict on a record of a vetted input, once its authority's later leaf is known. */
  lemma VettedVerdict(cl: Client, input: CommitInput, a: FetchedAuthority, d: Authority, c: OnChainCommit,
                      beta: Option<bytes>)
    requires cl.g.Valid()
    requires VerifyVRF(cl.g, d.pk, input.alpha, input.proof) == Returns(true)
    requires LeafKept(AuthorityLeaf(d), AuthorityLeaf(a.decoded))
    requires d.frozen && d.owner == input.owner && |input.labelBytes| == 32 && a.decoded.suite == SUITE_TAI
    requires a.address == cl.program.AuthorityAddress(d.owner, d.labelBytes)
    requires c.authority == Some(a.address) && HashesMatch(cl, input.alpha, input.proof, input.memo, c)
    requires beta.Some? ==> ProofToHash(cl.g, input.proof) == Returns(beta.value)
    ensures BaseValid(cl, RequestFor(a, c, input, beta))
    ensures FullyValid(cl, RequestFor(a, c, input, beta)) <==>
      !a.decoded.revoked && a.decoded.labelBytes == input.labelBytes
  {
    AcceptedProofHashes(cl.g, d.pk, input.alpha, input.proof);
    hide VerifyVRF, ProofToHash;
  }

  // ---------------------------------------------------------------- registry mode

  lemma BuiltCommit(cl: Client, s: State, input: CommitInput) returns (ix: Instruction)
    requires cl.g.Valid() && BuildCommitProof(cl, s, input).Returns?
    ensures BuildCommitProof(cl, s, input) == Returns(ix) && ix.CommitProof? && CarriesHashes(cl, ix, input)
    ensures CheckedAuthority(cl, s, input) == Returns(FetchedAuthority(ix.address, ix.current))
    ensures ix.signer == input.owner
  {
    hide CheckedAuthority;
    ix := BuildCommitProof(cl, s, input).value;
  }

  lemma BuiltCommitWithBeta(cl: Client, s: State, input: CommitInput, beta: bytes) returns (ix: Instruction)
    requires cl.g.Valid() && BuildCommitProofWithBeta(cl, s, input, beta).Returns?
    ensures BuildCommitProofWithBeta(cl, s, input, beta) == Returns(ix)
    ensures ix.CommitProofWithBeta? && CarriesHashes(cl, ix, input) && ix.betaLo + ix.betaHi == beta
    ensures CheckedAuthority(cl, s, input) == Returns(FetchedAuthority(ix.address, ix.current))
    ensures ix.signer == input.owner && ProofToHash(cl.g, input.proof) == Returns(beta)
  {
    hide CheckedAuthority, ProofToHash;
    ix := BuildCommitProofWithBeta(cl, s, input, beta).value;
    assert beta == beta[..32] + beta[32..64];
  }

  lemma FetchRecord(cl: Client, before: seq<Action>, ix: Instruction, after: seq<Action>, memo: bytes)
    returns (c: OnChainCommit)
    requires ix.CommitProof? && Step(cl.program, After(cl.program, before), ix).Ok?
    requires ix.memoHash == cl.sha256(memo)
    ensures FetchProofCommit(cl, After(cl.program, Applied(before, ix, after)), ix.address, memo) == Returns(Some(c))
    ensures c.authority == Some(ix.address) && c.committedSlot == After(cl.program, before).slot
    ensures c.memoHash == ix.memoHash && c.proofHash == ix.proofHash && c.alphaHash == ix.alphaHash
  {
    hide Step, After;
    RecordPersists(cl.program, before, ix, after);
    c := CommitView(RecordOf(ix, After(cl.program, before).slot).commit);
  }

  lemma FetchRecordWithBeta(cl: Client, before: seq<Action>, ix: Instruction, after: seq<Action>, memo: bytes)
    returns (f: FetchedBeta)
    requires ix.CommitProofWithBeta? && Step(cl.program, After(cl.program, before), ix).Ok?
    requires ix.memoHash == cl.sha256(memo)
    ensures FetchProofCommitWithBeta(cl, After(cl.program, Applied(before, ix, after)), ix.address, memo)
      == Returns(Some(f))
    ensures f.beta == ix.betaLo + ix.betaHi && f.onChainCommit.authority == Some(ix.address)
    ensures f.onChainCommit.committedSlot == After(cl.program, before).slot
    ensures f.onChainCommit.memoHash == ix.memoHash && f.onChainCommit.proofHash == ix.proofHash
    ensures f.onChainCommit.alphaHash == ix.alphaHash
  {
    hide Step, After;
    RecordPersists(cl.program, before, ix, after);
    f := FetchedBeta(CommitView(RecordOf(ix, After(cl.program, before).slot).commit), ix.betaLo + ix.betaHi);
  }

  /** Builder to chain to verifier. If a builder's checks pass on a fetched state and its instruction is applied in a
      possibly later state, then in every state from there on the authority and the record can be fetched, the base
      verdict on them is valid, and the full verdict is valid exactly until that authority is revoked; unless the stored
      label is not the requested one but derives the same address, and then the full verdict is never valid. */
  lemma RegistryCommitVerifies(cl: Client, before: seq<Action>, waiting: seq<Action>, after: seq<Action>,
                               input: CommitInput) returns (a: FetchedAuthority, c: OnChainCommit)
    requires cl.g.Valid()
    requires BuildCommitProof(cl, After(cl.program, before), input).Returns?
    requires Step(cl.program, After(cl.program, before + waiting),
                  BuildCommitProof(cl, After(cl.program, before), input).value).Ok?
    ensures var ix := BuildCommitProof(cl, After(cl.program, before), input).value;
      var s := After(cl.program, Applied(before + waiting, ix, after));
      && FetchAuthority(cl, s, input.owner, input.labelBytes) == Returns(Some(a))
      && FetchProofCommit(cl, s, a.address, input.memo) == Returns(Some(c))
    ensures c.committedSlot == After(cl.program, before + waiting).slot
    ensures BaseValid(cl, RequestFor(a, c, input, None))
    ensures FullyValid(cl, RequestFor(a, c, input, None)) <==> !a.decoded.revoked && !LabelCollision(cl, input, a)
  {
    var p := cl.program;
    var ix := BuiltCommit(cl, After(p, before), input);
    hide VerifyVRF, Step, After, BuildCommitProof, CheckedAuthority, FetchAuthority, FetchProofCommit, BaseValid,
         FullyValid;
    a := AppliedAuthority(cl, before, waiting, after, input, ix);
    c := FetchRecord(cl, before + waiting, ix, after, input.memo);
    VettedVerdict(cl, input, a, ix.current, c, None);
  }

  /** The stored label is not the requested one, though both derive the same address. */
  predicate LabelCollision(cl: Client, input: CommitInput, a: FetchedAuthority) {
    && |input.labelBytes| == 32 && a.decoded.labelBytes != input.labelBytes
    && cl.program.AuthorityAddress(input.owner, a.decoded.labelBytes)
       == cl.program.AuthorityAddress(input.owner, input.labelBytes)
  }

  /** The authority of an applied instruction, as fetched in a later state. */
  lemma AppliedAuthority(cl: Client, before: seq<Action>, waiting: seq<Action>, after: seq<Action>,
                         input: CommitInput, ix: Instruction) returns (a: FetchedAuthority)
    requires cl.g.Valid() && CheckedAuthority(cl, After(cl.program, before), input).Returns?
    requires ix.CommitProof? || ix.CommitProofWithBeta? || ix.CommitProofEvent?
    requires var checked := CheckedAuthority(cl, After(cl.program, before), input).value;
      ix.address == checked.address && ix.current == checked.decoded && ix.signer == input.owner
    requires Step(cl.program, After(cl.program, before + waiting), ix).Ok?
    ensures var s := After(cl.program, Applied(before + waiting, ix, after));
      FetchAuthority(cl, s, input.owner, input.labelBytes) == Returns(Some(a))
    ensures a.address == ix.address == cl.program.AuthorityAddress(ix.current.owner, ix.current.labelBytes)
    ensures a.decoded.suite == SUITE_TAI && LeafKept(AuthorityLeaf(ix.current), AuthorityLeaf(a.decoded))
    ensures ix.current.owner == input.owner && ix.current.frozen
    ensures VerifyVRF(cl.g, ix.current.pk, input.alpha, input.proof) == Returns(true)
    ensures |input.labelBytes| == 32 && a.address == cl.program.AuthorityAddress(input.owner, input.labelBytes)
  {
    hide VerifyVRF;
    var p := cl.program;
    CheckedIsVetted(cl, After(p, before), input);
    var run := before + waiting;
    var s := After(p, Applied(run, ix, after));
    assert Applied(run, ix, after) == run + ([Submit(ix)] + after);
    AuthorityPersists(p, run, [Submit(ix)] + after, ix.address, ix.current);
    a := FetchedAuthority(ix.address, s.leaves[ix.address].authority);
  }

  /** The same for the record with a beta: the two stored halves reassemble to the proof's own beta. */
  lemma BetaCommitVerifies(cl: Client, before: seq<Action>, waiting: seq<Action>, after: seq<Action>,
                           input: CommitInput, beta: bytes) returns (a: FetchedAuthority, f: FetchedBeta)
    requires cl.g.Valid()
    requires BuildCommitProofWithBeta(cl, After(cl.program, before), input, beta).Returns?
    requires Step(cl.program, After(cl.program, before + waiting),
                  BuildCommitProofWithBeta(cl, After(cl.program, before), input, beta).value).Ok?
    ensures var ix := BuildCommitProofWithBeta(cl, After(cl.program, before), input, beta).value;
      var s := After(cl.program, Applied(before + waiting, ix, after));
      && FetchAuthority(cl, s, input.owner, input.labelBytes) == Returns(Some(a))
      && FetchProofCommitWithBeta(cl, s, a.address, input.memo) == Returns(Some(f))
    ensures f.beta == beta && ProofToHash(cl.g, input.proof) == Returns(f.beta)
    ensures f.onChainCommit.committedSlot == After(cl.program, before + waiting).slot
    ensures BaseValid(cl, RequestFor(a, f.onChainCommit, input, Some(f.beta)))
    ensures FullyValid(cl, RequestFor(a, f.onChainCommit, input, Some(f.beta))) <==>
      !a.decoded.revoked && !LabelCollision(cl, input, a)
  {
    var p := cl.program;
    var ix := BuiltCommitWithBeta(cl, After(p, before), input, beta);
    hide VerifyVRF, ProofToHash, Step, After, BuildCommitProofWithBeta, CheckedAuthority, FetchAuthority,
         FetchProofCommitWithBeta, BaseValid, FullyValid;
    a := AppliedAuthority(cl, before, waiting, after, input, ix);
    f := FetchRecordWithBeta(cl, before + waiting, ix, after, input.memo);
    VettedVerdict(cl, input, a, ix.current, f.onChainCommit, Some(beta));
  }

  // ---------------------------------------------------------------- outcome binding

  /** A commitment fetched from the registry, by either fetch function. */
  predicate FetchedFrom(cl: Client, s: State, authority: bytes32, memo: bytes, c: OnChainCommit) {
    || FetchProofCommit(cl, s, authority, memo) == Returns(Some(c))
    || (FetchProofCommitWithBeta(cl, s, authority, memo).Returns?
        && FetchProofCommitWithBeta(cl, s, authority, memo).value.Some?
        && FetchProofCommitWithBeta(cl, s, authority, memo).value.value.onChainCommit == c)
  }

  /** What is fetched is, up to the slot, the record stored at the address. */
  lemma FetchedIsStored(cl: Client, s: State, authority: bytes32, memo: bytes, c: OnChainCommit)
    requires FetchedFrom(cl, s, authority, memo, c)
    ensures var address := cl.program.CommitAddress(authority, cl.sha256(memo));
      && address in s.leaves && s.leaves[address].IsRecord()
      && c.(committedSlot := 0) == CommitView(s.leaves[address].commit).(committedSlot := 0)
  {
  }

  /** Outcome binding over whole runs: for one authority and memo, two valid verdicts on records fetched at any two
      states of a run are about the same proof, the same input and the same beta, or SHA-256 collides on the proofs or
      on the inputs. */
  lemma OutcomeBinding(cl: Client, run: seq<Action>, m: nat, n: nat, authority: bytes32, memo: bytes,
                       q: Request, q': Request)
    requires cl.g.Valid() && m <= |run| && n <= |run|
    requires FetchedFrom(cl, After(cl.program, run[..m]), authority, memo, q.onChainCommit) && FullyValid(cl, q)
    requires FetchedFrom(cl, After(cl.program, run[..n]), authority, memo, q'.onChainCommit) && FullyValid(cl, q')
    ensures (q.proof == q'.proof && q.alpha == q'.alpha
             && ProofToHash(cl.g, q.proof) == ProofToHash(cl.g, q'.proof) && ProofToHash(cl.g, q.proof).Returns?)
      || Collision(cl.sha256, q.proof, q'.proof) || Collision(cl.sha256, q.alpha, q'.alpha)
  {
    hide VerifyVRF, ProofToHash, Suite.Valid;
    FetchedIsStored(cl, After(cl.program, run[..m]), authority, memo, q.onChainCommit);
    FetchedIsStored(cl, After(cl.program, run[..n]), authority, memo, q'.onChainCommit);
    SameRecord(cl.program, run, m, n, cl.program.CommitAddress(authority, cl.sha256(memo)));
    AcceptedProofHashes(cl.g, q.authority.pk, q.alpha, q.proof);
  }

  /** A record address holds one record throughout a run. */
  lemma SameRecord(p: Program, run: seq<Action>, m: nat, n: nat, address: bytes32)
    requires m <= |run| && n <= |run|
    requires address in After(p, run[..m]).leaves && After(p, run[..m]).leaves[address].IsRecord()
    requires address in After(p, run[..n]).leaves && After(p, run[..n]).leaves[address].IsRecord()
    ensures After(p, run[..m]).leaves[address] == After(p, run[..n]).leaves[address]
  {
    var lo, hi := if m <= n then m else n, if m <= n then n else m;
    assert run[..hi] == run[..lo] + run[lo..hi];
    RunKeeps(p, run[..lo], run[lo..hi]);
  }

  /** The key is bound as well: an authority fetched at any two states of a run shows the same key, suite and owner. */
  lemma KeyBinding(cl: Client, run: seq<Action>, m: nat, n: nat, owner: bytes32, labelBytes: bytes,
                   a: FetchedAuthority, a': FetchedAuthority)
    requires m <= |run| && n <= |run|
    requires FetchAuthority(cl, After(cl.program, run[..m]), owner, labelBytes) == Returns(Some(a))
    requires FetchAuthority(cl, After(cl.program, run[..n]), owner, labelBytes) == Returns(Some(a'))
    ensures a.address == a'.address && a.decoded.pk == a'.decoded.pk && a.decoded.owner == a'.decoded.owner
    ensures a.decoded.suite == a'.decoded.suite == SUITE_TAI && a.decoded.labelBytes == a'.decoded.labelBytes
    ensures m <= n ==> (a.decoded.frozen ==> a'.decoded.frozen) && (a.decoded.revoked ==> a'.decoded.revoked)
  {
    var lo, hi := if m <= n then m else n, if m <= n then n else m;
    assert run[..hi] == run[..lo] + run[lo..hi];
    var first := if m <= n then a else a';
    AuthorityPersists(cl.program, run[..lo], run[lo..hi], first.address, first.decoded);
  }

  // ---------------------------------------------------------------- event mode

  /** An honest RPC: every event of the owner in the chain's log is in a transaction of the owner's history that did
      not fail, and shows in its logs whenever these are served. */
  ghost predicate Serves(rpc: Rpc, owner: bytes32, log: seq<Event>) {
    forall e :: e in log && e.owner == owner ==> exists info :: info in rpc.history && ShowsIfServed(rpc, info, e)
  }

  ghost predicate ShowsIfServed(rpc: Rpc, info: SignatureInfo, e: Event) {
    && !info.err
    && (rpc.fetch(info.signature).Some? && rpc.fetch(info.signature).value.logs.Some? ==>
          Committed(e) in rpc.fetch(info.signature).value.logs.value)
  }

  /** Every fetched transaction that did not fail has its logs. */
  ghost predicate LogsPresent(rpc: Rpc) {
    forall info :: info in rpc.history && !info.err && rpc.fetch(info.signature).Some? ==>
      rpc.fetch(info.signature).value.logs.Some?
  }

  function QueryOf(cl: Client, input: CommitInput): Query {
    Query(input.owner, input.labelBytes, cl.sha256(input.memo))
  }

  function Candidates(events: seq<FoundEvent>): (c: seq<OnChainCommit>)
    ensures |c| == |events| && forall i :: 0 <= i < |c| ==> c[i] == events[i].onChainCommit
  {
    seq(|events|, i requires 0 <= i < |events| => events[i].onChainCommit)
  }

  /** Every event a complete scan finds belongs to the queried authority and memo. */
  lemma FoundBelongs(cl: Client, q: Query, rpc: Rpc, limit: int, f: FoundEvent)
    requires f in ScannedTo(cl.program, q, rpc, limit).events && !ScannedTo(cl.program, q, rpc, limit).truncated
    ensures |q.labelBytes| == 32 && f.onChainCommit.memoHash == q.memoHash
    ensures f.onChainCommit.authority == Some(cl.program.AuthorityAddress(q.owner, q.labelBytes))
  {
    ScanComplete(cl.program, q, rpc, limit, f);
  }

  /** A served event of the query is found by a complete scan. */
  lemma ServedIsFound(cl: Client, q: Query, rpc: Rpc, limit: int, e: Event, log: seq<Event>) returns (f: FoundEvent)
    requires Serves(rpc, q.owner, log) && e in log && Matches(q, Committed(e))
    requires var r := ScannedTo(cl.program, q, rpc, limit);
      !r.truncated && r.unfetchedSignatures == [] && LogsPresent(rpc)
    ensures f in ScannedTo(cl.program, q, rpc, limit).events
    ensures f.onChainCommit.proofHash == e.proofHash && f.onChainCommit.alphaHash == e.alphaHash
  {
    var info :| info in rpc.history && ShowsIfServed(rpc, info, e);
    assert rpc.history[..Covered(rpc, limit)] == rpc.history;
    UnfetchedContains(rpc, rpc.history, info.signature);
    assert rpc.fetch(info.signature).Some?;
    f := Found(cl.program, info.signature, rpc.fetch(info.signature).value.slot, e);
    assert Holds(cl.program, q, rpc, info, f);
    ScanComplete(cl.program, q, rpc, limit, f);
  }

  /** An applied event instruction leaves its event in the log for good. */
  lemma EventPersists(p: Program, before: seq<Action>, ix: Instruction, after: seq<Action>) returns (e: Event)
    requires ix.CommitProofEvent? && Step(p, After(p, before), ix).Ok?
    ensures e in After(p, Applied(before, ix, after)).log
    ensures e == Event(ix.signer, ix.labelBytes, ix.memoHash, ix.proofHash, ix.alphaHash, After(p, before).slot)
    ensures ix.current.labelBytes == ix.labelBytes
  {
    AfterApplied(p, before, ix);
    RunKeeps(p, before + [Submit(ix)], after);
    e := Event(ix.signer, ix.labelBytes, ix.memoHash, ix.proofHash, ix.alphaHash, After(p, before).slot);
    var log := After(p, before + [Submit(ix)]).log;
    assert log[|log| - 1] == e;
    assert After(p, Applied(before, ix, after)).log[|log| - 1] == e;
  }

  // ---------------------------------------------------------------- picking among candidates

  /** A fetched authority that a proof for this input verifies against: what a builder has checked, without the
      revoked flag. */
  ghost predicate CoversInput(cl: Client, input: CommitInput, a: FetchedAuthority)
    requires cl.g.q > 0
  {
    && a.decoded.owner == input.owner && a.decoded.labelBytes == input.labelBytes
    && a.decoded.frozen && a.decoded.suite == SUITE_TAI
    && a.address == cl.program.AuthorityAddress(a.decoded.owner, a.decoded.labelBytes)
    && VerifyVRF(cl.g, a.decoded.pk, input.alpha, input.proof) == Returns(true)
  }

  /** The candidates are commitments of this authority to this memo. */
  ghost predicate Belong(cl: Client, input: CommitInput, a: FetchedAuthority, candidates: seq<OnChainCommit>) {
    forall c :: c in candidates ==> c.authority == Some(a.address) && c.memoHash == cl.sha256(input.memo)
  }

  /** Some candidate is picked, and its verdict is valid until revocation. */
  ghost predicate PickVerifies(cl: Client, input: CommitInput, a: FetchedAuthority, candidates: seq<OnChainCommit>)
    requires cl.g.q > 0
  {
    var picked := PickCanonicalCommit(cl, candidates, input.proof).canonical;
    picked.Some? && ValidUntilRevoked(cl, RequestFor(a, picked.value, input, None))
  }

  lemma CandidateVerdict(cl: Client, input: CommitInput, a: FetchedAuthority, c: OnChainCommit)
    requires cl.g.Valid() && CoversInput(cl, input, a)
    requires c.authority == Some(a.address) && c.memoHash == cl.sha256(input.memo)
    requires c.proofHash == cl.sha256(input.proof)
    ensures ValidUntilRevoked(cl, RequestFor(a, c, input, None)) <==> c.alphaHash == cl.sha256(input.alpha)
    ensures FullyValid(cl, RequestFor(a, c, input, None)) ==> c.alphaHash == cl.sha256(input.alpha)
  {
    hide VerifyVRF;
    if c.alphaHash == cl.sha256(input.alpha) { VettedVerdict(cl, input, a, a.decoded, c, None); }
  }

  /** In the given order: the pick verifies until revocation if and only if the first candidate with the proof's hash
      has the input's hash; a pick with another input hash is never valid. */
  lemma PickVerifiesIff(cl: Client, input: CommitInput, a: FetchedAuthority, candidates: seq<OnChainCommit>)
    requires cl.g.Valid() && CoversInput(cl, input, a) && Belong(cl, input, a, candidates)
    ensures var picked := PickCanonicalCommit(cl, candidates, input.proof).canonical;
      && PickVerifies(cl, input, a, candidates)
         == FirstIsRight(candidates, cl.sha256(input.proof), cl.sha256(input.alpha))
         == PicksAlpha(cl, candidates, input.proof, cl.sha256(input.alpha))
      && (picked.Some? && FullyValid(cl, RequestFor(a, picked.value, input, None)) ==>
            PickVerifies(cl, input, a, candidates))
  {
    hide PickCanonicalCommit, CoversInput, ValidUntilRevoked, FullyValid, FirstIsRight;
    var k := PickedIsFirst(cl, candidates, input.proof);
    PicksAlphaIff(cl, candidates, input.proof, cl.sha256(input.alpha));
    if k < |candidates| { CandidateVerdict(cl, input, a, candidates[k]); }
  }

  /** In every order: the pick always verifies until revocation if and only if there is a candidate with the proof's
      hash and all of them have the input's hash. */
  lemma PickVerifiesInEveryOrderIff(cl: Client, input: CommitInput, a: FetchedAuthority,
                                    candidates: seq<OnChainCommit>)
    requires cl.g.Valid() && CoversInput(cl, input, a) && Belong(cl, input, a, candidates)
    ensures (forall order :: multiset(order) == multiset(candidates) ==> PickVerifies(cl, input, a, order))
      <==> (exists c :: c in candidates && c.proofHash == cl.sha256(input.proof))
           && AllRight(candidates, cl.sha256(input.proof), cl.sha256(input.alpha))
  {
    hide PickVerifies, CoversInput, PicksAlpha, AllRight;
    PicksAlphaInEveryOrderIff(cl, candidates, input.proof, cl.sha256(input.alpha));
    forall order | multiset(order) == multiset(candidates)
      ensures PickVerifies(cl, input, a, order) == PicksAlpha(cl, order, input.proof, cl.sha256(input.alpha))
    {
      SameElements(order, candidates);
      PickVerifiesIff(cl, input, a, order);
    }
  }

  // ---------------------------------------------------------------- the event-mode pipelines

  /** The authority and the event of an applied event instruction, in a later state. */
  lemma AppliedEvent(cl: Client, before: seq<Action>, waiting: seq<Action>, after: seq<Action>, input: CommitInput)
    returns (a: FetchedAuthority, e: Event)
    requires cl.g.Valid() && BuildCommitProofEvent(cl, After(cl.program, before), input).Returns?
    requires Step(cl.program, After(cl.program, before + waiting),
                  BuildCommitProofEvent(cl, After(cl.program, before), input).value).Ok?
    ensures var ix := BuildCommitProofEvent(cl, After(cl.program, before), input).value;
      var s := After(cl.program, Applied(before + waiting, ix, after));
      FetchAuthority(cl, s, input.owner, input.labelBytes) == Returns(Some(a)) && e in s.log
    ensures CoversInput(cl, input, a)
    ensures e == EventOf(cl, input, After(cl.program, before + waiting).slot)
  {
    hide VerifyVRF, Step, After;
    var ix := BuildCommitProofEvent(cl, After(cl.program, before), input).value;
    a := AppliedAuthority(cl, before, waiting, after, input, ix);
    e := EventPersists(cl.program, before + waiting, ix, after);
  }

  /** The event an applied instruction of the event builder emits. */
  function EventOf(cl: Client, input: CommitInput, slot: nat): Event
    requires |input.labelBytes| == 32
  {
    Event(input.owner, input.labelBytes, cl.sha256(input.memo), cl.sha256(input.proof), cl.sha256(input.alpha), slot)
  }

  /** Every candidate of a complete scan belongs to the queried authority and memo. */
  lemma ScanBelongs(cl: Client, input: CommitInput, a: FetchedAuthority, rpc: Rpc, limit: int)
    requires cl.g.q > 0 && CoversInput(cl, input, a)
    requires !ScannedTo(cl.program, QueryOf(cl, input), rpc, limit).truncated
    ensures Belong(cl, input, a, Candidates(ScannedTo(cl.program, QueryOf(cl, input), rpc, limit).events))
  {
    hide ScannedTo, VerifyVRF;
    var events := ScannedTo(cl.program, QueryOf(cl, input), rpc, limit).events;
    forall i | 0 <= i < |events|
      ensures events[i].onChainCommit.memoHash == cl.sha256(input.memo)
      ensures events[i].onChainCommit.authority == Some(a.address)
    {
      FoundBelongs(cl, QueryOf(cl, input), rpc, limit, events[i]);
    }
  }

  /** The event-mode pipeline. If an SDK-built event was applied and the scan is complete, then whatever other events
      there are, a candidate is picked; its verdict is valid exactly until revocation if and only if the first candidate
      with the proof's hash has the input's hash, and otherwise it is never valid. */
  lemma EventPipeline(cl: Client, before: seq<Action>, waiting: seq<Action>, after: seq<Action>, input: CommitInput,
                      rpc: Rpc, limit: int) returns (a: FetchedAuthority, c: OnChainCommit)
    requires cl.g.Valid() && BuildCommitProofEvent(cl, After(cl.program, before), input).Returns?
    requires Step(cl.program, After(cl.program, before + waiting),
                  BuildCommitProofEvent(cl, After(cl.program, before), input).value).Ok?
    requires var ix := BuildCommitProofEvent(cl, After(cl.program, before), input).value;
      Serves(rpc, input.owner, After(cl.program, Applied(before + waiting, ix, after)).log)
    requires var r := ScannedTo(cl.program, QueryOf(cl, input), rpc, limit);
      !r.truncated && r.unfetchedSignatures == [] && LogsPresent(rpc)
    ensures var ix := BuildCommitProofEvent(cl, After(cl.program, before), input).value;
      FetchAuthority(cl, After(cl.program, Applied(before + waiting, ix, after)), input.owner, input.labelBytes)
        == Returns(Some(a))
    ensures var candidates := Candidates(ScannedTo(cl.program, QueryOf(cl, input), rpc, limit).events);
      && CoversInput(cl, input, a) && Belong(cl, input, a, candidates)
      && PickCanonicalCommit(cl, candidates, input.proof).canonical == Some(c)
      && if FirstIsRight(candidates, cl.sha256(input.proof), cl.sha256(input.alpha))
         then ValidUntilRevoked(cl, RequestFor(a, c, input, None))
         else !FullyValid(cl, RequestFor(a, c, input, None))
  {
    hide VerifyVRF, Step, After, ScannedTo, LogsPresent, Serves, BuildCommitProofEvent, PickCanonicalCommit,
         CoversInput, ValidUntilRevoked, FullyValid, FirstIsRight;
    var e: Event;
    a, e := AppliedEvent(cl, before, waiting, after, input);
    var ix := BuildCommitProofEvent(cl, After(cl.program, before), input).value;
    var log := After(cl.program, Applied(before + waiting, ix, after)).log;
    var f := ServedIsFound(cl, QueryOf(cl, input), rpc, limit, e, log);
    ScanBelongs(cl, input, a, rpc, limit);
    c := PickAmong(cl, input, a, ScannedTo(cl.program, QueryOf(cl, input), rpc, limit).events, f);
  }

  /** Among candidates one of which has the proof's hash, one is picked. */
  lemma PickAmong(cl: Client, input: CommitInput, a: FetchedAuthority, events: seq<FoundEvent>, f: FoundEvent)
    returns (c: OnChainCommit)
    requires cl.g.Valid() && CoversInput(cl, input, a) && Belong(cl, input, a, Candidates(events))
    requires f in events && f.onChainCommit.proofHash == cl.sha256(input.proof)
    ensures var candidates := Candidates(events);
      && f.onChainCommit in candidates
      && PickCanonicalCommit(cl, candidates, input.proof).canonical == Some(c)
      && if FirstIsRight(candidates, cl.sha256(input.proof), cl.sha256(input.alpha))
         then ValidUntilRevoked(cl, RequestFor(a, c, input, None))
         else !FullyValid(cl, RequestFor(a, c, input, None))
  {
    hide CoversInput, ValidUntilRevoked, FullyValid, FirstIsRight, PickCanonicalCommit;
    var candidates := Candidates(events);
    var i :| 0 <= i < |events| && events[i] == f;
    assert candidates[i] == f.onChainCommit;
    var k := PickedIsFirst(cl, candidates, input.proof);
    PickVerifiesIff(cl, input, a, candidates);
    c := candidates[k];
  }

  /** The same whatever the order of the candidates: every arrangement of them leads to a pick that verifies until
      revocation if and only if all candidates with the proof's hash have the input's hash. */
  lemma EventPipelineVerifies(cl: Client, before: seq<Action>, waiting: seq<Action>, after: seq<Action>,
                              input: CommitInput, rpc: Rpc, limit: int)
    returns (a: FetchedAuthority)
    requires cl.g.Valid() && BuildCommitProofEvent(cl, After(cl.program, before), input).Returns?
    requires Step(cl.program, After(cl.program, before + waiting),
                  BuildCommitProofEvent(cl, After(cl.program, before), input).value).Ok?
    requires var ix := BuildCommitProofEvent(cl, After(cl.program, before), input).value;
      Serves(rpc, input.owner, After(cl.program, Applied(before + waiting, ix, after)).log)
    requires var r := ScannedTo(cl.program, QueryOf(cl, input), rpc, limit);
      !r.truncated && r.unfetchedSignatures == [] && LogsPresent(rpc)
    ensures var ix := BuildCommitProofEvent(cl, After(cl.program, before), input).value;
      FetchAuthority(cl, After(cl.program, Applied(before + waiting, ix, after)), input.owner, input.labelBytes)
        == Returns(Some(a))
    ensures var candidates := Candidates(ScannedTo(cl.program, QueryOf(cl, input), rpc, limit).events);
      (forall order :: multiset(order) == multiset(candidates) ==> PickVerifies(cl, input, a, order))
      <==> AllRight(candidates, cl.sha256(input.proof), cl.sha256(input.alpha))
  {
    hide VerifyVRF, Step, After, ScannedTo, LogsPresent, Serves, BuildCommitProofEvent, PickCanonicalCommit,
         CoversInput, ValidUntilRevoked, FullyValid, FirstIsRight, PickVerifies, AllRight;
    var c: OnChainCommit;
    a, c := EventPipeline(cl, before, waiting, after, input, rpc, limit);
    var candidates := Candidates(ScannedTo(cl.program, QueryOf(cl, input), rpc, limit).events);
    var k := PickedIsFirst(cl, candidates, input.proof);
    PickVerifiesInEveryOrderIff(cl, input, a, candidates);
  }

  /** The signature lookup needs no complete scan: it is enough that the looked-up transaction is served with the event
      in its logs. The verdict then depends on that transaction's candidates alone. */
  lemma LookupPipeline(cl: Client, before: seq<Action>, waiting: seq<Action>, after: seq<Action>, input: CommitInput,
                       rpc: Rpc, signature: string) returns (a: FetchedAuthority, c: OnChainCommit)
    requires cl.g.Valid() && BuildCommitProofEvent(cl, After(cl.program, before), input).Returns?
    requires Step(cl.program, After(cl.program, before + waiting),
                  BuildCommitProofEvent(cl, After(cl.program, before), input).value).Ok?
    requires rpc.fetch(signature).Some? && rpc.fetch(signature).value.logs.Some?
    requires Committed(EventOf(cl, input, After(cl.program, before + waiting).slot))
      in rpc.fetch(signature).value.logs.value
    ensures var ix := BuildCommitProofEvent(cl, After(cl.program, before), input).value;
      FetchAuthority(cl, After(cl.program, Applied(before + waiting, ix, after)), input.owner, input.labelBytes)
        == Returns(Some(a))
    ensures var candidates := Candidates(LookedUp(cl.program, QueryOf(cl, input), rpc, signature).events);
      && PickCanonicalCommit(cl, candidates, input.proof).canonical == Some(c)
      && (if FirstIsRight(candidates, cl.sha256(input.proof), cl.sha256(input.alpha))
          then ValidUntilRevoked(cl, RequestFor(a, c, input, None))
          else !FullyValid(cl, RequestFor(a, c, input, None)))
      && ((forall order :: multiset(order) == multiset(candidates) ==> PickVerifies(cl, input, a, order))
          <==> AllRight(candidates, cl.sha256(input.proof), cl.sha256(input.alpha)))
  {
    hide VerifyVRF, Step, After, LookedUp, BuildCommitProofEvent, PickCanonicalCommit, CoversInput,
         ValidUntilRevoked, FullyValid, FirstIsRight, PickVerifies, AllRight;
    var e: Event;
    a, e := AppliedEvent(cl, before, waiting, after, input);
    c := LookupVerdict(cl, input, a, rpc, signature, e);
  }

  /** For a lookup the chain's log does not matter: any matching event in the logs served for the transaction will do,
      whether or not the transaction failed. */
  lemma LookupVerdict(cl: Client, input: CommitInput, a: FetchedAuthority, rpc: Rpc, signature: string, e: Event)
    returns (c: OnChainCommit)
    requires cl.g.Valid() && CoversInput(cl, input, a)
    requires rpc.fetch(signature).Some? && rpc.fetch(signature).value.logs.Some?
    requires Committed(e) in rpc.fetch(signature).value.logs.value
    requires Matches(QueryOf(cl, input), Committed(e)) && e.proofHash == cl.sha256(input.proof)
    ensures var candidates := Candidates(LookedUp(cl.program, QueryOf(cl, input), rpc, signature).events);
      && PickCanonicalCommit(cl, candidates, input.proof).canonical == Some(c)
      && (if FirstIsRight(candidates, cl.sha256(input.proof), cl.sha256(input.alpha))
          then ValidUntilRevoked(cl, RequestFor(a, c, input, None))
          else !FullyValid(cl, RequestFor(a, c, input, None)))
      && ((forall order :: multiset(order) == multiset(candidates) ==> PickVerifies(cl, input, a, order))
          <==> AllRight(candidates, cl.sha256(input.proof), cl.sha256(input.alpha)))
  {
    hide LookedUp, PickCanonicalCommit, CoversInput, ValidUntilRevoked, FullyValid, FirstIsRight, PickVerifies,
         AllRight;
    var q, tx := QueryOf(cl, input), rpc.fetch(signature).value;
    var events := LookedUp(cl.program, q, rpc, signature).events;
    var f := Found(cl.program, signature, tx.slot, e);
    LookupFinds(cl.program, q, rpc, signature, f);
    LookupBelongs(cl, input, a, rpc, signature);
    c := PickAmong(cl, input, a, events, f);
    PickVerifiesInEveryOrderIff(cl, input, a, Candidates(events));
  }

  lemma LookupBelongs(cl: Client, input: CommitInput, a: FetchedAuthority, rpc: Rpc, signature: string)
    requires cl.g.q > 0 && CoversInput(cl, input, a)
    ensures Belong(cl, input, a, Candidates(LookedUp(cl.program, QueryOf(cl, input), rpc, signature).events))
  {
    hide LookedUp, VerifyVRF;
    var events := LookedUp(cl.program, QueryOf(cl, input), rpc, signature).events;
    forall i | 0 <= i < |events|
      ensures events[i].onChainCommit.memoHash == cl.sha256(input.memo)
      ensures events[i].onChainCommit.authority == Some(a.address)
    {
      LookupFinds(cl.program, QueryOf(cl, input), rpc, signature, events[i]);
    }
  }

  /** The failing input: of two candidates with the proof's hash the first is picked even when only the second has the
      right input hash, and the program accepts such an event whenever it accepts an honest one. */
  lemma PickIgnoresInputHash(cl: Client, s: State, ix: Instruction, alphaHash: bytes32, a: FetchedAuthority,
                             good: OnChainCommit, input: CommitInput)
    requires cl.g.Valid() && ix.CommitProofEvent?
    requires good.proofHash == cl.sha256(input.proof) && alphaHash != cl.sha256(input.alpha)
    ensures Step(cl.program, s, ix).Ok? <==> Step(cl.program, s, ix.(alphaHash := alphaHash)).Ok?
    ensures var bad := good.(alphaHash := alphaHash);
      && PickCanonicalCommit(cl, [bad, good], input.proof).canonical == Some(bad)
      && PickCanonicalCommit(cl, [good, bad], input.proof).canonical == Some(good)
      && !FullyValid(cl, RequestFor(a, bad, input, None))
  {
    hide VerifyVRF;
  }

  // ---------------------------------------------------------------- the honest operator

  /** Whatever an honest operator proves can be committed in every mode: if the stored key is that of the seed and the
      authority may commit, the builders accept the proof that proveVRF returns, and its beta. */
  lemma HonestOperatorBuilds(cl: Client, s: State, sk: bytes, a: FetchedAuthority, input: CommitInput)
    requires cl.g.Valid()
    requires |input.labelBytes| == 32 && FetchAuthority(cl, s, input.owner, input.labelBytes) == Returns(Some(a))
    requires MayCommit(s, a.address) && a.decoded.suite == SUITE_TAI
    requires PublicKeyFromSeed(cl.g, sk) == Returns(a.decoded.pk)
    requires ProveVRF(cl.g, sk, input.alpha) == Returns(input.proof)
    ensures BuildCommitProof(cl, s, input).Returns? && BuildCommitProofEvent(cl, s, input).Returns?
    ensures ProofToHash(cl.g, input.proof).Returns?
      && BuildCommitProofWithBeta(cl, s, input, ProofToHash(cl.g, input.proof).value).Returns?
  {
    HonestCompleteness(cl.g, sk, input.alpha);
    AcceptedProofHashes(cl.g, a.decoded.pk, input.alpha, input.proof);
    assert Vetted(cl, s, input, a);
    BuildsIff(cl, s, input, ProofToHash(cl.g, input.proof).value);
  }

  /** Create, freeze, prove, commit, verify: from any state whose two addresses are unused, the instructions that the
      builders make for an honest operator, each in the state it meets, all succeed, and the full verdict at the end is
      valid. */
  lemma HonestLifecycle(cl: Client, run: seq<Action>, sk: bytes, pk: bytes, input: CommitInput)
    returns (create: Instruction, freeze: Instruction, ix: Instruction, a: FetchedAuthority, c: OnChainCommit)
    requires cl.g.Valid() && |input.labelBytes| == 32 && |pk| == 32
    requires PublicKeyFromSeed(cl.g, sk) == Returns(pk) && ProveVRF(cl.g, sk, input.alpha) == Returns(input.proof)
    requires var address := cl.program.AuthorityAddress(input.owner, input.labelBytes);
      var record := cl.program.CommitAddress(address, cl.sha256(input.memo));
      && address !in After(cl.program, run).leaves && record !in After(cl.program, run).leaves && record != address
    ensures BuildInitAuthority(input.owner, pk, SUITE_TAI, input.labelBytes) == Returns(create)
    ensures BuildFreezeAuthority(cl, After(cl.program, run + [Submit(create)]), input.owner, input.labelBytes)
      == Returns(freeze)
    ensures BuildCommitProof(cl, After(cl.program, run + [Submit(create)] + [Submit(freeze)]), input) == Returns(ix)
    ensures Step(cl.program, After(cl.program, run), create).Ok?
    ensures Step(cl.program, After(cl.program, run + [Submit(create)]), freeze).Ok?
    ensures Step(cl.program, After(cl.program, run + [Submit(create)] + [Submit(freeze)]), ix).Ok?
    ensures var s := After(cl.program, run + [Submit(create)] + [Submit(freeze)] + [Submit(ix)]);
      && FetchAuthority(cl, s, input.owner, input.labelBytes) == Returns(Some(a))
      && FetchProofCommit(cl, s, a.address, input.memo) == Returns(Some(c))
    ensures FullyValid(cl, RequestFor(a, c, input, None))
  {
    hide VerifyVRF, ProveVRF, PublicKeyFromSeed, BaseValid, FullyValid;
    var p := cl.program;
    var d := Authority(input.owner, pk, SUITE_TAI, true, false, input.labelBytes, After(p, run).slot);
    create, freeze := FrozenAuthority(cl, run, pk, input, d);
    var frozen := run + [Submit(create)] + [Submit(freeze)];
    var stored := FetchedAuthority(p.AuthorityAddress(d.owner, d.labelBytes), d);
    HonestOperatorBuilds(cl, After(p, frozen), sk, stored, input);
    ix := BuiltCommit(cl, After(p, frozen), input);
    assert frozen + [] == frozen;
    assert Applied(frozen, ix, []) == frozen + [Submit(ix)];
    a, c := RegistryCommitVerifies(cl, frozen, [], [], input);
    AfterApplied(p, frozen, ix);
  }

  /** Creating and freezing an authority at an unused address adds just that authority. */
  lemma FrozenAuthority(cl: Client, run: seq<Action>, pk: bytes, input: CommitInput, d: Authority)
    returns (create: Instruction, freeze: Instruction)
    requires |input.labelBytes| == 32 && |pk| == 32
    requires cl.program.AuthorityAddress(input.owner, input.labelBytes) !in After(cl.program, run).leaves
    requires d == Authority(input.owner, pk, SUITE_TAI, true, false, input.labelBytes, After(cl.program, run).slot)
    ensures BuildInitAuthority(input.owner, pk, SUITE_TAI, input.labelBytes) == Returns(create)
    ensures BuildFreezeAuthority(cl, After(cl.program, run + [Submit(create)]), input.owner, input.labelBytes)
      == Returns(freeze)
    ensures Step(cl.program, After(cl.program, run), create).Ok?
    ensures Step(cl.program, After(cl.program, run + [Submit(create)]), freeze).Ok?
    ensures var s := After(cl.program, run);
      After(cl.program, run + [Submit(create)] + [Submit(freeze)])
        == s.(leaves := s.leaves[cl.program.AuthorityAddress(input.owner, input.labelBytes) := AuthorityLeaf(d)])
  {
    var p, s := cl.program, After(cl.program, run);
    var address, open := p.AuthorityAddress(input.owner, input.labelBytes), AuthorityLeaf(d.(frozen := false));
    create := BuildInitAuthority(input.owner, pk, SUITE_TAI, input.labelBytes).value;
    AfterApplied(p, run, create);
    var once := run + [Submit(create)];
    assert After(p, once) == s.(leaves := s.leaves[address := open]);
    freeze := BuildFreezeAuthority(cl, After(p, once), input.owner, input.labelBytes).value;
    AfterApplied(p, once, freeze);
    assert s.leaves[address := open][address := AuthorityLeaf(d)] == s.leaves[address := AuthorityLeaf(d)];
  }
}
