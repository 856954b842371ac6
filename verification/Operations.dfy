/** packages/vrf-client/src/operations.ts: fetching accounts and building instructions. */
module Operations {
  import opened Common
  import opened Encoding
  import opened Ciphersuite
  import opened HashToCurve
  import opened Ecvrf
  import opened Registry
  import opened Addresses
  import opened Verdicts
  import Instructions

  // ---------------------------------------------------------------- fetching

  datatype FetchedAuthority = FetchedAuthority(address: bytes32, decoded: Authority)

  /** The shape the verifiers expect. */
  function OnChain(a: FetchedAuthority): OnChainAuthority {
    var d := a.decoded;
    OnChainAuthority(Some(a.address), d.owner, d.pk, d.suite, d.frozen, d.revoked, d.labelBytes)
  }

  function CommitView(c: Commit): OnChainCommit {
    OnChainCommit(Some(c.authority), c.memoHash, c.proofHash, c.alphaHash, c.committedSlot)
  }

  /** fetchAuthority: null when the address is empty. */
  function FetchAuthority(cl: Client, s: State, owner: bytes32, labelBytes: bytes): Outcome<Option<FetchedAuthority>> {
    var address :- DeriveAuthorityAddress(owner, labelBytes, cl.program);
    if address !in s.leaves then Returns(None)
    else match s.leaves[address]
      case AuthorityLeaf(a) => Returns(Some(FetchedAuthority(address, a)))
      case _ => Throws(UndecodableAccount)
  }

  /** fetchProofCommit. The record with a beta starts with the same four fields, so it decodes too, with the first
      eight bytes of its beta in the place of the slot; an authority is too short to decode. */
  function FetchProofCommit(cl: Client, s: State, authority: bytes32, memo: bytes): Outcome<Option<OnChainCommit>> {
    var address := cl.program.CommitAddress(authority, cl.sha256(memo));
    if address !in s.leaves then Returns(None)
    else match s.leaves[address]
      case CommitLeaf(c) => Returns(Some(CommitView(c)))
      case BetaLeaf(c, lo, hi) => Returns(Some(CommitView(c).(committedSlot := LE(lo[..8]))))
      case AuthorityLeaf(_) => Throws(UndecodableAccount)
  }

  datatype FetchedBeta = FetchedBeta(onChainCommit: OnChainCommit, beta: bytes)

  /** fetchProofCommitWithBeta: the plain record is too short to decode. */
  function FetchProofCommitWithBeta(cl: Client, s: State, authority: bytes32, memo: bytes)
    : Outcome<Option<FetchedBeta>>
  {
    var address := cl.program.CommitAddress(authority, cl.sha256(memo));
    if address !in s.leaves then Returns(None)
    else match s.leaves[address]
      case BetaLeaf(c, lo, hi) => Returns(Some(FetchedBeta(CommitView(c), lo + hi)))
      case _ => Throws(UndecodableAccount)
  }

  // ---------------------------------------------------------------- building

  /** buildInitAuthorityIx */
  function BuildInitAuthority(owner: bytes32, pk: bytes, suite: nat, labelBytes: bytes): Outcome<Instruction> {
    if |pk| != 32 then Throws(BadKeyLength)
    else if suite != SUITE_TAI then Throws(Error.UnsupportedSuite)
    else if |labelBytes| != 32 then Throws(BadLabelLength)
    else Returns(InitAuthority(owner, true, true, pk, suite, labelBytes))
  }

  function ExistingAuthority(cl: Client, s: State, owner: bytes32, labelBytes: bytes): Outcome<FetchedAuthority> {
    var fetched :- FetchAuthority(cl, s, owner, labelBytes);
    if fetched.None? then Throws(AuthorityNotFound) else Returns(fetched.value)
  }

  /** buildFreezeAuthorityIx: neither the owner nor the flags are looked at. */
  function BuildFreezeAuthority(cl: Client, s: State, owner: bytes32, labelBytes: bytes): Outcome<Instruction> {
    var auth :- ExistingAuthority(cl, s, owner, labelBytes);
    Returns(FreezeAuthority(owner, true, auth.decoded, auth.address))
  }

  /** buildRevokeAuthorityIx */
  function BuildRevokeAuthority(cl: Client, s: State, owner: bytes32, labelBytes: bytes): Outcome<Instruction> {
    var auth :- ExistingAuthority(cl, s, owner, labelBytes);
    Returns(RevokeAuthority(owner, true, auth.decoded, auth.address))
  }

  datatype CommitInput = CommitInput(owner: bytes32, labelBytes: bytes, memo: bytes, alpha: bytes, proof: bytes)

  /** assertAuthorityCanCommit */
  function AuthorityCanCommit(auth: Option<FetchedAuthority>): Outcome<FetchedAuthority> {
    if auth.None? then Throws(AuthorityNotFound)
    else if auth.value.decoded.suite != SUITE_TAI then Throws(Error.UnsupportedSuite)
    else if !auth.value.decoded.frozen then Throws(Error.AuthorityNotFrozen)
    else if auth.value.decoded.revoked then Throws(Error.AuthorityRevoked)
    else Returns(auth.value)
  }

  /** assertProofMatchesAuthority */
  function ProofMatchesAuthority(cl: Client, auth: FetchedAuthority, input: CommitInput): Outcome<bool>
    requires cl.g.q > 0
  {
    var verified :- VerifyVRF(cl.g, auth.decoded.pk, input.alpha, input.proof);
    if verified then Returns(true) else Throws(ProofDoesNotVerify)
  }

  /** The checks every builder makes on the fetched authority. */
  function CheckedAuthority(cl: Client, s: State, input: CommitInput): Outcome<FetchedAuthority>
    requires cl.g.q > 0
  {
    var fetched :- FetchAuthority(cl, s, input.owner, input.labelBytes);
    var auth :- AuthorityCanCommit(fetched);
    var _ :- ProofMatchesAuthority(cl, auth, input);
    Returns(auth)
  }

  /** buildCommitProofIx */
  function BuildCommitProof(cl: Client, s: State, input: CommitInput): Outcome<Instruction>
    requires cl.g.q > 0
  {
    if |input.proof| != 80 then Throws(BadProofLength)
    else
      var auth :- CheckedAuthority(cl, s, input);
      Returns(CommitProof(input.owner, true, auth.address, auth.decoded, true,
                          cl.sha256(input.memo), cl.sha256(input.proof), cl.sha256(input.alpha)))
  }

  /** buildCommitProofWithBetaIx: the beta is checked, then split into two halves. */
  function BuildCommitProofWithBeta(cl: Client, s: State, input: CommitInput, beta: bytes): Outcome<Instruction>
    requires cl.g.q > 0
  {
    if |input.proof| != 80 then Throws(BadProofLength)
    else if |beta| != 64 then Throws(BadBetaLength)
    else
      var auth :- CheckedAuthority(cl, s, input);
      var expected :- ProofToHash(cl.g, input.proof);
      if beta != expected then Throws(BetaMismatch)
      else Returns(CommitProofWithBeta(input.owner, true, auth.address, auth.decoded, true,
                                       cl.sha256(input.memo), cl.sha256(input.proof), cl.sha256(input.alpha),
                                       beta[..32], beta[32..64]))
  }

  /** buildCommitProofEventIx */
  function BuildCommitProofEvent(cl: Client, s: State, input: CommitInput): Outcome<Instruction>
    requires cl.g.q > 0
  {
    if |input.proof| != 80 then Throws(BadProofLength)
    else if |input.labelBytes| != 32 then Throws(BadLabelLength)
    else
      var auth :- CheckedAuthority(cl, s, input);
      Returns(CommitProofEvent(input.owner, true, auth.address, auth.decoded, input.labelBytes,
                               cl.sha256(input.memo), cl.sha256(input.proof), cl.sha256(input.alpha)))
  }

  // ---------------------------------------------------------------- what is fetched

  /** An authority is fetched exactly when one is stored at the address of the owner and label, nothing exactly when the
      address is unused, and the view given to the verifiers shows every field of the stored authority. */
  lemma FetchAuthorityIff(cl: Client, s: State, owner: bytes32, labelBytes: bytes, a: FetchedAuthority)
    ensures FetchAuthority(cl, s, owner, labelBytes) == Returns(Some(a)) <==>
      && |labelBytes| == 32 && a.address == Instructions.AuthorityAt(cl.program, owner, labelBytes)
      && a.address in s.leaves && s.leaves[a.address] == AuthorityLeaf(a.decoded)
    ensures FetchAuthority(cl, s, owner, labelBytes) == Returns(None) <==>
      |labelBytes| == 32 && Instructions.AuthorityAt(cl.program, owner, labelBytes) !in s.leaves
    ensures FetchAuthority(cl, s, owner, labelBytes).Throws? ==>
      FetchAuthority(cl, s, owner, labelBytes).error
        == if |labelBytes| == 32 then UndecodableAccount else BadLabelLength
    ensures var o, d := OnChain(a), a.decoded;
      && o.authorityAddress == Some(a.address) && o.owner == d.owner && o.pk == d.pk && o.suite == d.suite
      && o.frozen == d.frozen && o.revoked == d.revoked && o.labelBytes == d.labelBytes
  {
    if |labelBytes| == 32 { Instructions.Seeds(cl.program, owner, labelBytes); }
  }

  /** What a fetched commitment shows of the stored record. */
  predicate Shows(c: OnChainCommit, r: Commit) {
    && c.authority == Some(r.authority) && c.memoHash == r.memoHash && c.proofHash == r.proofHash
    && c.alphaHash == r.alphaHash
  }

  /** A record of either shape is fetched with all its hashes, a plain one with its slot as well; a record with a beta
      fetched as a plain one shows the first eight bytes of beta in the place of the slot. */
  lemma FetchCommitMeaning(cl: Client, s: State, authority: bytes32, memo: bytes)
    ensures var a := Instructions.RecordAt(cl.program, authority, cl.sha256(memo));
      var f := FetchProofCommit(cl, s, authority, memo);
      && (f == Returns(None) <==> a !in s.leaves)
      && (f.Throws? <==> a in s.leaves && s.leaves[a].AuthorityLeaf?)
      && (a in s.leaves && s.leaves[a].IsRecord() ==>
            && f.Returns? && f.value.Some? && Shows(f.value.value, s.leaves[a].commit)
            && f.value.value.committedSlot
               == if s.leaves[a].CommitLeaf? then s.leaves[a].commit.committedSlot else LE(s.leaves[a].betaLo[..8]))
  {
    Instructions.Seeds(cl.program, authority, cl.sha256(memo));
  }

  /** Only a record with a beta is fetched with its beta: its hashes, its slot and the two halves in order. */
  lemma FetchBetaMeaning(cl: Client, s: State, authority: bytes32, memo: bytes)
    ensures var a := Instructions.RecordAt(cl.program, authority, cl.sha256(memo));
      var f := FetchProofCommitWithBeta(cl, s, authority, memo);
      && (f == Returns(None) <==> a !in s.leaves)
      && (f.Throws? <==> a in s.leaves && !s.leaves[a].BetaLeaf?)
      && (a in s.leaves && s.leaves[a].BetaLeaf? ==>
            && f.Returns? && f.value.Some? && Shows(f.value.value.onChainCommit, s.leaves[a].commit)
            && f.value.value.onChainCommit.committedSlot == s.leaves[a].commit.committedSlot
            && |f.value.value.beta| == 64
            && f.value.value.beta[..32] == s.leaves[a].betaLo && f.value.value.beta[32..] == s.leaves[a].betaHi)
  {
    Instructions.Seeds(cl.program, authority, cl.sha256(memo));
  }

  // ---------------------------------------------------------------- when a built instruction is accepted

  /** A built plain commit is accepted exactly while the fetched authority is current and its owner's, and the record's
      address is unused. */
  lemma BuiltCommitAcceptedIff(cl: Client, s: State, t: State, input: CommitInput, ix: Instruction)
    requires cl.g.Valid() && BuildCommitProof(cl, s, input) == Returns(ix)
    ensures ix.CommitProof? && ix.signer == input.owner && CarriesHashes(cl, ix, input)
    ensures CheckedAuthority(cl, s, input) == Returns(FetchedAuthority(ix.address, ix.current))
    ensures Step(cl.program, t, ix).Ok? <==>
      && ix.current.owner == input.owner && IsCurrent(t, ix.address, ix.current)
      && Instructions.RecordAt(cl.program, ix.address, cl.sha256(input.memo)) !in t.leaves
  {
    hide VerifyVRF, FetchAuthority;
    Instructions.Seeds(cl.program, ix.address, ix.memoHash);
  }

  /** The same for the commit with a beta, which carries beta's first half and then its second. */
  lemma BuiltBetaAcceptedIff(cl: Client, s: State, t: State, input: CommitInput, beta: bytes, ix: Instruction)
    requires cl.g.Valid() && BuildCommitProofWithBeta(cl, s, input, beta) == Returns(ix)
    ensures ix.CommitProofWithBeta? && ix.signer == input.owner && CarriesHashes(cl, ix, input)
    ensures CheckedAuthority(cl, s, input) == Returns(FetchedAuthority(ix.address, ix.current))
    ensures |beta| == 64 && ix.betaLo == beta[..32] && ix.betaHi == beta[32..]
    ensures Step(cl.program, t, ix).Ok? <==>
      && ix.current.owner == input.owner && IsCurrent(t, ix.address, ix.current)
      && Instructions.RecordAt(cl.program, ix.address, cl.sha256(input.memo)) !in t.leaves
  {
    hide VerifyVRF, FetchAuthority, ProofToHash;
    Instructions.Seeds(cl.program, ix.address, ix.memoHash);
  }

  /** A built event commit is accepted exactly while the fetched authority is current, its owner's and stored under the
      requested label. */
  lemma BuiltEventAcceptedIff(cl: Client, s: State, t: State, input: CommitInput, ix: Instruction)
    requires cl.g.Valid() && BuildCommitProofEvent(cl, s, input) == Returns(ix)
    ensures ix.CommitProofEvent? && ix.signer == input.owner && CarriesHashes(cl, ix, input)
    ensures CheckedAuthority(cl, s, input) == Returns(FetchedAuthority(ix.address, ix.current))
    ensures |input.labelBytes| == 32 && ix.labelBytes == input.labelBytes
    ensures Step(cl.program, t, ix).Ok? <==>
      && ix.current.owner == input.owner && ix.current.labelBytes == input.labelBytes
      && IsCurrent(t, ix.address, ix.current)
  {
    hide VerifyVRF;
    CheckedIsVetted(cl, s, input);
  }

  // ---------------------------------------------------------------- why a builder refuses

  lemma OnlyNoPointThrows(g: Suite, pk: bytes, alpha: bytes, proof: bytes)
    requires g.Valid() && VerifyVRF(g, pk, alpha, proof).Throws?
    ensures VerifyVRF(g, pk, alpha, proof) == Throws(NoCurvePoint)
  {
    VerifyMeaning(g, pk, alpha, proof);
    var least := LeastCounter(g, pk, alpha);
  }

  /** Every error of the builders' checks has one cause: for a stored authority the suite, then the flags, then the
      proof. */
  lemma RefusedIff(cl: Client, s: State, input: CommitInput, a: FetchedAuthority)
    requires cl.g.Valid() && FetchAuthority(cl, s, input.owner, input.labelBytes) == Returns(Some(a))
    ensures var d, verified := a.decoded, VerifyVRF(cl.g, a.decoded.pk, input.alpha, input.proof);
      var r, may := CheckedAuthority(cl, s, input), d.suite == 3 && d.frozen && !d.revoked;
      && (r == Throws(Error.UnsupportedSuite) <==> d.suite != 3)
      && (r == Throws(Error.AuthorityNotFrozen) <==> d.suite == 3 && !d.frozen)
      && (r == Throws(Error.AuthorityRevoked) <==> d.suite == 3 && d.frozen && d.revoked)
      && (r == Throws(NoCurvePoint) <==> may && verified.Throws?)
      && (r == Throws(ProofDoesNotVerify) <==> may && verified == Returns(false))
      && (r == Returns(a) <==> may && verified == Returns(true))
  {
    hide VerifyVRF;
    if VerifyVRF(cl.g, a.decoded.pk, input.alpha, input.proof).Throws? {
      OnlyNoPointThrows(cl.g, a.decoded.pk, input.alpha, input.proof);
    }
  }

  /** Wrong lengths are reported before anything is fetched, a beta of another proof behind everything else, and apart
      from these the builders throw what the checks throw. */
  lemma BuilderErrors(cl: Client, s: State, input: CommitInput, beta: bytes)
    requires cl.g.Valid()
    ensures |input.proof| != 80 ==>
      BuildCommitProof(cl, s, input) == BuildCommitProofEvent(cl, s, input)
        == BuildCommitProofWithBeta(cl, s, input, beta) == Throws(BadProofLength)
    ensures |input.proof| == 80 && |beta| != 64 ==>
      BuildCommitProofWithBeta(cl, s, input, beta) == Throws(BadBetaLength)
    ensures |input.proof| == 80 && CheckedAuthority(cl, s, input).Throws? ==>
      var e := Throws(CheckedAuthority(cl, s, input).error);
      && BuildCommitProof(cl, s, input) == BuildCommitProofEvent(cl, s, input) == e
      && (|beta| == 64 ==> BuildCommitProofWithBeta(cl, s, input, beta) == e)
    ensures CheckedAuthority(cl, s, input).Returns? && |beta| == 64 && ProofToHash(cl.g, input.proof) != Returns(beta)
      ==>
      BuildCommitProofWithBeta(cl, s, input, beta) == Throws(BetaMismatch)
  {
    if CheckedAuthority(cl, s, input).Returns? {
      CheckedIsVetted(cl, s, input);
      VettedProof(cl, s, input, CheckedAuthority(cl, s, input).value);
    }
    hide VerifyVRF, ProofToHash;
  }

  /** Without a stored authority the request is refused for that. */
  lemma RefusedWithoutAuthority(cl: Client, s: State, input: CommitInput)
    requires cl.g.Valid()
    ensures FetchAuthority(cl, s, input.owner, input.labelBytes) == Returns(None) ==>
      CheckedAuthority(cl, s, input) == Throws(AuthorityNotFound)
    ensures var f := FetchAuthority(cl, s, input.owner, input.labelBytes);
      f.Throws? ==> CheckedAuthority(cl, s, input) == Throws(f.error)
  {
  }

  // ---------------------------------------------------------------- what a built lifecycle instruction does

  /** An authority is created exactly for a 32-byte key and label, the supported suite and an unused address. */
  lemma InitBuiltAndAppliedIff(cl: Client, s: State, owner: bytes32, pk: bytes, suite: nat, labelBytes: bytes)
    ensures var built := BuildInitAuthority(owner, pk, suite, labelBytes);
      (built.Returns? && Step(cl.program, s, built.value).Ok?) <==>
        && |pk| == 32 && suite == SUITE_TAI && |labelBytes| == 32
        && cl.program.AuthorityAddress(owner, labelBytes) !in s.leaves
  {
  }

  /** The freeze and revoke builders build for whatever authority is stored. Applied at once, the instruction succeeds
      exactly when that authority names the requester as owner and, to be frozen, is not frozen yet; then it sets its
      flag and does nothing else. */
  lemma LifecycleBuiltAndAppliedIff(cl: Client, s: State, owner: bytes32, labelBytes: bytes, a: FetchedAuthority)
    requires FetchAuthority(cl, s, owner, labelBytes) == Returns(Some(a))
    ensures var freeze := BuildFreezeAuthority(cl, s, owner, labelBytes);
      freeze.Returns? && Step(cl.program, s, freeze.value) ==
        if a.decoded.owner != owner then Err(NotOwner)
        else if a.decoded.frozen then Err(AlreadyFrozen)
        else Ok(s.(leaves := s.leaves[a.address := AuthorityLeaf(a.decoded.(frozen := true))]))
    ensures var revoke := BuildRevokeAuthority(cl, s, owner, labelBytes);
      revoke.Returns? && Step(cl.program, s, revoke.value) ==
        if a.decoded.owner != owner then Err(NotOwner)
        else Ok(s.(leaves := s.leaves[a.address := AuthorityLeaf(a.decoded.(revoked := true))]))
  {
  }

  // ---------------------------------------------------------------- what a built instruction carries

  /** The hashes an instruction commits to. */
  predicate CarriesHashes(cl: Client, ix: Instruction, input: CommitInput)
    requires ix.CommitProof? || ix.CommitProofWithBeta? || ix.CommitProofEvent?
  {
    ix.memoHash == cl.sha256(input.memo) && ix.proofHash == cl.sha256(input.proof)
    && ix.alphaHash == cl.sha256(input.alpha)
  }

  /** The authority behind a built instruction: stored at the derived address, able to commit, and its key verifies
      the proof. */
  ghost predicate Vetted(cl: Client, s: State, input: CommitInput, a: FetchedAuthority)
    requires cl.g.q > 0
  {
    && |input.labelBytes| == 32 && a.address == cl.program.AuthorityAddress(input.owner, input.labelBytes)
    && IsCurrent(s, a.address, a.decoded) && MayCommit(s, a.address) && a.decoded.suite == SUITE_TAI
    && VerifyVRF(cl.g, a.decoded.pk, input.alpha, input.proof) == Returns(true)
  }

  lemma CheckedIsVetted(cl: Client, s: State, input: CommitInput)
    requires cl.g.Valid() && CheckedAuthority(cl, s, input).Returns?
    ensures Vetted(cl, s, input, CheckedAuthority(cl, s, input).value)
  {
    hide VerifyVRF;
  }

  /** A builder builds exactly when the authority can commit, its key verifies the proof and, with a beta, the beta
      is the proof's own; otherwise it throws. */
  lemma BuildsIff(cl: Client, s: State, input: CommitInput, beta: bytes)
    requires cl.g.Valid()
    ensures var vetted := exists a :: Vetted(cl, s, input, a);
      && (BuildCommitProof(cl, s, input).Returns? <==> vetted)
      && (BuildCommitProofEvent(cl, s, input).Returns? <==> vetted)
      && (BuildCommitProofWithBeta(cl, s, input, beta).Returns? <==>
            vetted && ProofToHash(cl.g, input.proof) == Returns(beta))
  {
    hide VerifyVRF, ProofToHash;
    CheckedIff(cl, s, input);
    if a :| Vetted(cl, s, input, a) { VettedProof(cl, s, input, a); }
    BetaLength(cl.g, input.proof);
  }

  lemma CheckedIff(cl: Client, s: State, input: CommitInput)
    requires cl.g.Valid()
    ensures CheckedAuthority(cl, s, input).Returns? <==> exists a :: Vetted(cl, s, input, a)
  {
    hide VerifyVRF;
    if CheckedAuthority(cl, s, input).Returns? { CheckedIsVetted(cl, s, input); }
  }

  lemma VettedProof(cl: Client, s: State, input: CommitInput, a: FetchedAuthority)
    requires cl.g.Valid() && Vetted(cl, s, input, a)
    ensures |input.proof| == 80 && ProofToHash(cl.g, input.proof).Returns?
  {
    AcceptedProofHashes(cl.g, a.decoded.pk, input.alpha, input.proof);
  }

  lemma BetaLength(g: Suite, proof: bytes)
    requires g.q > 0
    ensures ProofToHash(g, proof).Returns? ==> |ProofToHash(g, proof).value| == 64
  {
  }
}
