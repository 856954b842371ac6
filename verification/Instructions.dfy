/** programs/cc-vrf/src/instructions: when each instruction is accepted, what it changes, and which error it gives. */
module Instructions {
  import opened Common
  import opened Registry

  // ---------------------------------------------------------------- the checks, in the handlers' order

  /** What an instruction is checked for. The last check of all is the system program's. */
  function Checks(ix: Instruction): seq<VrfError> {
    match ix
    case InitAuthority(_, _, _, _, _, _) => [VrfError.UnsupportedSuite, InvalidAccountData, LightRejected]
    case FreezeAuthority(_, _, _, _) => [NotOwner, AlreadyFrozen, LightRejected]
    case RevokeAuthority(_, _, _, _) => [NotOwner, LightRejected]
    case CommitProofEvent(_, _, _, _, _, _, _, _) =>
      [NotOwner, AuthorityLabelMismatch, VrfError.AuthorityNotFrozen, VrfError.AuthorityRevoked,
       AuthorityAddressMismatch, LightRejected]
    case _ => [NotOwner, VrfError.AuthorityNotFrozen, VrfError.AuthorityRevoked, InvalidAccountData, LightRejected]
  }

  /** The address of an authority, from its three seeds. */
  function AuthorityAt(p: Program, owner: bytes32, labelBytes: bytes32): bytes32 {
    p.derive([Ascii("vrf_authority"), owner, labelBytes], p.id)
  }

  /** The address of a record of either shape. */
  function RecordAt(p: Program, authority: bytes32, memoHash: bytes32): bytes32 {
    p.derive([Ascii("vrf_proof"), authority, memoHash], p.id)
  }

  predicate AddsRecord(ix: Instruction) {
    ix.CommitProof? || ix.CommitProofWithBeta?
  }

  /** The address an instruction wants unused. */
  function NewAddress(p: Program, ix: Instruction): Option<bytes32> {
    if ix.InitAuthority? then Some(AuthorityAt(p, ix.signer, ix.labelBytes))
    else if AddsRecord(ix) then Some(RecordAt(p, ix.address, ix.memoHash))
    else None
  }

  /** The check fails on this instruction in this state. */
  predicate Fails(p: Program, s: State, ix: Instruction, check: VrfError) {
    match check
    case UnsupportedSuite => ix.InitAuthority? && ix.suite != 3
    case InvalidAccountData => (ix.InitAuthority? || AddsRecord(ix)) && !ix.tree
    case NotOwner => !ix.InitAuthority? && ix.current.owner != ix.signer
    case AlreadyFrozen => ix.FreezeAuthority? && ix.current.frozen
    case AuthorityNotFrozen => !ix.InitAuthority? && !ix.current.frozen
    case AuthorityRevoked => !ix.InitAuthority? && ix.current.revoked
    case AuthorityLabelMismatch => ix.CommitProofEvent? && ix.current.labelBytes != ix.labelBytes
    case AuthorityAddressMismatch => ix.CommitProofEvent? && ix.address != AuthorityAt(p, ix.signer, ix.labelBytes)
    case LightRejected =>
      || !ix.proof
      || (!ix.InitAuthority? && !(ix.address in s.leaves && s.leaves[ix.address] == AuthorityLeaf(ix.current)))
      || (NewAddress(p, ix).Some? && NewAddress(p, ix).value in s.leaves)
  }

  /** The first check from number k on that fails. */
  function FirstFailure(p: Program, s: State, ix: Instruction, k: nat): Option<VrfError>
    requires k <= |Checks(ix)|
    decreases |Checks(ix)| - k
  {
    if k == |Checks(ix)| then None
    else if Fails(p, s, ix, Checks(ix)[k]) then Some(Checks(ix)[k])
    else FirstFailure(p, s, ix, k + 1)
  }

  predicate Accepted(p: Program, s: State, ix: Instruction) {
    forall k :: 0 <= k < |Checks(ix)| ==> !Fails(p, s, ix, Checks(ix)[k])
  }

  lemma {:induction false} AcceptedFrom(p: Program, s: State, ix: Instruction, k: nat)
    requires k <= |Checks(ix)|
    ensures FirstFailure(p, s, ix, k) == None <==>
      forall j :: k <= j < |Checks(ix)| ==> !Fails(p, s, ix, Checks(ix)[j])
    decreases |Checks(ix)| - k
  {
    hide Fails;
    if k < |Checks(ix)| { AcceptedFrom(p, s, ix, k + 1); }
  }

  lemma Seeds(p: Program, a: bytes32, b: bytes32)
    ensures p.AuthorityAddress(a, b) == AuthorityAt(p, a, b) && p.CommitAddress(a, b) == RecordAt(p, a, b)
  {
    assert AUTHORITY_SEED == Ascii("vrf_authority") && PROOF_SEED == Ascii("vrf_proof");
  }

  /** The step function stops at the first failing check. */
  lemma StepStops(p: Program, s: State, ix: Instruction)
    ensures match FirstFailure(p, s, ix, 0)
      case None => Step(p, s, ix).Ok?
      case Some(e) => Step(p, s, ix) == Err(e)
  {
    hide FirstFailure;
    if ix.InitAuthority? || ix.CommitProofEvent? { Seeds(p, ix.signer, ix.labelBytes); }
    if AddsRecord(ix) { Seeds(p, ix.address, ix.memoHash); }
    var n := |Checks(ix)|;
    Unfold(p, s, ix, n - 1);
    Unfold(p, s, ix, n - 2);
    if n > 2 { Unfold(p, s, ix, n - 3); }
    if n > 4 {
      Unfold(p, s, ix, n - 4);
      Unfold(p, s, ix, n - 5);
    }
    if n > 5 { Unfold(p, s, ix, n - 6); }
  }

  lemma Unfold(p: Program, s: State, ix: Instruction, k: nat)
    requires k < |Checks(ix)|
    ensures FirstFailure(p, s, ix, k) ==
      if Fails(p, s, ix, Checks(ix)[k]) then Some(Checks(ix)[k]) else FirstFailure(p, s, ix, k + 1)
    ensures FirstFailure(p, s, ix, |Checks(ix)|) == None
  {
  }

  /** An instruction is accepted exactly when no check fails, and otherwise rejected with the first one that does. */
  lemma OutcomeOf(p: Program, s: State, ix: Instruction)
    ensures Step(p, s, ix).Ok? <==> Accepted(p, s, ix)
    ensures Step(p, s, ix).Err? ==> FirstFailure(p, s, ix, 0) == Some(Step(p, s, ix).error)
  {
    hide Step, Fails, Checks;
    AcceptedFrom(p, s, ix, 0);
    StepStops(p, s, ix);
  }

  // ---------------------------------------------------------------- what an accepted instruction changes

  /** The one address whose leaf an instruction may change. */
  function Target(p: Program, ix: Instruction): bytes32 {
    if NewAddress(p, ix).Some? then NewAddress(p, ix).value else ix.address
  }

  /** Everything but that leaf and the log stays. */
  ghost predicate OnlyAt(s: State, t: State, a: bytes32) {
    && t.slot == s.slot && a in t.leaves
    && forall b :: b != a ==> (b in t.leaves <==> b in s.leaves) && (b in s.leaves ==> t.leaves[b] == s.leaves[b])
  }

  /** Creating stores the arguments with both flags down, freezing and revoking raise one flag, and none of the three
      touches anything else. */
  lemma LifecycleEffect(p: Program, s: State, ix: Instruction)
    requires Step(p, s, ix).Ok? && (ix.InitAuthority? || ix.FreezeAuthority? || ix.RevokeAuthority?)
    ensures var t, a := Step(p, s, ix).state, Target(p, ix);
      && OnlyAt(s, t, a) && t.log == s.log && t.leaves[a].AuthorityLeaf?
      && var d := t.leaves[a].authority;
      && (ix.InitAuthority? ==>
            && d.owner == ix.signer && d.pk == ix.pk && d.labelBytes == ix.labelBytes && d.suite == 3
            && !d.frozen && !d.revoked && d.createdSlot == s.slot)
      && (!ix.InitAuthority? ==>
            var c := ix.current;
            && d.owner == c.owner && d.pk == c.pk && d.labelBytes == c.labelBytes && d.suite == c.suite
            && d.createdSlot == c.createdSlot
            && d.frozen == (c.frozen || ix.FreezeAuthority?) && d.revoked == (c.revoked || ix.RevokeAuthority?))
  {
    if ix.InitAuthority? { Seeds(p, ix.signer, ix.labelBytes); }
  }

  /** A registry commit adds one record with the instruction's hashes, the current slot and, in the second shape, both
      halves of beta in their places. */
  lemma RecordEffect(p: Program, s: State, ix: Instruction)
    requires Step(p, s, ix).Ok? && AddsRecord(ix)
    ensures var t, a := Step(p, s, ix).state, Target(p, ix);
      && OnlyAt(s, t, a) && a !in s.leaves && t.log == s.log && t.leaves[a].IsRecord()
      && var c := t.leaves[a].commit;
      && c.authority == ix.address && c.memoHash == ix.memoHash && c.proofHash == ix.proofHash
      && c.alphaHash == ix.alphaHash && c.committedSlot == s.slot
      && (ix.CommitProofWithBeta? <==> t.leaves[a].BetaLeaf?)
      && (ix.CommitProofWithBeta? ==> t.leaves[a].betaLo == ix.betaLo && t.leaves[a].betaHi == ix.betaHi)
  {
    Seeds(p, ix.address, ix.memoHash);
  }

  /** An event commit appends one event and leaves every account alone. */
  lemma EventEffect(p: Program, s: State, ix: Instruction)
    requires Step(p, s, ix).Ok? && ix.CommitProofEvent?
    ensures var t := Step(p, s, ix).state;
      && t.leaves == s.leaves && t.slot == s.slot && |t.log| == |s.log| + 1 && t.log[..|s.log|] == s.log
      && var e := t.log[|s.log|];
      && e.owner == ix.signer && e.labelBytes == ix.labelBytes && e.memoHash == ix.memoHash
      && e.proofHash == ix.proofHash && e.alphaHash == ix.alphaHash && e.committedSlot == s.slot
  {
  }

  /** A rejected instruction changes nothing, an accepted one takes effect, and the clock moves forward only. */
  lemma ActionEffect(p: Program, s: State, act: Action)
    ensures var t := Next(p, s, act);
      && (act.Submit? && !Accepted(p, s, act.ix) ==> t == s)
      && (act.Submit? && Accepted(p, s, act.ix) ==> Step(p, s, act.ix) == Ok(t))
      && (act.Tick? ==> t.leaves == s.leaves && t.log == s.log && t.slot >= s.slot && t.slot >= act.slot
                        && (t.slot == s.slot || t.slot == act.slot))
  {
    hide Step, Accepted;
    if act.Submit? { OutcomeOf(p, s, act.ix); }
  }
}
