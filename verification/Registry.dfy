/** programs/cc-vrf: the account and event shapes, the instructions, and what they do to the chain. */
module Registry {
  import opened Common

  // ---------------------------------------------------------------- state.rs, events.rs

  const SUITE_TAI: byte := 3

  datatype Authority = Authority(
    owner: bytes32, pk: bytes32, suite: byte, frozen: bool, revoked: bool, labelBytes: bytes32, createdSlot: nat)

  datatype Commit = Commit(
    authority: bytes32, memoHash: bytes32, proofHash: bytes32, alphaHash: bytes32, committedSlot: nat)

  datatype Event = Event(
    owner: bytes32, labelBytes: bytes32, memoHash: bytes32, proofHash: bytes32, alphaHash: bytes32, committedSlot: nat)

  /** A compressed account, by its type. */
  datatype Leaf =
    | AuthorityLeaf(authority: Authority)
    | CommitLeaf(commit: Commit)
    | BetaLeaf(commit: Commit, betaLo: bytes32, betaHi: bytes32)
  {
    predicate IsRecord() {
      !AuthorityLeaf?
    }
  }

  /** "vrf_authority" and "vrf_proof" */
  const AUTHORITY_SEED: bytes := [118, 114, 102, 95, 97, 117, 116, 104, 111, 114, 105, 116, 121]
  const PROOF_SEED: bytes := [118, 114, 102, 95, 112, 114, 111, 111, 102]

  /** The deployed program: its id, and the unknown address derivation it shares with its clients. */
  datatype Program = Program(id: bytes32, derive: (seq<bytes>, bytes32) -> bytes32) {

    function AuthorityAddress(owner: bytes32, labelBytes: bytes32): bytes32 {
      derive([AUTHORITY_SEED, owner, labelBytes], id)
    }

    /** Both registry shapes share the seed prefix, so they share the address. */
    function CommitAddress(authority: bytes32, memoHash: bytes32): bytes32 {
      derive([PROOF_SEED, authority, memoHash], id)
    }
  }

  datatype State = State(leaves: map<bytes32, Leaf>, log: seq<Event>, slot: nat)

  // ---------------------------------------------------------------- instructions

  datatype VrfError =
    | AlreadyFrozen
    | AuthorityNotFrozen
    | AuthorityRevoked
    | NotOwner
    | AuthorityLabelMismatch
    | AuthorityAddressMismatch
    | UnsupportedSuite
    | InvalidAccountData
    | LightRejected

  /** The arguments of the six instructions. `tree` says that the passed address tree is the expected one,
      `proof` that the validity proof and the packed accounts are in order. */
  datatype Instruction =
    | InitAuthority(signer: bytes32, tree: bool, proof: bool, pk: bytes32, suite: byte, labelBytes: bytes32)
    | FreezeAuthority(signer: bytes32, proof: bool, current: Authority, address: bytes32)
    | RevokeAuthority(signer: bytes32, proof: bool, current: Authority, address: bytes32)
    | CommitProof(signer: bytes32, proof: bool, address: bytes32, current: Authority, tree: bool,
                  memoHash: bytes32, proofHash: bytes32, alphaHash: bytes32)
    | CommitProofWithBeta(signer: bytes32, proof: bool, address: bytes32, current: Authority, tree: bool,
                          memoHash: bytes32, proofHash: bytes32, alphaHash: bytes32, betaLo: bytes32, betaHi: bytes32)
    | CommitProofEvent(signer: bytes32, proof: bool, address: bytes32, current: Authority, labelBytes: bytes32,
                       memoHash: bytes32, proofHash: bytes32, alphaHash: bytes32)

  datatype Result = Ok(state: State) | Err(error: VrfError)

  /** Light accepts an input account exactly when it is the current leaf at its address. */
  predicate IsCurrent(s: State, address: bytes32, current: Authority) {
    address in s.leaves && s.leaves[address] == AuthorityLeaf(current)
  }

  /** The guards shared by the three commit instructions. */
  function CommitGuard(signer: bytes32, current: Authority): Option<VrfError> {
    if current.owner != signer then Some(NotOwner)
    else if !current.frozen then Some(VrfError.AuthorityNotFrozen)
    else if current.revoked then Some(VrfError.AuthorityRevoked)
    else None
  }

  /** Add a record: the authority must be current and the record's address unused. */
  function AddRecord(s: State, ok: bool, current: Authority, authority: bytes32, address: bytes32, leaf: Leaf): Result {
    if ok && IsCurrent(s, authority, current) && address !in s.leaves
    then Ok(s.(leaves := s.leaves[address := leaf])) else Err(LightRejected)
  }

  /** One instruction: the new state, or the error that leaves the state as it was. */
  function Step(p: Program, s: State, ix: Instruction): Result {
    match ix
    case InitAuthority(signer, tree, proof, pk, suite, labelBytes) =>
      if suite != SUITE_TAI then Err(VrfError.UnsupportedSuite)
      else if !tree then Err(InvalidAccountData)
      else
        var address := p.AuthorityAddress(signer, labelBytes);
        if !proof || address in s.leaves then Err(LightRejected)
        else
          var leaf := AuthorityLeaf(Authority(signer, pk, suite, false, false, labelBytes, s.slot));
          Ok(s.(leaves := s.leaves[address := leaf]))
    case FreezeAuthority(signer, proof, current, address) =>
      if current.owner != signer then Err(NotOwner)
      else if current.frozen then Err(AlreadyFrozen)
      else if !proof || !IsCurrent(s, address, current) then Err(LightRejected)
      else Ok(s.(leaves := s.leaves[address := AuthorityLeaf(current.(frozen := true))]))
    case RevokeAuthority(signer, proof, current, address) =>
      if current.owner != signer then Err(NotOwner)
      else if !proof || !IsCurrent(s, address, current) then Err(LightRejected)
      else Ok(s.(leaves := s.leaves[address := AuthorityLeaf(current.(revoked := true))]))
    case CommitProof(signer, proof, authority, current, tree, memoHash, proofHash, alphaHash) =>
      if CommitGuard(signer, current).Some? then Err(CommitGuard(signer, current).value)
      else if !tree then Err(InvalidAccountData)
      else AddRecord(s, proof, current, authority, p.CommitAddress(authority, memoHash),
                     CommitLeaf(Commit(authority, memoHash, proofHash, alphaHash, s.slot)))
    case CommitProofWithBeta(signer, proof, authority, current, tree, memoHash, proofHash, alphaHash, betaLo, betaHi) =>
      if CommitGuard(signer, current).Some? then Err(CommitGuard(signer, current).value)
      else if !tree then Err(InvalidAccountData)
      else AddRecord(s, proof, current, authority, p.CommitAddress(authority, memoHash),
                     BetaLeaf(Commit(authority, memoHash, proofHash, alphaHash, s.slot), betaLo, betaHi))
    case CommitProofEvent(signer, proof, authority, current, labelBytes, memoHash, proofHash, alphaHash) =>
      if current.owner != signer then Err(NotOwner)
      else if current.labelBytes != labelBytes then Err(AuthorityLabelMismatch)
      else if CommitGuard(signer, current).Some? then Err(CommitGuard(signer, current).value)
      else if authority != p.AuthorityAddress(signer, labelBytes) then Err(AuthorityAddressMismatch)
      else if !proof || !IsCurrent(s, authority, current) then Err(LightRejected)
      else Ok(s.(log := s.log + [Event(signer, labelBytes, memoHash, proofHash, alphaHash, s.slot)]))
  }

  /** A handler that started in s and ended in t did what Step says; on an error nothing has changed. */
  predicate Performs(p: Program, s: State, ix: Instruction, t: State, r: Option<VrfError>) {
    match Step(p, s, ix)
    case Ok(next) => r == None && t == next
    case Err(e) => r == Some(e) && t == s
  }

  // ---------------------------------------------------------------- the handlers

  /** The chain as the handlers see it: compressed accounts, the event log and the clock. */
  class Chain {
    const program: Program
    var leaves: map<bytes32, Leaf>
    var log: seq<Event>
    var slot: nat

    constructor (program: Program)
      ensures this.program == program && View() == Genesis()
    {
      this.program := program;
      leaves, log, slot := map[], [], 0;
    }

    ghost function View(): State
      reads this
    {
      State(leaves, log, slot)
    }

    method InitAuthority(signer: bytes32, tree: bool, proof: bool, pk: bytes32, suite: byte, labelBytes: bytes32)
      returns (r: Option<VrfError>)
      modifies this
      ensures Performs(program, old(View()),
                       Instruction.InitAuthority(signer, tree, proof, pk, suite, labelBytes),
                       View(), r)
    {
      if suite != SUITE_TAI { return Some(VrfError.UnsupportedSuite); }
      if !tree { return Some(InvalidAccountData); }
      var address := program.AuthorityAddress(signer, labelBytes);
      var authority := DefaultAuthority();
      authority := authority.(owner := signer);
      authority := authority.(pk := pk);
      authority := authority.(suite := suite);
      authority := authority.(frozen := false);
      authority := authority.(revoked := false);
      authority := authority.(labelBytes := labelBytes);
      authority := authority.(createdSlot := slot);
      if !proof || address in leaves { return Some(LightRejected); }
      leaves := leaves[address := AuthorityLeaf(authority)];
      return None;
    }

    method FreezeAuthority(signer: bytes32, proof: bool, current: Authority, address: bytes32)
      returns (r: Option<VrfError>)
      modifies this
      ensures Performs(program, old(View()),
                       Instruction.FreezeAuthority(signer, proof, current, address),
                       View(), r)
    {
      if current.owner != signer { return Some(NotOwner); }
      if current.frozen { return Some(AlreadyFrozen); }
      var authority := current;
      authority := authority.(frozen := true);
      r := Replace(proof, address, current, authority);
    }

    method RevokeAuthority(signer: bytes32, proof: bool, current: Authority, address: bytes32)
      returns (r: Option<VrfError>)
      modifies this
      ensures Performs(program, old(View()),
                       Instruction.RevokeAuthority(signer, proof, current, address),
                       View(), r)
    {
      if current.owner != signer { return Some(NotOwner); }
      var authority := current;
      authority := authority.(revoked := true);
      r := Replace(proof, address, current, authority);
    }

    /** The system program replaces a current leaf. */
    method Replace(proof: bool, address: bytes32, current: Authority, updated: Authority)
      returns (r: Option<VrfError>)
      modifies this
      ensures if proof && old(IsCurrent(View(), address, current))
        then r == None && View() == old(View()).(leaves := old(leaves)[address := AuthorityLeaf(updated)])
        else r == Some(LightRejected) && View() == old(View())
    {
      if !proof || address !in leaves || leaves[address] != AuthorityLeaf(current) { return Some(LightRejected); }
      leaves := leaves[address := AuthorityLeaf(updated)];
      return None;
    }

    /** The system program reads the authority and creates the record. */
    method Create(proof: bool, authority: bytes32, current: Authority, address: bytes32, leaf: Leaf)
      returns (r: Option<VrfError>)
      modifies this
      ensures match AddRecord(old(View()), proof, current, authority, address, leaf)
        case Ok(s) => r == None && View() == s
        case Err(e) => r == Some(e) && View() == old(View())
    {
      if !proof || authority !in leaves || leaves[authority] != AuthorityLeaf(current) { return Some(LightRejected); }
      if address in leaves { return Some(LightRejected); }
      leaves := leaves[address := leaf];
      return None;
    }

    method CommitProof(signer: bytes32, proof: bool, authorityAddress: bytes32, current: Authority, tree: bool,
                       memoHash: bytes32, proofHash: bytes32, alphaHash: bytes32)
      returns (r: Option<VrfError>)
      modifies this
      ensures Performs(program, old(View()),
                       Instruction.CommitProof(signer, proof, authorityAddress, current, tree,
                         memoHash, proofHash, alphaHash),
                       View(), r)
    {
      if current.owner != signer { return Some(NotOwner); }
      if !current.frozen { return Some(VrfError.AuthorityNotFrozen); }
      if current.revoked { return Some(VrfError.AuthorityRevoked); }
      if !tree { return Some(InvalidAccountData); }
      var address := program.CommitAddress(authorityAddress, memoHash);
      var commit := DefaultCommit();
      commit := commit.(authority := authorityAddress);
      commit := commit.(memoHash := memoHash);
      commit := commit.(proofHash := proofHash);
      commit := commit.(alphaHash := alphaHash);
      commit := commit.(committedSlot := slot);
      r := Create(proof, authorityAddress, current, address, CommitLeaf(commit));
    }

    method CommitProofWithBeta(signer: bytes32, proof: bool, authorityAddress: bytes32, current: Authority, tree: bool,
                               memoHash: bytes32, proofHash: bytes32, alphaHash: bytes32,
                               betaLo: bytes32, betaHi: bytes32)
      returns (r: Option<VrfError>)
      modifies this
      ensures Performs(program, old(View()),
                       Instruction.CommitProofWithBeta(signer, proof, authorityAddress, current, tree,
                         memoHash, proofHash, alphaHash, betaLo, betaHi),
                       View(), r)
    {
      if current.owner != signer { return Some(NotOwner); }
      if !current.frozen { return Some(VrfError.AuthorityNotFrozen); }
      if current.revoked { return Some(VrfError.AuthorityRevoked); }
      if !tree { return Some(InvalidAccountData); }
      var address := program.CommitAddress(authorityAddress, memoHash);
      var commit := BetaLeaf(DefaultCommit(), Zeros(), Zeros());
      commit := commit.(commit := commit.commit.(authority := authorityAddress));
      commit := commit.(commit := commit.commit.(memoHash := memoHash));
      commit := commit.(commit := commit.commit.(proofHash := proofHash));
      commit := commit.(commit := commit.commit.(alphaHash := alphaHash));
      commit := commit.(betaLo := betaLo);
      commit := commit.(betaHi := betaHi);
      commit := commit.(commit := commit.commit.(committedSlot := slot));
      r := Create(proof, authorityAddress, current, address, commit);
    }

    method CommitProofEvent(signer: bytes32, proof: bool, authorityAddress: bytes32, current: Authority,
                            labelBytes: bytes32, memoHash: bytes32, proofHash: bytes32, alphaHash: bytes32)
      returns (r: Option<VrfError>)
      modifies this
      ensures Performs(program, old(View()),
                       Instruction.CommitProofEvent(signer, proof, authorityAddress, current, labelBytes,
                         memoHash, proofHash, alphaHash),
                       View(), r)
    {
      if current.owner != signer { return Some(NotOwner); }
      if current.labelBytes != labelBytes { return Some(AuthorityLabelMismatch); }
      if !current.frozen { return Some(VrfError.AuthorityNotFrozen); }
      if current.revoked { return Some(VrfError.AuthorityRevoked); }
      var derived := program.AuthorityAddress(signer, labelBytes);
      if authorityAddress != derived { return Some(AuthorityAddressMismatch); }
      if !proof || authorityAddress !in leaves || leaves[authorityAddress] != AuthorityLeaf(current) {
        return Some(LightRejected);
      }
      log := log + [Event(signer, labelBytes, memoHash, proofHash, alphaHash, slot)];
      return None;
    }

    /** The clock, which never runs back. */
    method Tick(n: nat)
      modifies this
      ensures View() == Next(program, old(View()), Action.Tick(n))
    {
      if n >= slot { slot := n; }
    }

    /** The program's entry point: the handler of the instruction. */
    method Submit(ix: Instruction) returns (r: Option<VrfError>)
      modifies this
      ensures Performs(program, old(View()), ix, View(), r)
    {
      match ix
      case InitAuthority(signer, tree, proof, pk, suite, labelBytes) =>
        r := InitAuthority(signer, tree, proof, pk, suite, labelBytes);
      case FreezeAuthority(signer, proof, current, address) =>
        r := FreezeAuthority(signer, proof, current, address);
      case RevokeAuthority(signer, proof, current, address) =>
        r := RevokeAuthority(signer, proof, current, address);
      case CommitProof(signer, proof, address, current, tree, memoHash, proofHash, alphaHash) =>
        r := CommitProof(signer, proof, address, current, tree, memoHash, proofHash, alphaHash);
      case CommitProofWithBeta(signer, proof, address, current, tree, memoHash, proofHash, alphaHash, lo, hi) =>
        r := CommitProofWithBeta(signer, proof, address, current, tree, memoHash, proofHash, alphaHash, lo, hi);
      case CommitProofEvent(signer, proof, address, current, labelBytes, memoHash, proofHash, alphaHash) =>
        r := CommitProofEvent(signer, proof, address, current, labelBytes, memoHash, proofHash, alphaHash);
    }

    /** Any sequence of handler calls and clock steps, from any point of a run, goes on with that run. */
    method Replay(ghost before: seq<Action>, actions: seq<Action>)
      requires View() == After(program, before)
      modifies this
      ensures View() == After(program, before + actions)
    {
      hide Step, Performs;
      assert before + actions[..0] == before;
      for k := 0 to |actions|
        invariant View() == After(program, before + actions[..k])
      {
        assert (before + actions[..k + 1])[..|before| + k] == before + actions[..k];
        match actions[k]
        case Tick(n) => Tick(n);
        case Submit(ix) =>
          ghost var s := View();
          var r := Submit(ix);
          PerformsIsNext(program, s, ix, View(), r);
      }
      assert actions[..|actions|] == actions;
    }
  }

  lemma PerformsIsNext(p: Program, s: State, ix: Instruction, t: State, r: Option<VrfError>)
    requires Performs(p, s, ix, t, r)
    ensures t == Next(p, s, Action.Submit(ix))
  {
  }

  function Zeros(): bytes32 {
    seq<byte>(32, i => 0)
  }

  function DefaultAuthority(): Authority {
    Authority(Zeros(), Zeros(), 0, false, false, Zeros(), 0)
  }

  function DefaultCommit(): Commit {
    Commit(Zeros(), Zeros(), Zeros(), Zeros(), 0)
  }

  // ---------------------------------------------------------------- runs

  function Genesis(): State {
    State(map[], [], 0)
  }

  /** One step of a run: the clock moves on, or somebody submits an instruction. */
  datatype Action = Tick(slot: nat) | Submit(ix: Instruction)

  /** A rejected instruction changes nothing, and the clock never runs back. */
  function Next(p: Program, s: State, a: Action): State {
    match a
    case Tick(n) => if n >= s.slot then s.(slot := n) else s
    case Submit(ix) => (match Step(p, s, ix) case Ok(t) => t case Err(_) => s)
  }

  /** The state after a run. */
  function After(p: Program, run: seq<Action>): State {
    if run == [] then Genesis() else Next(p, After(p, run[..|run| - 1]), run[|run| - 1])
  }

  // ---------------------------------------------------------------- what every step keeps

  /** What becomes of a leaf: records stay as they are; of an authority only the two flags move, and only up. */
  predicate LeafKept(l: Leaf, m: Leaf) {
    if l.IsRecord() then m == l
    else
      && m.AuthorityLeaf?
      && (l.authority.frozen ==> m.authority.frozen) && (l.authority.revoked ==> m.authority.revoked)
      && m.authority == l.authority.(frozen := m.authority.frozen, revoked := m.authority.revoked)
  }

  ghost predicate Kept(s: State, t: State) {
    && (forall a :: a in s.leaves ==> a in t.leaves && LeafKept(s.leaves[a], t.leaves[a]))
    && s.log <= t.log && s.slot <= t.slot
  }

  lemma StepKeeps(p: Program, s: State, a: Action)
    ensures Kept(s, Next(p, s, a))
  {
  }

  /** From any state of a run to any later one: nothing is removed, records and events are never altered, and an
      authority keeps its owner, key, suite, label and creation slot, frozen or not. */
  lemma {:induction false} RunKeeps(p: Program, run: seq<Action>, more: seq<Action>)
    ensures Kept(After(p, run), After(p, run + more))
    decreases |more|
  {
    if more == [] {
      assert run + more == run;
    } else {
      var front, last := more[..|more| - 1], more[|more| - 1];
      RunKeeps(p, run, front);
      assert (run + more)[..|run + more| - 1] == run + front && (run + more)[|run + more| - 1] == last;
      StepKeeps(p, After(p, run + front), last);
    }
  }

  /** The authority with this address is stored and frozen. */
  predicate FrozenAt(s: State, address: bytes32) {
    address in s.leaves && s.leaves[address].AuthorityLeaf? && s.leaves[address].authority.frozen
  }

  /** The authority with this address is stored, frozen and not revoked: it may commit. */
  predicate MayCommit(s: State, address: bytes32) {
    FrozenAt(s, address) && !s.leaves[address].authority.revoked
  }

  predicate RevokedAt(s: State, address: bytes32) {
    address in s.leaves && s.leaves[address].AuthorityLeaf? && s.leaves[address].authority.revoked
  }

  /** Where a leaf lives and what stands behind it. */
  predicate WellPlaced(p: Program, s: State, a: bytes32, l: Leaf) {
    match l
    case AuthorityLeaf(x) => a == p.AuthorityAddress(x.owner, x.labelBytes) && x.suite == SUITE_TAI
    case _ => a == p.CommitAddress(l.commit.authority, l.commit.memoHash) && FrozenAt(s, l.commit.authority)
  }

  /** The chain invariant. */
  ghost predicate Sound(p: Program, s: State) {
    && (forall a :: a in s.leaves ==> WellPlaced(p, s, a, s.leaves[a]))
    && (forall e :: e in s.log ==> FrozenAt(s, p.AuthorityAddress(e.owner, e.labelBytes)))
  }

  lemma StepSound(p: Program, s: State, a: Action)
    requires Sound(p, s)
    ensures Sound(p, Next(p, s, a))
  {
    var t := Next(p, s, a);
    StepKeeps(p, s, a);
    forall b | b in t.leaves ensures WellPlaced(p, t, b, t.leaves[b]) {
      if b in s.leaves { assert WellPlaced(p, s, b, s.leaves[b]); }
    }
    hide Next;
    forall e | e in t.log ensures FrozenAt(t, p.AuthorityAddress(e.owner, e.labelBytes)) {
      if t.log != s.log {
        EventAdded(p, s, a);
        assert t.log == s.log + [t.log[|s.log|]];
      }
    }
  }

  /** Every reachable state is sound: authorities sit at the address of their own owner and label with the supported
      suite, records at the address of their own authority and memo, and only frozen authorities have any. */
  lemma {:induction false} RunSound(p: Program, run: seq<Action>)
    ensures Sound(p, After(p, run))
  {
    if run != [] {
      RunSound(p, run[..|run| - 1]);
      StepSound(p, After(p, run[..|run| - 1]), run[|run| - 1]);
    }
  }

  /** In every reachable state an authority and memo hash have at most one record, of either shape. */
  lemma OneRecordPerMemo(p: Program, run: seq<Action>, a: bytes32, b: bytes32)
    requires var s := After(p, run);
      && a in s.leaves && s.leaves[a].IsRecord() && b in s.leaves && s.leaves[b].IsRecord()
      && s.leaves[a].commit.authority == s.leaves[b].commit.authority
      && s.leaves[a].commit.memoHash == s.leaves[b].commit.memoHash
    ensures a == b
  {
    RunSound(p, run);
    var s := After(p, run);
    assert WellPlaced(p, s, a, s.leaves[a]) && WellPlaced(p, s, b, s.leaves[b]);
  }

  // ---------------------------------------------------------------- where records and events come from

  /** A step that adds a record adds exactly one, for an authority that may commit at that moment. */
  lemma RecordAdded(p: Program, s: State, act: Action, a: bytes32)
    requires a !in s.leaves && a in Next(p, s, act).leaves && Next(p, s, act).leaves[a].IsRecord()
    ensures var t := Next(p, s, act);
      && t == s.(leaves := s.leaves[a := t.leaves[a]])
      && MayCommit(s, t.leaves[a].commit.authority) && t.leaves[a].commit.committedSlot == s.slot
  {
  }

  /** A step that adds to the log adds one event, for an authority that may commit at that moment. */
  lemma EventAdded(p: Program, s: State, act: Action)
    requires Next(p, s, act).log != s.log
    ensures var t := Next(p, s, act);
      && |t.log| == |s.log| + 1 && t.log[..|s.log|] == s.log
      && MayCommit(s, p.AuthorityAddress(t.log[|s.log|].owner, t.log[|s.log|].labelBytes))
      && t.log[|s.log|].committedSlot == s.slot
  {
  }

  /** Every record was added, as it is, by some step at which its authority was frozen and not revoked. */
  lemma {:induction false} RecordProvenance(p: Program, run: seq<Action>, a: bytes32) returns (n: nat)
    requires a in After(p, run).leaves && After(p, run).leaves[a].IsRecord()
    ensures n < |run|
    ensures a !in After(p, run[..n]).leaves
    ensures var r := After(p, run).leaves[a];
      && MayCommit(After(p, run[..n]), r.commit.authority) && r.commit.committedSlot == After(p, run[..n]).slot
      && a in After(p, run[..n + 1]).leaves && After(p, run[..n + 1]).leaves[a] == r
  {
    hide Next;
    var front := run[..|run| - 1];
    var s := After(p, front);
    if a in s.leaves {
      StepKeeps(p, s, run[|run| - 1]);
      n := RecordProvenance(p, front, a);
      assert front[..n] == run[..n] && front[..n + 1] == run[..n + 1];
    } else {
      RecordAdded(p, s, run[|run| - 1], a);
      n := |run| - 1;
      assert run[..n + 1] == run;
    }
  }

  /** Every event was emitted by some step at which its authority was frozen and not revoked. */
  lemma {:induction false} EventProvenance(p: Program, run: seq<Action>, k: nat) returns (n: nat)
    requires k < |After(p, run).log|
    ensures n < |run| && |After(p, run[..n]).log| == k
    ensures var e := After(p, run).log[k];
      && MayCommit(After(p, run[..n]), p.AuthorityAddress(e.owner, e.labelBytes))
      && e.committedSlot == After(p, run[..n]).slot
      && After(p, run[..n + 1]).log == After(p, run[..n]).log + [e]
  {
    hide Next;
    var front := run[..|run| - 1];
    var s := After(p, front);
    if k < |s.log| {
      StepKeeps(p, s, run[|run| - 1]);
      n := EventProvenance(p, front, k);
      assert front[..n] == run[..n] && front[..n + 1] == run[..n + 1];
    } else {
      EventAdded(p, s, run[|run| - 1]);
      n := |run| - 1;
      assert run[..n + 1] == run;
    }
  }

  // ---------------------------------------------------------------- who may do what

  /** The owner behind a leaf: its own for an authority, its authority's for a record. */
  function OwnerBehind(s: State, l: Leaf): Option<bytes32> {
    if l.AuthorityLeaf? then Some(l.authority.owner)
    else if l.commit.authority in s.leaves && s.leaves[l.commit.authority].AuthorityLeaf?
    then Some(s.leaves[l.commit.authority].authority.owner)
    else None
  }

  /** Only the owner acts: whatever leaf an instruction adds or changes, and whatever event it emits, is signed for by
      the owner of the authority concerned. */
  lemma OnlyOwnerActs(p: Program, s: State, ix: Instruction)
    requires Step(p, s, ix).Ok?
    ensures var t := Step(p, s, ix).state;
      && (forall a :: a in t.leaves && (a !in s.leaves || s.leaves[a] != t.leaves[a]) ==>
            OwnerBehind(t, t.leaves[a]) == Some(ix.signer))
      && (forall k :: |s.log| <= k < |t.log| ==>
            && t.log[k].owner == ix.signer
            && IsCurrent(s, p.AuthorityAddress(ix.signer, t.log[k].labelBytes), ix.current))
  {
    var t := Step(p, s, ix).state;
    StepKeeps(p, s, Submit(ix));
    forall a | a in t.leaves && (a !in s.leaves || s.leaves[a] != t.leaves[a])
      ensures OwnerBehind(t, t.leaves[a]) == Some(ix.signer)
    {
      if a !in s.leaves && t.leaves[a].IsRecord() {
        RecordAdded(p, s, Submit(ix), a);
        assert LeafKept(s.leaves[ix.address], t.leaves[ix.address]);
      }
    }
  }

  /** The flags of a stored authority move exactly by its own freeze and revoke instructions. */
  lemma FlagsMoveExactly(p: Program, s: State, ix: Instruction, a: bytes32)
    requires Step(p, s, ix).Ok? && a in s.leaves && s.leaves[a].AuthorityLeaf?
    ensures var d, t := s.leaves[a].authority, Step(p, s, ix).state;
      && a in t.leaves && t.leaves[a].AuthorityLeaf?
      && (t.leaves[a].authority.frozen <==> d.frozen || (ix.FreezeAuthority? && ix.address == a))
      && (t.leaves[a].authority.revoked <==> d.revoked || (ix.RevokeAuthority? && ix.address == a))
  {
    StepKeeps(p, s, Submit(ix));
  }

  // ---------------------------------------------------------------- revocation

  /** From s to t this authority got no record and no event. */
  ghost predicate NothingAdded(p: Program, s: State, t: State, address: bytes32) {
    && (forall a :: a in t.leaves && t.leaves[a].IsRecord() && t.leaves[a].commit.authority == address ==>
          a in s.leaves && s.leaves[a] == t.leaves[a])
    && s.log <= t.log
    && (forall k :: |s.log| <= k < |t.log| ==> p.AuthorityAddress(t.log[k].owner, t.log[k].labelBytes) != address)
  }

  lemma StepAfterRevocation(p: Program, s: State, act: Action, address: bytes32)
    requires RevokedAt(s, address)
    ensures NothingAdded(p, s, Next(p, s, act), address)
  {
    hide Next;
    var t := Next(p, s, act);
    StepKeeps(p, s, act);
    forall a | a in t.leaves && t.leaves[a].IsRecord() && t.leaves[a].commit.authority == address
      ensures a in s.leaves && s.leaves[a] == t.leaves[a]
    {
      if a !in s.leaves { RecordAdded(p, s, act, a); }
    }
    if t.log != s.log { EventAdded(p, s, act); }
  }

  /** After revocation an authority gets no further record and no further event. */
  lemma {:induction false} NothingAfterRevocation(p: Program, run: seq<Action>, more: seq<Action>, address: bytes32)
    requires RevokedAt(After(p, run), address)
    ensures NothingAdded(p, After(p, run), After(p, run + more), address)
    decreases |more|
  {
    hide Next;
    if more == [] {
      assert run + more == run;
    } else {
      var front, last := more[..|more| - 1], more[|more| - 1];
      NothingAfterRevocation(p, run, front, address);
      RunKeeps(p, run, front);
      assert (run + more)[..|run + more| - 1] == run + front && (run + more)[|run + more| - 1] == last;
      StepAfterRevocation(p, After(p, run + front), last, address);
    }
  }

  /** An authority revoked before it was frozen never gets a record or an event. */
  lemma RevokedBeforeFrozen(p: Program, run: seq<Action>, more: seq<Action>, address: bytes32)
    requires RevokedAt(After(p, run), address) && !FrozenAt(After(p, run), address)
    ensures var t := After(p, run + more);
      && (forall a :: a in t.leaves && t.leaves[a].IsRecord() ==> t.leaves[a].commit.authority != address)
      && (forall e :: e in t.log ==> p.AuthorityAddress(e.owner, e.labelBytes) != address)
  {
    RunSound(p, run);
    NothingAfterRevocation(p, run, more, address);
    var s, t := After(p, run), After(p, run + more);
    forall a | a in t.leaves && t.leaves[a].IsRecord() ensures t.leaves[a].commit.authority != address {
      if a in s.leaves { assert WellPlaced(p, s, a, s.leaves[a]); }
    }
    forall e | e in t.log ensures p.AuthorityAddress(e.owner, e.labelBytes) != address {
      var k :| 0 <= k < |t.log| && t.log[k] == e;
      if k < |s.log| { assert s.log[k] == e && e in s.log; }
    }
  }

  /** Once a memo is committed, every further registry commit for it is rejected, whatever the shape or the state. */
  lemma ReplayRejected(p: Program, run: seq<Action>, more: seq<Action>, a: bytes32, ix: Instruction)
    requires a in After(p, run).leaves && After(p, run).leaves[a].IsRecord()
    requires ix.CommitProof? || ix.CommitProofWithBeta?
    requires ix.address == After(p, run).leaves[a].commit.authority
    requires ix.memoHash == After(p, run).leaves[a].commit.memoHash
    ensures Step(p, After(p, run + more), ix).Err?
  {
    RunSound(p, run);
    RunKeeps(p, run, more);
    assert WellPlaced(p, After(p, run), a, After(p, run).leaves[a]);
  }
}
