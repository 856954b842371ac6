/** packages/vrf-client/src/operations.ts, findProofCommitEvents: the paginated scan of an owner's history. */
module Scan {
  import opened Common
  import opened Registry
  import opened Verdicts
  import Instructions

  // ---------------------------------------------------------------- the RPC, as an oracle

  /** A parsed log entry: a commitment event of the program, or anything else. */
  datatype LogEntry = Committed(event: Event) | OtherEntry

  /** A fetched transaction; its logs may be missing. */
  datatype Transaction = Transaction(slot: nat, logs: Option<seq<LogEntry>>)

  datatype SignatureInfo = SignatureInfo(signature: string, err: bool)

  /** An owner's history, newest first, the pages it is served in, and what fetching a signature gives:
      None stands for a null answer or an exception. */
  datatype Rpc = Rpc(
    history: seq<SignatureInfo>, pageSize: (nat, nat) -> nat, fetch: string -> Option<Transaction>)
  {
    /** Signatures are distinct, and before the end a page is not empty and not above its limit. */
    ghost predicate Valid() {
      && (forall i, j :: 0 <= i < j < |history| ==> history[i].signature != history[j].signature)
      && (forall pos: nat, limit: nat :: pos < |history| && limit > 0 ==>
            1 <= pageSize(pos, limit) <= limit && pos + pageSize(pos, limit) <= |history|)
    }

    function PositionAfter(before: Option<string>): (pos: nat)
      ensures pos <= |history|
    {
      match before
      case None => 0
      case Some(s) => FindSignature(history, s)
    }

    /** getSignaturesForAddress: the next page behind a signature. */
    function GetSignatures(before: Option<string>, limit: nat): seq<SignatureInfo>
      requires Valid() && limit > 0
    {
      var pos := PositionAfter(before);
      if pos == |history| then [] else history[pos..pos + pageSize(pos, limit)]
    }
  }

  /** The position behind the entry with this signature; the end when there is none. */
  function FindSignature(h: seq<SignatureInfo>, s: string): (pos: nat)
    ensures pos <= |h|
    ensures forall i :: 0 <= i < pos - 1 ==> h[i].signature != s
    ensures pos < |h| ==> pos > 0 && h[pos - 1].signature == s
  {
    if h == [] then 0
    else if h[0].signature == s then 1
    else
      var rest := FindSignature(h[1..], s);
      assert forall i :: 1 <= i < |h| ==> h[i] == h[1..][i - 1];
      if rest == |h| - 1 then |h| else 1 + rest
  }

  lemma CursorPosition(rpc: Rpc, n: nat)
    requires rpc.Valid() && 0 < n <= |rpc.history|
    ensures rpc.PositionAfter(Some(rpc.history[n - 1].signature)) == n
  {
    var pos := FindSignature(rpc.history, rpc.history[n - 1].signature);
    assert pos <= n;
  }

  /** A page starts where the cursor stands, respects its limit, and is empty exactly at the end of the history. */
  lemma NextPage(rpc: Rpc, before: Option<string>, limit: nat)
    requires rpc.Valid() && limit > 0
    ensures var page, pos := rpc.GetSignatures(before, limit), rpc.PositionAfter(before);
      && |page| <= limit && pos + |page| <= |rpc.history| && page == rpc.history[pos..pos + |page|]
      && (|page| == 0 <==> pos == |rpc.history|)
  {
  }

  // ---------------------------------------------------------------- what is collected

  datatype Query = Query(owner: bytes32, labelBytes: bytes, memoHash: bytes)

  datatype FoundEvent = FoundEvent(
    owner: bytes32, labelBytes: bytes32, txSignature: string, slot: nat, onChainCommit: OnChainCommit)

  datatype ScanResult = ScanResult(events: seq<FoundEvent>, truncated: bool, unfetchedSignatures: seq<string>)

  predicate Matches(q: Query, e: LogEntry) {
    e.Committed? && e.event.owner == q.owner && e.event.labelBytes == q.labelBytes && e.event.memoHash == q.memoHash
  }

  function Found(p: Program, signature: string, slot: nat, e: Event): FoundEvent {
    FoundEvent(e.owner, e.labelBytes, signature, slot,
               OnChainCommit(Some(p.AuthorityAddress(e.owner, e.labelBytes)),
                             e.memoHash, e.proofHash, e.alphaHash, e.committedSlot))
  }

  /** The matching events of a log, in log order. */
  function FromLog(p: Program, q: Query, signature: string, slot: nat, log: seq<LogEntry>): seq<FoundEvent> {
    if log == [] then []
    else
      FromLog(p, q, signature, slot, log[..|log| - 1])
      + (if Matches(q, log[|log| - 1]) then [Found(p, signature, slot, log[|log| - 1].event)] else [])
  }

  /** The matching events of a fetched transaction; none when its logs are missing. */
  function FromTransaction(p: Program, q: Query, signature: string, tx: Option<Transaction>): seq<FoundEvent> {
    if tx.Some? && tx.value.logs.Some? then FromLog(p, q, signature, tx.value.slot, tx.value.logs.value) else []
  }

  /** What one history entry contributes: a failed transaction nothing. */
  function FromEntry(p: Program, q: Query, rpc: Rpc, info: SignatureInfo): seq<FoundEvent> {
    if info.err then [] else FromTransaction(p, q, info.signature, rpc.fetch(info.signature))
  }

  /** What the entries of a history contribute, in its order. */
  function FromHistory(p: Program, q: Query, rpc: Rpc, h: seq<SignatureInfo>): seq<FoundEvent> {
    if h == [] then []
    else FromHistory(p, q, rpc, h[..|h| - 1]) + FromEntry(p, q, rpc, h[|h| - 1])
  }

  /** The signatures of the transactions that did not fail and could not be fetched. */
  function Unfetched(rpc: Rpc, h: seq<SignatureInfo>): seq<string> {
    if h == [] then []
    else
      var last := h[|h| - 1];
      Unfetched(rpc, h[..|h| - 1]) + (if !last.err && rpc.fetch(last.signature).None? then [last.signature] else [])
  }

  function Min(a: int, b: int): int {
    if a < b then a else b
  }

  /** How many entries a scan with this limit covers. */
  function Covered(rpc: Rpc, limit: int): (n: nat)
    ensures n <= |rpc.history|
  {
    if limit <= 0 then 0 else Min(limit, |rpc.history|)
  }

  // ---------------------------------------------------------------- the code

  /** collectFromTx: push every matching event of one transaction. */
  method CollectFromTx(p: Program, q: Query, signature: string, tx: Option<Transaction>, found: seq<FoundEvent>)
    returns (out: seq<FoundEvent>)
    ensures out == found + FromTransaction(p, q, signature, tx)
  {
    out := found;
    if tx.None? || tx.value.logs.None? { return; }
    var log := tx.value.logs.value;
    for i := 0 to |log|
      invariant out == found + FromLog(p, q, signature, tx.value.slot, log[..i])
    {
      assert log[..i + 1][..i] == log[..i];
      if !Matches(q, log[i]) { continue; }
      out := out + [Found(p, signature, tx.value.slot, log[i].event)];
    }
    assert log[..|log|] == log;
  }

  lemma NotFetched(p: Program, q: Query, signature: string, tx: Option<Transaction>)
    ensures tx.None? ==> FromTransaction(p, q, signature, tx) == []
  {
  }

  lemma OneMoreEntry(p: Program, q: Query, rpc: Rpc, h: seq<SignatureInfo>, info: SignatureInfo)
    ensures FromHistory(p, q, rpc, h + [info]) == FromHistory(p, q, rpc, h) + FromEntry(p, q, rpc, info)
    ensures Unfetched(rpc, h + [info])
      == Unfetched(rpc, h) + (if !info.err && rpc.fetch(info.signature).None? then [info.signature] else [])
  {
    assert (h + [info])[..|h|] == h;
  }

  /** The body of the scan for one page. */
  method CollectPage(p: Program, q: Query, rpc: Rpc, page: seq<SignatureInfo>, ghost before: seq<SignatureInfo>,
                     found: seq<FoundEvent>, missed: seq<string>)
    returns (out: seq<FoundEvent>, unfetched: seq<string>)
    requires found == FromHistory(p, q, rpc, before) && missed == Unfetched(rpc, before)
    ensures out == FromHistory(p, q, rpc, before + page) && unfetched == Unfetched(rpc, before + page)
  {
    hide FromHistory, Unfetched, FromTransaction;
    out, unfetched := found, missed;
    assert before + page[..0] == before;
    for i := 0 to |page|
      invariant out == FromHistory(p, q, rpc, before + page[..i])
      invariant unfetched == Unfetched(rpc, before + page[..i])
    {
      var info := page[i];
      assert before + page[..i + 1] == (before + page[..i]) + [info];
      OneMoreEntry(p, q, rpc, before + page[..i], info);
      NotFetched(p, q, info.signature, rpc.fetch(info.signature));
      if info.err { continue; }
      var tx := rpc.fetch(info.signature);
      if tx.None? {
        unfetched := unfetched + [info.signature];
        continue;
      }
      out := CollectFromTx(p, q, info.signature, tx, out);
    }
    assert page[..|page|] == page;
  }

  /** The signature mode: one transaction, never truncated. */
  method LookUp(p: Program, q: Query, rpc: Rpc, signature: string) returns (r: ScanResult)
    ensures r == LookedUp(p, q, rpc, signature)
  {
    var out: seq<FoundEvent>, unfetched: seq<string> := [], [];
    var tx := rpc.fetch(signature);
    if tx.None? { unfetched := [signature]; } else { out := CollectFromTx(p, q, signature, tx, out); }
    out := Reverse(out);
    return ScanResult(out, false, unfetched);
  }

  /** findProofCommitEvents: one known transaction, or the owner's history up to a limit. */
  method FindProofCommitEvents(p: Program, q: Query, rpc: Rpc, signature: Option<string>, limitOption: Option<int>)
    returns (r: ScanResult)
    requires rpc.Valid()
    ensures signature.Some? && signature.value != "" ==>
      r == LookedUp(p, q, rpc, signature.value)
    ensures signature.None? || signature.value == "" ==>
      r == ScannedTo(p, q, rpc, if limitOption.Some? then limitOption.value else 1000)
  {
    hide Rpc.GetSignatures, Rpc.PositionAfter, FromHistory, Unfetched, LookedUp;
    var out: seq<FoundEvent>, unfetched: seq<string> := [], [];
    if signature.Some? && signature.value != "" {
      r := LookUp(p, q, rpc, signature.value);
      return;
    }
    var limit := if limitOption.Some? then limitOption.value else 1000;
    var before: Option<string> := None;
    var scanned := 0;
    NothingScanned(p, q, rpc);
    var reachedEnd := false;
    while scanned < limit
      invariant 0 <= scanned <= |rpc.history| && (scanned > 0 ==> scanned <= limit)
      invariant rpc.PositionAfter(before) == scanned
      invariant out == FromHistory(p, q, rpc, rpc.history[..scanned])
      invariant unfetched == Unfetched(rpc, rpc.history[..scanned])
      invariant !reachedEnd
      decreases limit - scanned
    {
      var pageLimit := Min(1000, limit - scanned);
      NextPage(rpc, before, pageLimit);
      var page := rpc.GetSignatures(before, pageLimit);
      if |page| == 0 {
        reachedEnd := true;
        break;
      }
      ghost var covered := rpc.history[..scanned];
      assert rpc.history[..scanned + |page|] == covered + page;
      scanned := scanned + |page|;
      CursorPosition(rpc, scanned);
      before := Some(page[|page| - 1].signature);
      out, unfetched := CollectPage(p, q, rpc, page, covered, out, unfetched);
    }
    out := Reverse(out);
    return ScanResult(out, !reachedEnd, unfetched);
  }

  lemma NothingScanned(p: Program, q: Query, rpc: Rpc)
    ensures rpc.PositionAfter(None) == 0
    ensures FromHistory(p, q, rpc, rpc.history[..0]) == [] && Unfetched(rpc, rpc.history[..0]) == []
  {
  }

  /** The result of a history scan: everything in the newest entries up to the limit, reversed; truncated exactly when
      the history is at least as long as the limit. */
  function ScannedTo(p: Program, q: Query, rpc: Rpc, limit: int): ScanResult {
    var h := rpc.history[..Covered(rpc, limit)];
    ScanResult(Reverse(FromHistory(p, q, rpc, h)), |rpc.history| >= limit, Unfetched(rpc, h))
  }

  /** The result of looking one signature up. */
  function LookedUp(p: Program, q: Query, rpc: Rpc, signature: string): ScanResult {
    var tx := rpc.fetch(signature);
    ScanResult(Reverse(FromTransaction(p, q, signature, tx)), false, if tx.None? then [signature] else [])
  }

  // ---------------------------------------------------------------- completeness and order

  /** An event of a log is found exactly when it matches. */
  lemma {:induction false} FromLogContains(p: Program, q: Query, signature: string, slot: nat, log: seq<LogEntry>,
                                           f: FoundEvent)
    ensures f in FromLog(p, q, signature, slot, log) <==>
      exists e :: e in log && Matches(q, e) && f == Found(p, signature, slot, e.event)
  {
    if log != [] {
      var front, last := log[..|log| - 1], log[|log| - 1];
      FromLogContains(p, q, signature, slot, front, f);
      assert log == front + [last];
    }
  }

  /** The entry holds this event: it did not fail, was fetched, has logs, and the event is a match among them. */
  ghost predicate Holds(p: Program, q: Query, rpc: Rpc, info: SignatureInfo, f: FoundEvent) {
    && !info.err && rpc.fetch(info.signature).Some? && rpc.fetch(info.signature).value.logs.Some?
    && var tx := rpc.fetch(info.signature).value;
    exists e :: e in tx.logs.value && Matches(q, e) && f == Found(p, info.signature, tx.slot, e.event)
  }

  lemma FromEntryContains(p: Program, q: Query, rpc: Rpc, info: SignatureInfo, f: FoundEvent)
    ensures f in FromEntry(p, q, rpc, info) <==> Holds(p, q, rpc, info, f)
  {
    var tx := rpc.fetch(info.signature);
    if tx.Some? && tx.value.logs.Some? {
      FromLogContains(p, q, info.signature, tx.value.slot, tx.value.logs.value, f);
    }
  }

  lemma {:induction false} FromHistoryContains(p: Program, q: Query, rpc: Rpc, h: seq<SignatureInfo>, f: FoundEvent)
    ensures f in FromHistory(p, q, rpc, h) <==> exists info :: info in h && Holds(p, q, rpc, info, f)
  {
    if h != [] {
      var front, last := h[..|h| - 1], h[|h| - 1];
      FromHistoryContains(p, q, rpc, front, f);
      FromEntryContains(p, q, rpc, last, f);
      assert h == front + [last];
    }
  }

  /** A found event shows where it was found, whose authority it belongs to, and all the event says. */
  lemma FoundMeaning(p: Program, signature: string, slot: nat, e: Event)
    ensures var f := Found(p, signature, slot, e);
      && f.owner == e.owner && f.labelBytes == e.labelBytes && f.txSignature == signature && f.slot == slot
      && f.onChainCommit.authority == Some(Instructions.AuthorityAt(p, e.owner, e.labelBytes))
      && f.onChainCommit.memoHash == e.memoHash && f.onChainCommit.proofHash == e.proofHash
      && f.onChainCommit.alphaHash == e.alphaHash && f.onChainCommit.committedSlot == e.committedSlot
  {
    Instructions.Seeds(p, e.owner, e.labelBytes);
  }

  /** The entry matches exactly when it is an event of the queried owner, label and memo. */
  lemma MatchesIff(q: Query, e: LogEntry)
    ensures Matches(q, e) <==>
      exists v: Event ::
        e == Committed(v) && v.owner == q.owner && v.labelBytes == q.labelBytes && v.memoHash == q.memoHash
  {
    if Matches(q, e) { assert e == Committed(e.event); }
  }

  /** The unfetched signatures come in the order of the history. */
  lemma {:induction false} UnfetchedInOrder(rpc: Rpc, h: seq<SignatureInfo>, h': seq<SignatureInfo>)
    ensures Unfetched(rpc, h + h') == Unfetched(rpc, h) + Unfetched(rpc, h')
    decreases |h'|
  {
    if h' == [] {
      assert h + h' == h;
    } else {
      var front := h'[..|h'| - 1];
      UnfetchedInOrder(rpc, h, front);
      assert (h + h')[..|h + h'| - 1] == h + front;
    }
  }

  /** A scan that is not truncated has found exactly the matching events of the whole history. */
  lemma ScanComplete(p: Program, q: Query, rpc: Rpc, limit: int, f: FoundEvent)
    requires !ScannedTo(p, q, rpc, limit).truncated
    ensures f in ScannedTo(p, q, rpc, limit).events <==>
      exists info :: info in rpc.history && Holds(p, q, rpc, info, f)
  {
    assert rpc.history[..Covered(rpc, limit)] == rpc.history;
    var all := FromHistory(p, q, rpc, rpc.history);
    FromHistoryContains(p, q, rpc, rpc.history, f);
    InReverse(all, f);
  }

  lemma InReverse<T>(s: seq<T>, x: T)
    ensures x in Reverse(s) <==> x in s
  {
    var r := Reverse(s);
    if x in s {
      var i :| 0 <= i < |s| && s[i] == x;
      assert r[|s| - 1 - i] == x;
    }
  }

  /** The order the scan produces: oldest transaction first, each transaction's events in reverse log order. */
  function OldestFirst(p: Program, q: Query, rpc: Rpc, h: seq<SignatureInfo>): seq<FoundEvent> {
    if h == [] then []
    else Reverse(FromEntry(p, q, rpc, h[|h| - 1])) + OldestFirst(p, q, rpc, h[..|h| - 1])
  }

  /** The order the documentation promises: oldest event first. */
  function Chronological(p: Program, q: Query, rpc: Rpc, h: seq<SignatureInfo>): seq<FoundEvent> {
    if h == [] then []
    else FromEntry(p, q, rpc, h[|h| - 1]) + Chronological(p, q, rpc, h[..|h| - 1])
  }

  lemma {:induction false} ScanOrder(p: Program, q: Query, rpc: Rpc, h: seq<SignatureInfo>)
    ensures Reverse(FromHistory(p, q, rpc, h)) == OldestFirst(p, q, rpc, h)
  {
    if h != [] {
      ScanOrder(p, q, rpc, h[..|h| - 1]);
      ReverseConcat(FromHistory(p, q, rpc, h[..|h| - 1]), FromEntry(p, q, rpc, h[|h| - 1]));
    }
  }

  /** The matches of this entry read the same forwards and backwards. */
  ghost predicate Symmetric(p: Program, q: Query, rpc: Rpc, info: SignatureInfo) {
    Reverse(FromEntry(p, q, rpc, info)) == FromEntry(p, q, rpc, info)
  }

  lemma {:induction false} OrdersAgreeIff(p: Program, q: Query, rpc: Rpc, h: seq<SignatureInfo>)
    ensures |OldestFirst(p, q, rpc, h)| == |Chronological(p, q, rpc, h)|
    ensures OldestFirst(p, q, rpc, h) == Chronological(p, q, rpc, h) <==>
      forall info :: info in h ==> Symmetric(p, q, rpc, info)
  {
    hide FromEntry;
    if h != [] {
      var front, last := h[..|h| - 1], h[|h| - 1];
      assert h == front + [last];
      OrdersAgreeIff(p, q, rpc, front);
      var own := FromEntry(p, q, rpc, last);
      assert (forall info :: info in h ==> Symmetric(p, q, rpc, info)) <==>
        Symmetric(p, q, rpc, last) && forall info :: info in front ==> Symmetric(p, q, rpc, info);
      if OldestFirst(p, q, rpc, h) == Chronological(p, q, rpc, h) {
        SplitUnique(Reverse(own), OldestFirst(p, q, rpc, front), own, Chronological(p, q, rpc, front));
      }
    }
  }

  /** A scan is in the documented order if and only if no scanned transaction holds matches that differ when read
      backwards; in particular whenever each holds one match at most. */
  lemma ScanChronologicalIff(p: Program, q: Query, rpc: Rpc, limit: int)
    ensures var h := rpc.history[..Covered(rpc, limit)];
      && (ScannedTo(p, q, rpc, limit).events == Chronological(p, q, rpc, h) <==>
            forall info :: info in h ==> Symmetric(p, q, rpc, info))
      && ((forall info :: info in h ==> |FromEntry(p, q, rpc, info)| <= 1) ==>
            ScannedTo(p, q, rpc, limit).events == Chronological(p, q, rpc, h))
  {
    hide FromEntry, FromHistory, OldestFirst, Chronological, Symmetric, Unfetched;
    var h := rpc.history[..Covered(rpc, limit)];
    ScanOrder(p, q, rpc, h);
    OrdersAgreeIff(p, q, rpc, h);
    forall info | info in h && |FromEntry(p, q, rpc, info)| <= 1 ensures Symmetric(p, q, rpc, info) {
      FewAreSymmetric(p, q, rpc, info);
    }
  }

  lemma FewAreSymmetric(p: Program, q: Query, rpc: Rpc, info: SignatureInfo)
    requires |FromEntry(p, q, rpc, info)| <= 1
    ensures Symmetric(p, q, rpc, info)
  {
    hide FromEntry;
    var own := FromEntry(p, q, rpc, info);
    assert Reverse(own) == own;
  }

  /** One transaction with two different matching events: both modes return the later event first. */
  lemma TwoEventsComeReversed(p: Program, q: Query, e: Event, e': Event, slot: nat) returns (rpc: Rpc)
    requires Matches(q, Committed(e)) && Matches(q, Committed(e')) && e != e'
    ensures rpc.Valid() && rpc.history == [SignatureInfo("tx", false)]
    ensures rpc.fetch("tx") == Some(Transaction(slot, Some([Committed(e), Committed(e')])))
    ensures var late, early := Found(p, "tx", slot, e'), Found(p, "tx", slot, e);
      && ScannedTo(p, q, rpc, 1000).events == LookedUp(p, q, rpc, "tx").events == [late, early]
      && Chronological(p, q, rpc, rpc.history) == [early, late] != [late, early]
  {
    var log := [Committed(e), Committed(e')];
    var info := SignatureInfo("tx", false);
    rpc := Rpc([info], (pos: nat, limit: nat) => 1, (s: string) => Some(Transaction(slot, Some(log))));
    var own := FromEntry(p, q, rpc, info);
    assert log[..1] == [Committed(e)] && log[..1][..0] == [];
    assert FromLog(p, q, "tx", slot, log[..1]) == [Found(p, "tx", slot, e)];
    assert own == [Found(p, "tx", slot, e), Found(p, "tx", slot, e')];
    assert rpc.history[..Covered(rpc, 1000)] == [info] && [info][..0] == [];
    assert FromHistory(p, q, rpc, [info]) == own && Chronological(p, q, rpc, [info]) == own;
  }

  // ---------------------------------------------------------------- looking one signature up

  /** A lookup finds exactly the matching events in the logs of that transaction, and reports it exactly when it could
      not be fetched. Whether the transaction failed is never asked. */
  lemma LookupFinds(p: Program, q: Query, rpc: Rpc, signature: string, f: FoundEvent)
    ensures var tx := rpc.fetch(signature);
      && (f in LookedUp(p, q, rpc, signature).events <==>
            tx.Some? && tx.value.logs.Some? &&
            exists e :: e in tx.value.logs.value && Matches(q, e) && f == Found(p, signature, tx.value.slot, e.event))
      && (LookedUp(p, q, rpc, signature).unfetchedSignatures == [] <==> tx.Some?)
  {
    var tx := rpc.fetch(signature);
    InReverse(FromTransaction(p, q, signature, tx), f);
    if tx.Some? && tx.value.logs.Some? { FromLogContains(p, q, signature, tx.value.slot, tx.value.logs.value, f); }
  }

  lemma SameSignature(rpc: Rpc, a: SignatureInfo, b: SignatureInfo)
    requires rpc.Valid() && a in rpc.history && b in rpc.history && a.signature == b.signature
    ensures a == b
  {
    var i :| 0 <= i < |rpc.history| && rpc.history[i] == a;
    var j :| 0 <= j < |rpc.history| && rpc.history[j] == b;
  }

  /** A match in the logs of a failed transaction is found by a lookup and by no scan, however far it reaches. */
  lemma FailedOnlyInLookup(p: Program, q: Query, rpc: Rpc, info: SignatureInfo, e: Event, limit: int)
    requires rpc.Valid() && info in rpc.history && info.err && rpc.fetch(info.signature).Some?
    requires var logs := rpc.fetch(info.signature).value.logs;
      logs.Some? && Committed(e) in logs.value && Matches(q, Committed(e))
    ensures var f := Found(p, info.signature, rpc.fetch(info.signature).value.slot, e);
      f in LookedUp(p, q, rpc, info.signature).events && f !in ScannedTo(p, q, rpc, limit).events
  {
    var f := Found(p, info.signature, rpc.fetch(info.signature).value.slot, e);
    LookupFinds(p, q, rpc, info.signature, f);
    var h := rpc.history[..Covered(rpc, limit)];
    FromHistoryContains(p, q, rpc, h, f);
    InReverse(FromHistory(p, q, rpc, h), f);
    forall i | i in h && i.signature == info.signature ensures i == info { SameSignature(rpc, i, info); }
  }

  /** A signature is reported as unfetched exactly when its transaction did not fail and could not be fetched. */
  lemma {:induction false} UnfetchedContains(rpc: Rpc, h: seq<SignatureInfo>, s: string)
    ensures s in Unfetched(rpc, h) <==>
      exists info :: info in h && info.signature == s && !info.err && rpc.fetch(s).None?
  {
    if h != [] {
      var front, last := h[..|h| - 1], h[|h| - 1];
      UnfetchedContains(rpc, front, s);
      assert h == front + [last];
    }
  }
}
