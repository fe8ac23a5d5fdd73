/**
  M-of-N upgrade proposals: one live proposal, a 32-bit id counter, an approval
  threshold and a delay. The stored machine is compared with an ideal ledger
  that keeps every proposal ever made.
 */
module UpgradeGovernance {
  import opened ByteStrings
  import opened Cardinality
  import opened MachineWords

  const MAX_UPGRADE_SIGNERS := 20

  datatype Proposal = Proposal(
    id: U32,
    wasmHash: seq<Byte>,
    proposedBy: Address,
    proposedAt: U64,
    executableAt: U64,
    approvers: seq<Address>)

  datatype GovError = AlreadyPending | NonePending | AlreadyApproved | DelayActive | InsufficientApprovals

  /** The three storage slots; a missing one reads as its default. */
  datatype Gov = Gov(threshold: Option<U32>, counter: Option<U32>, proposal: Option<Proposal>)

  const FreshGov := Gov(None, None, None)

  function Threshold(g: Gov): U32 {
    match g.threshold
    case None => 1
    case Some(t) => t
  }

  function NextId(g: Gov): U32 {
    match g.counter
    case None => 0
    case Some(n) => n
  }

  function WithThreshold(g: Gov, t: U32): Gov {
    g.(threshold := Some(if t == 0 then 1 else t))
  }

  function Create(g: Gov, who: Address, wasmHash: seq<Byte>, delay: U64, now: U64): Result<Gov, GovError> {
    if g.proposal.Some? then Err(AlreadyPending)
    else
      var p := Proposal(NextId(g), wasmHash, who, now, SaturatingAdd64(now, delay), [who]);
      Ok(g.(counter := Some(SaturatingAdd(NextId(g), 1)), proposal := Some(p)))
  }

  function Approve(g: Gov, id: U32, who: Address): Result<Gov, GovError> {
    if g.proposal.None? || g.proposal.value.id != id then Err(NonePending)
    else
      var p := g.proposal.value;
      if who in p.approvers then Err(AlreadyApproved)
      else if |p.approvers| < MAX_UPGRADE_SIGNERS then Ok(g.(proposal := Some(p.(approvers := p.approvers + [who]))))
      else Ok(g)
  }

  function Executable(g: Gov, id: U32, now: U64): Result<Proposal, GovError> {
    if g.proposal.None? || g.proposal.value.id != id then Err(NonePending)
    else if now < g.proposal.value.executableAt then Err(DelayActive)
    else if |g.proposal.value.approvers| < Threshold(g) then Err(InsufficientApprovals)
    else Ok(g.proposal.value)
  }

  function Cancel(g: Gov, id: U32): Result<Gov, GovError> {
    if g.proposal.None? || g.proposal.value.id != id then Err(NonePending)
    else Ok(g.(proposal := None))
  }

  // ---- the stored machine ----

  class UpgradeStore {
    var threshold: Option<U32>
    var counter: Option<U32>
    var proposal: Option<Proposal>

    function Snapshot(): Gov
      reads this
    {
      Gov(threshold, counter, proposal)
    }

    constructor ()
      ensures Snapshot() == FreshGov
    {
      threshold, counter, proposal := None, None, None;
    }

    method SetUpgradeThreshold(t: U32)
      modifies this`threshold
      ensures Snapshot() == WithThreshold(old(Snapshot()), t) && Threshold(Snapshot()) >= 1
    {
      threshold := Some(if t == 0 then 1 else t);
    }

    method AllocProposalId() returns (id: U32)
      modifies this`counter
      ensures id == NextId(old(Snapshot())) && counter == Some(SaturatingAdd(id, 1))
    {
      id := NextId(Snapshot());
      counter := Some(SaturatingAdd(id, 1));
    }

    method CreateUpgradeProposal(who: Address, wasmHash: seq<Byte>, delay: U64, now: U64)
      returns (r: Result<Proposal, GovError>)
      modifies this`counter, this`proposal
      ensures match Create(old(Snapshot()), who, wasmHash, delay, now)
              case Ok(g) => Snapshot() == g && proposal.Some? && r == Ok(proposal.value)
              case Err(e) => Snapshot() == old(Snapshot()) && r == Err(e)
    {
      if proposal.Some? {
        return Err(AlreadyPending);
      }
      var id := AllocProposalId();
      var p := Proposal(id, wasmHash, who, now, SaturatingAdd64(now, delay), [who]);
      proposal := Some(p);
      return Ok(p);
    }

    method RecordApproval(id: U32, who: Address) returns (r: Result<Proposal, GovError>)
      modifies this`proposal
      ensures match Approve(old(Snapshot()), id, who)
              case Ok(g) => Snapshot() == g && proposal.Some? && r == Ok(proposal.value)
              case Err(e) => Snapshot() == old(Snapshot()) && r == Err(e)
    {
      if proposal.None? || proposal.value.id != id {
        return Err(NonePending);
      }
      var p := proposal.value;
      for i := 0 to |p.approvers|
        invariant forall j :: 0 <= j < i ==> p.approvers[j] != who
      {
        if p.approvers[i] == who {
          return Err(AlreadyApproved);
        }
      }
      if |p.approvers| < MAX_UPGRADE_SIGNERS {
        p := p.(approvers := p.approvers + [who]);
      }
      proposal := Some(p);
      return Ok(p);
    }

    method RequireProposalExecutable(id: U32, now: U64) returns (r: Result<Proposal, GovError>)
      ensures r == Executable(Snapshot(), id, now)
    {
      if proposal.None? || proposal.value.id != id {
        return Err(NonePending);
      }
      if now < proposal.value.executableAt {
        return Err(DelayActive);
      }
      if |proposal.value.approvers| < Threshold(Snapshot()) {
        return Err(InsufficientApprovals);
      }
      return Ok(proposal.value);
    }

    /** Executing consumes the proposal it was allowed to run. */
    method ExecuteUpgrade(id: U32, now: U64) returns (r: Result<Proposal, GovError>)
      modifies this`proposal
      ensures r == Executable(old(Snapshot()), id, now)
      ensures Snapshot() == if r.Ok? then old(Snapshot()).(proposal := None) else old(Snapshot())
    {
      r := RequireProposalExecutable(id, now);
      if r.Ok? {
        proposal := None;
      }
    }

    method CancelUpgradeProposal(id: U32) returns (r: Result<bool, GovError>)
      modifies this`proposal
      ensures match Cancel(old(Snapshot()), id)
              case Ok(g) => Snapshot() == g && r == Ok(true)
              case Err(e) => Snapshot() == old(Snapshot()) && r == Err(e)
    {
      if proposal.None? || proposal.value.id != id {
        return Err(NonePending);
      }
      proposal := None;
      return Ok(true);
    }
  }

  // ---- runs ----

  datatype Event =
    | Proposed(who: Address, wasmHash: seq<Byte>, delay: U64, at: U64)
    | Approved(signer: Address, id: U32)
    | Executed(target: U32, now: U64)
    | Cancelled(which: U32)
    | ThresholdSet(t: U32)

  function Step(g: Gov, ev: Event): Gov {
    match ev
    case Proposed(who, h, delay, at) => (match Create(g, who, h, delay, at) case Ok(g') => g' case Err(_) => g)
    case Approved(signer, id) => (match Approve(g, id, signer) case Ok(g') => g' case Err(_) => g)
    case Executed(target, now) => if Executable(g, target, now).Ok? then g.(proposal := None) else g
    case Cancelled(which) => (match Cancel(g, which) case Ok(g') => g' case Err(_) => g)
    case ThresholdSet(t) => WithThreshold(g, t)
  }

  function Run(evs: seq<Event>): Gov {
    if evs == [] then FreshGov else Step(Run(evs[..|evs| - 1]), evs[|evs| - 1])
  }

  // ---- the ideal ledger: every proposal kept, every signer counted, ids unbounded ----

  datatype Entry = Entry(wasmHash: seq<Byte>, executableAt: U64, signers: set<Address>, open: bool)

  datatype Ledger = Ledger(threshold: nat, entries: seq<Entry>)

  predicate HasOpen(l: Ledger) {
    l.entries != [] && l.entries[|l.entries| - 1].open
  }

  predicate IsOpen(l: Ledger, id: nat) {
    id < |l.entries| && l.entries[id].open
  }

  /** The promise: due, and enough distinct addresses have signed. */
  predicate Due(l: Ledger, id: nat, now: U64) {
    && IsOpen(l, id) && now >= l.entries[id].executableAt
    && Min(|l.entries[id].signers|, MAX_UPGRADE_SIGNERS) >= l.threshold
  }

  function Closed(l: Ledger, id: nat): Ledger
    requires id < |l.entries|
  {
    l.(entries := l.entries[id := l.entries[id].(open := false)])
  }

  function LedgerStep(l: Ledger, ev: Event): Ledger {
    match ev
    case Proposed(who, h, delay, at) =>
      if HasOpen(l) then l else l.(entries := l.entries + [Entry(h, SaturatingAdd64(at, delay), {who}, true)])
    case Approved(signer, id) =>
      if !IsOpen(l, id) then l
      else l.(entries := l.entries[id := l.entries[id].(signers := l.entries[id].signers + {signer})])
    case Executed(target, now) => if Due(l, target, now) then Closed(l, target) else l
    case Cancelled(which) => if IsOpen(l, which) then Closed(l, which) else l
    case ThresholdSet(t) => l.(threshold := if t == 0 then 1 else t)
  }

  function LedgerOf(evs: seq<Event>): Ledger {
    if evs == [] then Ledger(1, []) else LedgerStep(LedgerOf(evs[..|evs| - 1]), evs[|evs| - 1])
  }

  // ---- the stored machine follows the ledger ----

  /** The stored proposal is the ledger's open entry, its approvers the first signers up to the cap. */
  ghost predicate Mirrors(p: Proposal, id: nat, e: Entry) {
    && e.open && p.id == id
    && p.wasmHash == e.wasmHash && p.executableAt == e.executableAt
    && NoDuplicates(p.approvers)
    && (forall a :: a in p.approvers ==> a in e.signers)
    && |p.approvers| == Min(|e.signers|, MAX_UPGRADE_SIGNERS)
  }

  ghost predicate Follows(g: Gov, l: Ledger) {
    var n := |l.entries|;
    && Threshold(g) == l.threshold
    && NextId(g) == Min(n, U32_MAX)
    && (forall i :: 0 <= i < n - 1 ==> !l.entries[i].open)
    && match g.proposal
       case None => !HasOpen(l)
       case Some(p) => n > 0 && Mirrors(p, n - 1, l.entries[n - 1])
  }

  /** Below the cap, the stored approvers are all the signers there are. */
  lemma ApproversAreSigners(p: Proposal, id: nat, e: Entry)
    requires Mirrors(p, id, e) && |e.signers| <= MAX_UPGRADE_SIGNERS
    ensures forall a :: a in p.approvers <==> a in e.signers
  {
    var elems := set a | a in p.approvers;
    DistinctSize(p.approvers, elems);
    SubsetSize(elems, e.signers);
  }

  lemma ApprovalMirrors(p: Proposal, id: nat, e: Entry, who: Address)
    requires Mirrors(p, id, e)
    ensures Mirrors(if who !in p.approvers && |p.approvers| < MAX_UPGRADE_SIGNERS
                    then p.(approvers := p.approvers + [who]) else p,
                    id, e.(signers := e.signers + {who}))
  {
    if |e.signers| <= MAX_UPGRADE_SIGNERS {
      ApproversAreSigners(p, id, e);
    }
    if who in e.signers {
      assert e.signers + {who} == e.signers;
    }
  }

  lemma ApprovalFollows(g: Gov, l: Ledger, who: Address, id: U32)
    requires Follows(g, l)
    ensures Follows(Step(g, Approved(who, id)), LedgerStep(l, Approved(who, id)))
  {
    hide NoDuplicates;
    var n := |l.entries|;
    if g.proposal.Some? && g.proposal.value.id == id {
      assert id == n - 1;
      ApprovalMirrors(g.proposal.value, id, l.entries[id], who);
    }
  }

  lemma ProposalFollows(g: Gov, l: Ledger, who: Address, h: seq<Byte>, delay: U64, at: U64)
    requires Follows(g, l) && |l.entries| <= U32_MAX
    ensures Follows(Step(g, Proposed(who, h, delay, at)), LedgerStep(l, Proposed(who, h, delay, at)))
  {
  }

  lemma StepFollows(g: Gov, l: Ledger, ev: Event)
    requires Follows(g, l) && |LedgerStep(l, ev).entries| <= U32_MAX + 1
    ensures Follows(Step(g, ev), LedgerStep(l, ev))
  {
    hide NoDuplicates;
    match ev
    case Approved(signer, id) => ApprovalFollows(g, l, signer, id);
    case Proposed(who, h, delay, at) =>
      if g.proposal.None? {
        ProposalFollows(g, l, who, h, delay, at);
      }
    case _ =>
  }

  lemma EntriesGrow(l: Ledger, ev: Event)
    ensures |l.entries| <= |LedgerStep(l, ev).entries|
  {
  }

  /** As long as no more than 2^32 proposals were made, the stored machine follows the ledger through every run. */
  lemma {:induction false} RunFollows(evs: seq<Event>)
    requires |LedgerOf(evs).entries| <= U32_MAX + 1
    ensures Follows(Run(evs), LedgerOf(evs))
  {
    hide Follows, Step, LedgerStep;
    if evs == [] {
      FreshFollows();
    } else {
      var front := evs[..|evs| - 1];
      EntriesGrow(LedgerOf(front), evs[|evs| - 1]);
      RunFollows(front);
      StepFollows(Run(front), LedgerOf(front), evs[|evs| - 1]);
    }
  }

  lemma FreshFollows()
    ensures Follows(FreshGov, Ledger(1, []))
  {
  }

  // ---- what executability means ----

  /**
    In every run of at most 2^32 proposals, an id is executable exactly when
    the ledger says it is due, and what would be executed is what was proposed.
   */
  lemma {:induction false} ExecutableExactlyWhenDue(evs: seq<Event>, id: U32, now: U64)
    requires |LedgerOf(evs).entries| <= U32_MAX + 1
    ensures Executable(Run(evs), id, now).Ok? <==> Due(LedgerOf(evs), id, now)
    ensures Executable(Run(evs), id, now).Ok? ==>
              var p, e := Executable(Run(evs), id, now).value, LedgerOf(evs).entries[id];
              && p.wasmHash == e.wasmHash && p.executableAt == e.executableAt <= now
              && NoDuplicates(p.approvers) && Threshold(Run(evs)) <= |p.approvers| <= MAX_UPGRADE_SIGNERS
              && (forall a :: a in p.approvers ==> a in e.signers)
  {
    RunFollows(evs);
  }

  /**
    `a` took an effective step on the id: it made the proposal that was given
    the id, or approved the id while that proposal was open. An approval of an
    id not yet proposed, or already closed, is not one.
   */
  ghost predicate ActsOn(evs: seq<Event>, k: nat, id: nat, a: Address)
    requires k < |evs|
  {
    var l := LedgerOf(evs[..k]);
    match evs[k]
    case Proposed(who, _, _, _) => a == who && |l.entries| == id && !HasOpen(l)
    case Approved(signer, target) => a == signer && target == id && IsOpen(l, id)
    case _ => false
  }

  ghost predicate Acted(evs: seq<Event>, id: nat, a: Address) {
    exists k :: 0 <= k < |evs| && ActsOn(evs, k, id, a)
  }

  ghost predicate Signed(l: Ledger, id: nat, a: Address) {
    id < |l.entries| && a in l.entries[id].signers
  }

  lemma SignedStep(l: Ledger, ev: Event, id: nat, a: Address)
    ensures Signed(LedgerStep(l, ev), id, a) <==>
            || Signed(l, id, a)
            || (ev.Proposed? && a == ev.who && |l.entries| == id && !HasOpen(l))
            || (ev.Approved? && a == ev.signer && ev.id == id && IsOpen(l, id))
  {
  }

  /** The ledger's signers of an id are exactly the addresses that took a step on it. */
  lemma {:induction false} SignersActedExactly(evs: seq<Event>, id: nat, a: Address)
    ensures Signed(LedgerOf(evs), id, a) <==> Acted(evs, id, a)
  {
    hide LedgerStep, Signed, IsOpen, HasOpen;
    if evs == [] {
      NothingSigned(id, a);
    } else {
      var n := |evs| - 1;
      var front := evs[..n];
      SignersActedExactly(front, id, a);
      SignedStep(LedgerOf(front), evs[n], id, a);
      assert forall k :: 0 <= k < n ==> front[..k] == evs[..k] && front[k] == evs[k];
      assert forall k :: 0 <= k < n ==> ActsOn(front, k, id, a) == ActsOn(evs, k, id, a);
      assert Signed(LedgerOf(evs), id, a) <==> Signed(LedgerOf(front), id, a) || ActsOn(evs, n, id, a);
    }
  }

  lemma NothingSigned(id: nat, a: Address)
    ensures !Signed(LedgerOf([]), id, a)
  {
  }

  /** Quorum: each approver of an executable proposal proposed it or approved it while it was open. */
  lemma {:induction false} ExecutableHasQuorum(evs: seq<Event>, id: U32, now: U64)
    requires |LedgerOf(evs).entries| <= U32_MAX + 1 && Executable(Run(evs), id, now).Ok?
    ensures var approvers := Executable(Run(evs), id, now).value.approvers;
            && NoDuplicates(approvers) && |approvers| >= Threshold(Run(evs))
            && forall a :: a in approvers ==> Acted(evs, id, a)
  {
    ExecutableExactlyWhenDue(evs, id, now);
    forall a | a in Executable(Run(evs), id, now).value.approvers
      ensures Acted(evs, id, a)
    {
      SignersActedExactly(evs, id, a);
    }
  }

  // ---- closed for good ----

  lemma LedgerNeverReopens(l: Ledger, ev: Event, id: nat)
    requires id < |l.entries|
    ensures id < |LedgerStep(l, ev).entries|
    ensures LedgerStep(l, ev).entries[id].open ==> l.entries[id].open
    ensures LedgerStep(l, ev).entries[id].wasmHash == l.entries[id].wasmHash
    ensures LedgerStep(l, ev).entries[id].executableAt == l.entries[id].executableAt
  {
  }

  /** An id's terms never change, and once it is executed or cancelled no continuation makes it executable again. */
  lemma {:induction false} ClosedForGood(evs: seq<Event>, more: seq<Event>, id: U32, now: U64)
    requires id < |LedgerOf(evs).entries| && |LedgerOf(evs + more).entries| <= U32_MAX + 1
    ensures id < |LedgerOf(evs + more).entries|
    ensures LedgerOf(evs + more).entries[id].wasmHash == LedgerOf(evs).entries[id].wasmHash
    ensures LedgerOf(evs + more).entries[id].executableAt == LedgerOf(evs).entries[id].executableAt
    ensures LedgerOf(evs + more).entries[id].open ==> LedgerOf(evs).entries[id].open
    ensures !LedgerOf(evs).entries[id].open ==> Executable(Run(evs + more), id, now) == Err(NonePending)
    decreases |more|
  {
    hide LedgerStep, Run;
    if more == [] {
      assert evs + more == evs;
    } else {
      var front, last := more[..|more| - 1], more[|more| - 1];
      assert (evs + more)[..|evs + more| - 1] == evs + front;
      EntriesGrow(LedgerOf(evs + front), last);
      ClosedForGood(evs, front, id, now);
      LedgerNeverReopens(LedgerOf(evs + front), last, id);
    }
    NotOpenIsNotPending(evs + more, id, now);
  }

  lemma {:induction false} NotOpenIsNotPending(evs: seq<Event>, id: U32, now: U64)
    requires |LedgerOf(evs).entries| <= U32_MAX + 1
    ensures Executable(Run(evs), id, now) == Err(NonePending) <==> !IsOpen(LedgerOf(evs), id)
  {
    RunFollows(evs);
  }

  /** Executing closes: right after a successful execution its id is no longer pending. */
  lemma {:induction false} ExecutionCloses(evs: seq<Event>, id: U32, now: U64, later: U64)
    requires |LedgerOf(evs).entries| <= U32_MAX + 1 && Executable(Run(evs), id, now).Ok?
    ensures Executable(Run(evs + [Executed(id, now)]), id, later) == Err(NonePending)
    ensures !IsOpen(LedgerOf(evs + [Executed(id, now)]), id) && id < |LedgerOf(evs + [Executed(id, now)]).entries|
  {
    assert (evs + [Executed(id, now)])[..|evs|] == evs;
    ExecutableExactlyWhenDue(evs, id, now);
  }

  // ---- what is recorded, and why a call is refused ----

  /** A new proposal holds what it was given, is due after the whole delay, and counts its proposer first. */
  lemma ProposalOutcome(g: Gov, who: Address, h: seq<Byte>, delay: U64, now: U64)
    requires Create(g, who, h, delay, now).Ok?
    ensures var g' := Create(g, who, h, delay, now).value;
            && Threshold(g') == Threshold(g) && NextId(g') == Min(NextId(g) + 1, U32_MAX)
            && g'.proposal == Some(Proposal(NextId(g), h, who, now, Min(now + delay, U64_MAX), [who]))
  {
  }

  /** An approval adds its signer last and changes nothing else of the proposal. */
  lemma ApprovalOutcome(g: Gov, id: U32, who: Address)
    requires Approve(g, id, who).Ok?
    ensures var g', p := Approve(g, id, who).value, g.proposal.value;
            && Threshold(g') == Threshold(g) && NextId(g') == NextId(g) && g'.proposal.Some?
            && g'.proposal.value == p.(approvers := g'.proposal.value.approvers)
            && g'.proposal.value.approvers == if |p.approvers| < 20 then p.approvers + [who] else p.approvers
  {
  }

  lemma GovernanceAdmission(
      g: Gov, id: U32, who: Address, h: seq<Byte>, delay: U64, now: U64)
    ensures var live := g.proposal.Some? && g.proposal.value.id == id;
            var due := live && g.proposal.value.executableAt <= now;
            var signed := live && who in g.proposal.value.approvers;
            && (Create(g, who, h, delay, now) == Err(AlreadyPending) <==> g.proposal.Some?)
            && (Create(g, who, h, delay, now).Ok? <==> g.proposal.None?)
            && (Approve(g, id, who) == Err(NonePending) <==> !live)
            && (Approve(g, id, who) == Err(AlreadyApproved) <==> signed)
            && (Approve(g, id, who).Ok? <==> live && !signed)
            && (Executable(g, id, now) == Err(NonePending) <==> !live)
            && (Executable(g, id, now) == Err(DelayActive) <==> live && !due)
            && (Executable(g, id, now) == Err(InsufficientApprovals)
                <==> due && |g.proposal.value.approvers| < Threshold(g))
            && (Cancel(g, id) == Err(NonePending) <==> !live) && (Cancel(g, id).Ok? <==> live)
  {
  }

  // ---- limits of the promise ----

  /** A threshold above the tracked signers can never be met. */
  lemma {:induction false} ThresholdAboveCapIsUnreachable(evs: seq<Event>, id: U32, now: U64)
    requires |LedgerOf(evs).entries| <= U32_MAX + 1 && Threshold(Run(evs)) > 20
    ensures Executable(Run(evs), id, now).Err?
  {
    ExecutableExactlyWhenDue(evs, id, now);
  }

  /** An accepted approval is recorded exactly while fewer than twenty signers are tracked; past that it is dropped. */
  lemma ApprovalCountsExactly(g: Gov, id: U32, who: Address)
    requires Approve(g, id, who).Ok?
    ensures Approve(g, id, who).value != g <==> |g.proposal.value.approvers| < 20
  {
    var p := g.proposal.value;
    assert |p.approvers + [who]| != |p.approvers|;
  }

  /** Fresh ids are guaranteed exactly until the counter saturates: there the next proposal reuses the last id. */
  lemma IdsFreshExactly(g: Gov, who: Address, h: seq<Byte>, delay: U64, now: U64)
    requires Create(g, who, h, delay, now).Ok?
    ensures NextId(Create(g, who, h, delay, now).value) != Create(g, who, h, delay, now).value.proposal.value.id
            <==> NextId(g) < U32_MAX
  {
  }
}
