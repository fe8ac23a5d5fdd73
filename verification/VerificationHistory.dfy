/** The ever-verified counter over runs: what it counts, and when it never falls. */
module VerificationHistory {
  import opened BatchRemoval
  import opened BatchVerification
  import opened ByteStrings
  import opened ChunkedIndex
  import opened MachineWords
  import opened NameKeys
  import opened RegistryConsistency
  import opened RegistryRuns
  import opened RegistryState
  import opened Usernames

  // ---- what the counter counts ----

  /** Keys whose record a call turns from unverified, or absent, to verified. */
  function FlippedBy(s: Slots, op: Op): set<Name> {
    VerifiedNames(Apply(s, op).records) - VerifiedNames(s.records)
  }

  function FlipsIn(s: Slots, ops: seq<Op>): nat
    decreases |ops|
  {
    if ops == [] then 0 else |FlippedBy(s, ops[0])| + FlipsIn(Apply(s, ops[0]), ops[1..])
  }

  /** The counter is as it was, and no record is verified that was not. */
  ghost predicate FlipsNothing(s: Slots, s': Slots) {
    s'.everVerified == s.everVerified && VerifiedNames(s'.records) - VerifiedNames(s.records) == {}
  }

  /** In any state that stores it, the counter goes up by exactly the records a call flips, until it saturates. */
  lemma HistoryCountsFlips(s: Slots, op: Op)
    requires s.everVerified.Some?
    ensures Apply(s, op).everVerified == Some(Min(EverRead(s) + |FlippedBy(s, op)|, U32_MAX))
  {
    hide Register, Rename, Remove, Verify, Revoke, Rotate, MarkBot, BatchVerify, BatchRemove, VerifiedNames;
    hide Compacted, LiveEntries, VerifiedListed;
    NoNewVerified(s, s);
    if Attempt(s, op).Ok? {
      match op
      case OpRegister(name, owner, now) => RegisterFlipsNothing(s, name, owner, now);
      case OpRemove(name) => RemoveFlipsNothing(s, name);
      case OpResolveChallenge(name, _, _) => RemoveFlipsNothing(s, name);
      case OpRename(from, to, now) => RenameFlipsNothing(s, from, to, now);
      case OpVerify(name, now) => VerifyFlipsOne(s, name, now);
      case OpRevoke(name) => RevokeFlipsNothing(s, name);
      case OpRotate(name, pending, now) => RotateFlipsNothing(s, name, pending, now);
      case OpMarkBot(name, isBot) => MarkBotFlipsNothing(s, name, isBot);
      case OpBatchVerify(names, now) => BatchVerifyFlips(s, names, now);
      case OpBatchRemove(names) => BatchRemoveFlipsNothing(s, names);
      case OpConfigure(_) =>
      case OpCompact =>
      case OpRepair(_) =>
    }
  }

  /** Over any run, the stored counter is what it was plus every flip there has been. */
  lemma {:induction false} HistoryCountsFlipsInRuns(s: Slots, ops: seq<Op>)
    requires s.everVerified.Some?
    ensures Run(s, ops).everVerified == Some(Min(EverRead(s) + FlipsIn(s, ops), U32_MAX))
    decreases |ops|
  {
    hide Apply, FlippedBy;
    if ops != [] {
      HistoryCountsFlips(s, ops[0]);
      HistoryCountsFlipsInRuns(Apply(s, ops[0]), ops[1..]);
    }
  }

  lemma NoNewVerified(s: Slots, s': Slots)
    requires s'.everVerified == s.everVerified
    requires forall k :: k in s'.records && s'.records[k].verified ==> k in s.records && s.records[k].verified
    ensures FlipsNothing(s, s')
  {
  }

  lemma RegisterFlipsNothing(s: Slots, name: Name, owner: Address, now: U64)
    requires Register(s, name, owner, now).Ok?
    ensures FlipsNothing(s, Register(s, name, owner, now).value)
  {
    hide Canon, IsValid, Appended, VerifiedNames;
    NoNewVerified(s, Register(s, name, owner, now).value);
  }

  lemma RemoveFlipsNothing(s: Slots, name: Name)
    requires Remove(s, name).Ok?
    ensures FlipsNothing(s, Remove(s, name).value)
  {
    hide Canon, Removed, Without, VerifiedNames;
    NoNewVerified(s, Remove(s, name).value);
  }

  lemma RenameFlipsNothing(s: Slots, from: Name, to: Name, now: U64)
    requires Rename(s, from, to, now).Ok?
    ensures FlipsNothing(s, Rename(s, from, to, now).value)
  {
    hide Canon, IsValid, Appended, Removed, Without, VerifiedNames;
    NoNewVerified(s, Rename(s, from, to, now).value);
  }

  lemma RevokeFlipsNothing(s: Slots, name: Name)
    requires Revoke(s, name).Ok?
    ensures FlipsNothing(s, Revoke(s, name).value)
  {
    hide Canon, VerifiedNames;
    NoNewVerified(s, Revoke(s, name).value);
  }

  lemma RotateFlipsNothing(s: Slots, name: Name, pending: Option<Rotation>, now: U64)
    requires Rotate(s, name, pending, now).Ok?
    ensures FlipsNothing(s, Rotate(s, name, pending, now).value)
  {
    hide Canon, VerifiedNames;
    NoNewVerified(s, Rotate(s, name, pending, now).value);
  }

  lemma MarkBotFlipsNothing(s: Slots, name: Name, isBot: bool)
    requires MarkBot(s, name, isBot).Ok?
    ensures FlipsNothing(s, MarkBot(s, name, isBot).value)
  {
    hide Canon, VerifiedNames;
    NoNewVerified(s, MarkBot(s, name, isBot).value);
  }

  lemma BatchRemoveFlipsNothing(s: Slots, names: seq<Name>)
    requires BatchRemove(s, names).Ok?
    ensures FlipsNothing(s, BatchRemove(s, names).value.0)
  {
    hide RemoveEach, RemovedIn, Keys, VerifiedNames;
    BatchRemovalBumps(s, names);
    BatchRemovalDropsExactly(s, names);
    NoNewVerified(s, RemoveEach(s, names));
  }

  lemma VerifyFlipsOne(s: Slots, name: Name, now: U64)
    requires s.everVerified.Some? && Verify(s, name, now).Ok?
    ensures var s' := Verify(s, name, now).value;
            var flips := VerifiedNames(s'.records) - VerifiedNames(s.records);
            s'.everVerified == Some(Min(EverRead(s) + |flips|, U32_MAX))
  {
    hide Canon, Expired;
    var k, s' := Canon(name), Verify(s, name, now).value;
    VerifiedAfterWrite(s.records, k, s.records[k].(verified := true));
    assert VerifiedNames(s'.records) - VerifiedNames(s.records) == if s.records[k].verified then {} else {k};
  }

  lemma BatchVerifyFlips(s: Slots, names: seq<Name>, now: U64)
    requires s.everVerified.Some? && BatchVerify(s, names, now).Ok?
    ensures var s' := BatchVerify(s, names, now).value.0;
            var flips := VerifiedNames(s'.records) - VerifiedNames(s.records);
            s'.everVerified == Some(Min(EverRead(s) + |flips|, U32_MAX))
  {
    hide Canon, Keys, Queued, Flipped, VerifiedNames;
    var queue := Queued(s, names, now);
    VerifiedAfterBatch(s, queue, now);
    assert VerifiedNames(BatchVerified(s, queue, now).records) - VerifiedNames(s.records) == Flipped(s, Keys(queue));
  }

  // ---- when it never falls ----

  /** Once stored, the ever-verified counter stays stored and never falls, whatever is called. */
  lemma {:induction false} HistoryNeverFallsInRuns(s: Slots, ops: seq<Op>)
    requires s.everVerified.Some?
    ensures Run(s, ops).everVerified.Some? && EverRead(Run(s, ops)) >= EverRead(s)
  {
    hide Run, FlipsIn;
    HistoryCountsFlipsInRuns(s, ops);
  }

  /**
    From a consistent registry, no run ever lowers the historical figure exactly
    when the counter is stored already, or nobody is verified: an unstored
    figure is the live count, and one revocation lowers that.
   */
  lemma {:induction false} HistoryNeverFallsExactly(s: Slots)
    requires Consistent(s)
    ensures (forall ops: seq<Op> :: EverRead(Run(s, ops)) >= EverRead(s))
            <==> s.everVerified.Some? || s.verifiedCount == 0
  {
    hide Consistent, Run;
    if s.everVerified.Some? {
      forall ops: seq<Op>
        ensures EverRead(Run(s, ops)) >= EverRead(s)
      {
        HistoryNeverFallsInRuns(s, ops);
      }
    } else if s.verifiedCount > 0 {
      var name := RevocationLowers(s);
      assert EverRead(Run(s, [OpRevoke(name)])) < EverRead(s);
    }
  }

  lemma RevocationLowers(s: Slots) returns (name: Name)
    requires Consistent(s) && s.everVerified.None? && s.verifiedCount > 0
    ensures EverRead(Run(s, [OpRevoke(name)])) == EverRead(s) - 1
  {
    hide Flatten, WellPaged, IsValid;
    name :| name in VerifiedNames(s.records);
    assert Run(s, [OpRevoke(name)]) == Apply(s, OpRevoke(name)) by {
      RunOfOne(s, OpRevoke(name));
    }
  }

  lemma {:induction false} RunOfOne(s: Slots, op: Op)
    ensures Run(s, [op]) == Apply(s, op)
  {
    assert [op][1..] == [];
  }
}
