/** What one call leaves alone, what it undoes, and what a name resolves to after it. */
module RegistryEffects {
  import opened BatchRemoval
  import opened BatchVerification
  import opened ByteStrings
  import opened Cardinality
  import opened ChunkedIndex
  import opened ExportLeaves
  import opened MachineWords
  import opened NameKeys
  import opened PageReaders
  import opened RegistryConsistency
  import opened RegistryRuns
  import opened RegistryState
  import opened Usernames

  /** The storage keys a call may write. */
  function KeysOf(op: Op): set<Name> {
    match op
    case OpRegister(name, _, _) => {Canon(name)}
    case OpRemove(name) => {Canon(name)}
    case OpRename(from, to, _) => {Canon(from), Canon(to)}
    case OpVerify(name, _) => {Canon(name)}
    case OpRevoke(name) => {Canon(name)}
    case OpRotate(name, _, _) => {Canon(name)}
    case OpMarkBot(name, _) => {Canon(name)}
    case OpResolveChallenge(name, _, _) => {Canon(name)}
    case OpBatchVerify(names, _) => Keys(names)
    case OpBatchRemove(names) => Keys(names)
    case OpConfigure(_) => {}
    case OpCompact => {}
    case OpRepair(_) => {}
  }

  /** The two records maps agree about a key. */
  predicate SameAt(a: map<Name, Record>, b: map<Name, Record>, k: Name) {
    (k in a <==> k in b) && (k in a ==> a[k] == b[k])
  }

  /** No call touches the record of a key it was not given. */
  lemma CallsTouchOnlyTheirKeys(s: Slots, op: Op, k: Name)
    requires k !in KeysOf(op)
    ensures SameAt(Apply(s, op).records, s.records, k)
  {
    hide Canon, Keys, SameAt, BatchVerify, BatchRemove, Register, Rename, Remove, Expired, Compacted;
    hide Verify, Revoke, Rotate, MarkBot;
    SameAtItself(s.records, k);
    if Attempt(s, op).Ok? {
      match op
      case OpBatchVerify(names, now) => BatchVerifyTouches(s, names, now, k);
      case OpBatchRemove(names) => BatchRemoveTouches(s, names, k);
      case OpRegister(name, owner, now) => RegisterTouches(s, name, owner, now, k);
      case OpRename(from, to, now) => RenameTouches(s, from, to, now, k);
      case OpRemove(name) => RemoveTouches(s, name, k);
      case OpResolveChallenge(name, _, _) => RemoveTouches(s, name, k);
      case OpVerify(name, now) => VerifyTouches(s, name, now, k);
      case OpRevoke(name) => RevokeTouches(s, name, k);
      case OpRotate(name, pending, now) => RotateTouches(s, name, pending, now, k);
      case OpMarkBot(name, isBot) => MarkBotTouches(s, name, isBot, k);
      case OpConfigure(_) =>
      case OpCompact =>
      case OpRepair(_) =>
    }
  }

  lemma SameAtItself(a: map<Name, Record>, k: Name)
    ensures SameAt(a, a, k)
  {
  }

  lemma VerifyTouches(s: Slots, name: Name, now: U64, k: Name)
    requires Verify(s, name, now).Ok? && k != Canon(name)
    ensures SameAt(Verify(s, name, now).value.records, s.records, k)
  {
  }

  lemma RevokeTouches(s: Slots, name: Name, k: Name)
    requires Revoke(s, name).Ok? && k != Canon(name)
    ensures SameAt(Revoke(s, name).value.records, s.records, k)
  {
  }

  lemma RotateTouches(s: Slots, name: Name, pending: Option<Rotation>, now: U64, k: Name)
    requires Rotate(s, name, pending, now).Ok? && k != Canon(name)
    ensures SameAt(Rotate(s, name, pending, now).value.records, s.records, k)
  {
  }

  lemma MarkBotTouches(s: Slots, name: Name, isBot: bool, k: Name)
    requires MarkBot(s, name, isBot).Ok? && k != Canon(name)
    ensures SameAt(MarkBot(s, name, isBot).value.records, s.records, k)
  {
  }

  lemma RegisterTouches(s: Slots, name: Name, owner: Address, now: U64, k: Name)
    requires Register(s, name, owner, now).Ok? && k != Canon(name)
    ensures SameAt(Register(s, name, owner, now).value.records, s.records, k)
  {
    hide Canon, Appended;
  }

  lemma RenameTouches(s: Slots, from: Name, to: Name, now: U64, k: Name)
    requires Rename(s, from, to, now).Ok? && k != Canon(from) && k != Canon(to)
    ensures SameAt(Rename(s, from, to, now).value.records, s.records, k)
  {
    hide Canon, Appended, Removed, Without;
  }

  lemma RemoveTouches(s: Slots, name: Name, k: Name)
    requires Remove(s, name).Ok? && k != Canon(name)
    ensures SameAt(Remove(s, name).value.records, s.records, k)
  {
  }

  lemma {:induction false} BatchRemoveTouches(s: Slots, names: seq<Name>, k: Name)
    requires BatchRemove(s, names).Ok? && k !in Keys(names)
    ensures SameAt(BatchRemove(s, names).value.0.records, s.records, k)
  {
    hide Keys, RemoveEach, RemovedIn;
    BatchRemovalDropsExactly(s, names);
  }

  lemma {:induction false} BatchVerifyTouches(s: Slots, names: seq<Name>, now: U64, k: Name)
    requires BatchVerify(s, names, now).Ok? && k !in Keys(names)
    ensures SameAt(BatchVerify(s, names, now).value.0.records, s.records, k)
  {
    hide Canon, Keys, Queued, Flipped;
    KeysQueuedWithin(s, names, now);
  }

  lemma {:induction false} KeysQueuedWithin(s: Slots, names: seq<Name>, now: U64)
    ensures Keys(Queued(s, names, now)) <= Keys(names)
  {
    if names != [] {
      var front, last := names[..|names| - 1], names[|names| - 1];
      KeysQueuedWithin(s, front, now);
      KeysOfAppend(Queued(s, front, now), last);
    }
  }

  /**
    After a registration every spelling of the name resolves to the owner;
    verification survives only at an unchanged address.
   */
  lemma RegisteredNameResolves(s: Slots, name: Name, spelling: Name, owner: Address, now: U64)
    requires Register(s, name, owner, now).Ok? && Canon(spelling) == Canon(name)
    ensures var prior := GetRecord(s, name);
            var r := GetRecord(Register(s, name, owner, now).value, spelling);
            && r.Some? && r.value.stellarAddress == owner && r.value.registeredAt == Truncate(now)
            && (r.value.verified <==> prior.Some? && prior.value.verified && prior.value.stellarAddress == owner)
            && r.value.payoutAddress == (if prior.Some? then prior.value.payoutAddress else owner)
            && (r.value.isBot <==> prior.Some? && prior.value.isBot)
  {
  }

  /** Removing a name just registered restores both indexes, the records and both counters; only cursors are spent. */
  lemma RemoveUndoesRegister(s: Slots, name: Name, owner: Address, now: U64)
    requires Consistent(s) && GetRecord(s, name).None? && Register(s, name, owner, now).Ok?
    ensures var r := Remove(Register(s, name, owner, now).value, name);
            && r.Ok?
            && r.value.index == s.index && Paged(r.value) == Paged(s) && r.value.records == s.records
            && r.value.count == s.count && r.value.verifiedCount == s.verifiedCount
            && r.value.generation == WrappingAdd(s.generation, 1)
  {
    hide Canon, IsValid, Flatten, WellPaged, Without, Appended, Removed, NoDuplicates, VerifiedNames;
    var k, s1 := Canon(name), Register(s, name, owner, now).value;
    RegisterKeeps(s, name, owner, now);
    RemoveKeeps(s1, name);
    WithoutConcat(s.index, [k], k);
    WithoutItself(k);
    assert k !in s.index;
    var s2 := Remove(s1, name).value;
    assert s2.records == s.records;
  }

  /**
    Revoking what was just verified restores the record and the live count,
    clears the clock, and keeps the history.
   */
  lemma RevokeUndoesVerify(s: Slots, name: Name, now: U64, later: U64)
    requires Consistent(s) && Verify(s, name, now).Ok? && !GetRecord(s, name).value.verified
    ensures var s1 := Verify(s, name, now).value;
            var r := Revoke(s1, name);
            && r.Ok? && r.value.records == s.records && r.value.verifiedCount == s.verifiedCount
            && !Expired(r.value, name, later)
            && EverRead(r.value) == EverRead(s1)
  {
    hide Canon, IsValid, Flatten, WellPaged, NoDuplicates, VerifiedNames;
    var k := Canon(name);
    MarkCounts(s, k);
    assert s.records[k := s.records[k].(verified := true)][k := s.records[k]] == s.records;
  }
}
