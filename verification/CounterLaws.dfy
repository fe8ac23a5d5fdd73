/**
  Laws of the slots beside the records, in any state at all: the two counters
  move only with the records they count, and each call leaves alone every slot
  it has no business with.
 */
module CounterLaws {
  import opened BatchRemoval
  import opened BatchVerification
  import opened ByteStrings
  import opened ChunkedIndex
  import opened ExportLeaves
  import opened MachineWords
  import opened NameKeys
  import opened RegistryConsistency
  import opened RegistryRuns
  import opened RegistryState
  import opened Usernames

  // ---- the counters ----

  /** A 32-bit counter that stops at either end. */
  function Clamped(n: int): U32 {
    if n < 0 then 0 else Min(n, U32_MAX)
  }

  /** What a counter of a set should read after the set has changed. */
  function Moved(count: U32, before: set<Name>, after: set<Name>): U32 {
    Clamped(count + |after - before| - |before - after|)
  }

  lemma UnmovedCount(count: U32, keys: set<Name>)
    ensures Moved(count, keys, keys) == count
  {
    assert keys - keys == {};
  }

  lemma OneAdded(count: U32, keys: set<Name>, k: Name)
    ensures Moved(count, keys, keys + {k}) == if k in keys then count else SaturatingAdd(count, 1)
  {
    assert keys + {k} - keys == if k in keys then {} else {k};
    assert keys - (keys + {k}) == {};
  }

  lemma OneDropped(count: U32, keys: set<Name>, k: Name)
    ensures Moved(count, keys, keys - {k}) == if k in keys then SaturatingSub(count, 1) else count
  {
    assert keys - (keys - {k}) == if k in keys then {k} else {};
    assert keys - {k} - keys == {};
  }

  lemma OneSwapped(count: U32, keys: set<Name>, k: Name, k': Name)
    requires k in keys && k' !in keys
    ensures Moved(count, keys, keys + {k'} - {k}) == count
  {
    var after := keys + {k'} - {k};
    assert after - keys == {k'};
    assert keys - after == {k};
  }

  lemma DroppedTwice(count: U32, keys: set<Name>, gone: set<Name>, k: Name)
    ensures Moved(Moved(count, keys, keys - gone), keys - gone, keys - gone - {k})
            == Moved(count, keys, keys - gone - {k})
  {
    var rest := keys - gone;
    assert rest - keys == {} && rest - {k} - keys == {} && rest - {k} - rest == {};
    if k in rest {
      assert keys - (rest - {k}) == (keys - rest) + {k};
      assert rest - (rest - {k}) == {k};
    } else {
      assert rest - {k} == rest;
      assert rest - rest == {};
    }
  }

  /** Both counters have moved with the records. */
  ghost predicate CountersMoved(s: Slots, t: Slots) {
    && t.count == Moved(s.count, s.records.Keys, t.records.Keys)
    && t.verifiedCount == Moved(s.verifiedCount, VerifiedNames(s.records), VerifiedNames(t.records))
  }

  /**
    In any state, consistent or drifted, every call but a repair and a rename
    onto a registered key moves the total by exactly the records that appear
    and disappear, and the verified count by exactly those that cross the
    unverified-verified boundary, both stopping at zero and at the largest word.
   */
  lemma CountersMoveWithRecords(s: Slots, op: Op)
    requires Sound(s, op) && !op.OpRepair?
    ensures CountersMoved(s, Apply(s, op))
  {
    hide Register, Rename, Remove, Verify, Revoke, Rotate, MarkBot, BatchVerify, RemoveEach, RemovedIn;
    hide VerifiedNames, Moved, Compacted;
    UnmovedCount(s.count, s.records.Keys);
    UnmovedCount(s.verifiedCount, VerifiedNames(s.records));
    if Attempt(s, op).Ok? {
      AdmittedIsInitialized(s, op);
      match op
      case OpRegister(name, owner, now) => RegisterMoves(s, name, owner, now);
      case OpRemove(name) => RemoveMoves(s, name);
      case OpRename(from, to, now) => RenameMoves(s, from, to, now);
      case OpVerify(name, now) => VerifyMoves(s, name, now);
      case OpRevoke(name) => RevokeMoves(s, name);
      case OpRotate(name, pending, now) => RotateMoves(s, name, pending, now);
      case OpMarkBot(name, isBot) => MarkBotMoves(s, name, isBot);
      case OpResolveChallenge(name, _, _) => RemoveMoves(s, name);
      case OpBatchVerify(names, now) => BatchVerifyMoves(s, names, now);
      case OpBatchRemove(names) => BatchRemoveMoves(s, names);
      case OpConfigure(_) =>
      case OpCompact =>
    }
  }

  /**
    Such a rename is the one call besides a repair that breaks the law: while
    anything is counted, the counters move with the records exactly when a
    rename goes to a free key.
   */
  lemma CountersMoveExactly(s: Slots, op: Op)
    requires s.count > 0 && !op.OpRepair?
    ensures CountersMoved(s, Apply(s, op)) <==> Sound(s, op)
  {
    if Sound(s, op) {
      hide CountersMoved, Sound, Apply;
      CountersMoveWithRecords(s, op);
    } else {
      RenameToTakenLosesOne(s, op.from, op.to, op.now);
    }
  }

  lemma RenameToTakenLosesOne(s: Slots, from: Name, to: Name, now: U64)
    requires Rename(s, from, to, now).Ok? && Canon(to) in s.records && s.count > 0
    ensures !CountersMoved(s, Rename(s, from, to, now).value)
  {
    hide Canon, IsValid, Appended, Removed, Without, VerifiedNames, Moved;
    OneDropped(s.count, s.records.Keys, Canon(from));
    assert Rename(s, from, to, now).value.records.Keys == s.records.Keys - {Canon(from)};
  }

  lemma RegisterMoves(s: Slots, name: Name, owner: Address, now: U64)
    requires Register(s, name, owner, now).Ok?
    ensures CountersMoved(s, Register(s, name, owner, now).value)
  {
    hide Canon, Register, CountersMoved;
    if Canon(name) in s.records {
      RegisterAgainMoves(s, name, owner, now);
    } else {
      RegisterNewMoves(s, name, owner, now);
    }
  }

  lemma RegisterAgainMoves(s: Slots, name: Name, owner: Address, now: U64)
    requires Register(s, name, owner, now).Ok? && Canon(name) in s.records
    ensures CountersMoved(s, Register(s, name, owner, now).value)
  {
    hide Canon, IsValid, AddedToIndex, CanAppend, VerifiedNames, Moved;
    RecordRewritten(s, Canon(name), Register(s, name, owner, now).value.records[Canon(name)]);
  }

  lemma RegisterNewMoves(s: Slots, name: Name, owner: Address, now: U64)
    requires Register(s, name, owner, now).Ok? && Canon(name) !in s.records
    ensures CountersMoved(s, Register(s, name, owner, now).value)
  {
    hide Canon, IsValid, AddedToIndex, CanAppend, VerifiedNames, Moved;
    var k, t := Canon(name), Register(s, name, owner, now).value;
    RecordAdded(s, k, t.records[k]);
    assert t.verifiedCount == s.verifiedCount by {
      AddingKeepsCounters(s, name);
    }
  }

  lemma AddingKeepsCounters(s: Slots, name: Name)
    requires CanAppend(s)
    ensures AddedToIndex(s, name).verifiedCount == s.verifiedCount
  {
  }

  /** A new unverified record moves the total up and the verified count not at all. */
  lemma RecordAdded(s: Slots, k: Name, r: Record)
    requires k !in s.records && !r.verified
    ensures Moved(s.count, s.records.Keys, s.records[k := r].Keys) == SaturatingAdd(s.count, 1)
    ensures Moved(s.verifiedCount, VerifiedNames(s.records), VerifiedNames(s.records[k := r])) == s.verifiedCount
  {
    hide VerifiedNames, Moved;
    VerifiedAfterWrite(s.records, k, r);
    UnrecordedIsUnverified(s.records, k);
    UnmovedCount(s.verifiedCount, VerifiedNames(s.records));
    OneAdded(s.count, s.records.Keys, k);
    assert s.records[k := r].Keys == s.records.Keys + {k};
  }

  lemma VerifiedIsStored(records: map<Name, Record>, k: Name)
    ensures k in VerifiedNames(records) <==> k in records && records[k].verified
  {
  }

  lemma RemoveMoves(s: Slots, name: Name)
    requires Remove(s, name).Ok?
    ensures CountersMoved(s, Remove(s, name).value)
  {
    hide Canon, Removed, Without, VerifiedNames, Moved;
    var k := Canon(name);
    VerifiedAfterDrop(s.records, k);
    OneDropped(s.count, s.records.Keys, k);
    OneDropped(s.verifiedCount, VerifiedNames(s.records), k);
    VerifiedIsStored(s.records, k);
    assert (s.records - {k}).Keys == s.records.Keys - {k};
  }

  lemma RenameMoves(s: Slots, from: Name, to: Name, now: U64)
    requires Rename(s, from, to, now).Ok? && Canon(to) !in s.records
    ensures CountersMoved(s, Rename(s, from, to, now).value)
  {
    hide Canon, IsValid, Appended, Removed, Without, VerifiedNames, Moved;
    var f, k, t := Canon(from), Canon(to), Rename(s, from, to, now).value;
    var moved := s.records[f].(verified := false, registeredAt := Truncate(now));
    VerifiedAfterWrite(s.records, k, moved);
    VerifiedAfterDrop(s.records[k := moved], f);
    VerifiedIsStored(s.records, k);
    VerifiedIsStored(s.records, f);
    OneSwapped(s.count, s.records.Keys, f, k);
    OneDropped(s.verifiedCount, VerifiedNames(s.records), f);
    assert t.records.Keys == s.records.Keys + {k} - {f};
    assert VerifiedNames(s.records) - {k} == VerifiedNames(s.records);
  }

  lemma VerifyMoves(s: Slots, name: Name, now: U64)
    requires Verify(s, name, now).Ok?
    ensures CountersMoved(s, Verify(s, name, now).value)
  {
    hide Canon, Expired, VerifiedNames, Moved;
    RecordRewritten(s, Canon(name), s.records[Canon(name)].(verified := true));
  }

  lemma RevokeMoves(s: Slots, name: Name)
    requires Revoke(s, name).Ok?
    ensures CountersMoved(s, Revoke(s, name).value)
  {
    hide Canon, VerifiedNames, Moved;
    RecordRewritten(s, Canon(name), s.records[Canon(name)].(verified := false));
  }

  lemma RotateMoves(s: Slots, name: Name, pending: Option<Rotation>, now: U64)
    requires Rotate(s, name, pending, now).Ok?
    ensures CountersMoved(s, Rotate(s, name, pending, now).value)
  {
    hide Canon, VerifiedNames, Moved;
    RecordRewritten(s, Canon(name), Rotate(s, name, pending, now).value.records[Canon(name)]);
  }

  lemma MarkBotMoves(s: Slots, name: Name, isBot: bool)
    requires MarkBot(s, name, isBot).Ok?
    ensures CountersMoved(s, MarkBot(s, name, isBot).value)
  {
    hide Canon, VerifiedNames, Moved;
    RecordRewritten(s, Canon(name), s.records[Canon(name)].(isBot := isBot));
  }

  /** Rewriting a stored record moves no total, and the verified count by at most that record. */
  lemma RecordRewritten(s: Slots, k: Name, r: Record)
    requires k in s.records
    ensures Moved(s.count, s.records.Keys, s.records[k := r].Keys) == s.count
    ensures Moved(s.verifiedCount, VerifiedNames(s.records), VerifiedNames(s.records[k := r]))
            == if r.verified == s.records[k].verified then s.verifiedCount
               else if r.verified then SaturatingAdd(s.verifiedCount, 1)
               else SaturatingSub(s.verifiedCount, 1)
  {
    hide VerifiedNames, Moved;
    VerifiedAfterWrite(s.records, k, r);
    VerifiedIsStored(s.records, k);
    OneAdded(s.count, s.records.Keys, k);
    OneAdded(s.verifiedCount, VerifiedNames(s.records), k);
    OneDropped(s.verifiedCount, VerifiedNames(s.records), k);
    assert s.records[k := r].Keys == s.records.Keys + {k};
  }

  lemma BatchVerifyMoves(s: Slots, names: seq<Name>, now: U64)
    requires BatchVerify(s, names, now).Ok?
    ensures CountersMoved(s, BatchVerify(s, names, now).value.0)
  {
    hide Canon, Keys, Queued, Flipped, VerifiedNames;
    var queue := Queued(s, names, now);
    var t, before := BatchVerified(s, queue, now), VerifiedNames(s.records);
    VerifiedAfterBatch(s, queue, now);
    assert VerifiedNames(t.records) - before == Flipped(s, Keys(queue));
    assert before - VerifiedNames(t.records) == {};
    assert t.records.Keys == s.records.Keys;
    UnmovedCount(s.count, s.records.Keys);
  }

  lemma {:induction false} BatchRemoveMoves(s: Slots, names: seq<Name>)
    requires s.initialized
    ensures CountersMoved(s, RemoveEach(s, names))
    ensures VerifiedNames(RemoveEach(s, names).records) == VerifiedNames(s.records) - Keys(names)
  {
    hide Canon, Keys, Remove, Dropped, RemoveEach, RemovedIn, VerifiedNames, Moved;
    RemovingNothing(s);
    if names == [] {
      UnmovedCount(s.count, s.records.Keys);
      UnmovedCount(s.verifiedCount, VerifiedNames(s.records));
    } else {
      var front, last := names[..|names| - 1], names[|names| - 1];
      assert front + [last] == names;
      var t := RemoveEach(s, front);
      BatchRemoveMoves(s, front);
      RemovalStep(s, front, last);
      KeysOfAppend(front, last);
      BatchRemovalDropsExactly(s, front);
      DroppedMoves(t, last);
      StepDrops(s, t, RemoveEach(s, names), Keys(front), Canon(last));
    }
  }

  lemma DroppedMoves(s: Slots, name: Name)
    requires s.initialized
    ensures CountersMoved(s, Dropped(s, name))
    ensures Dropped(s, name).records == s.records - {Canon(name)}
  {
    hide Canon, Remove, VerifiedNames, Moved;
    RemovalDropsKey(s, name);
    if Remove(s, name).Ok? {
      RemoveMoves(s, name);
    } else {
      UnmovedCount(s.count, s.records.Keys);
      UnmovedCount(s.verifiedCount, VerifiedNames(s.records));
    }
  }

  lemma StepDrops(s: Slots, t: Slots, u: Slots, gone: set<Name>, k: Name)
    requires CountersMoved(s, t) && CountersMoved(t, u)
    requires t.records == s.records - gone && u.records == t.records - {k}
    requires VerifiedNames(t.records) == VerifiedNames(s.records) - gone
    ensures CountersMoved(s, u)
    ensures VerifiedNames(u.records) == VerifiedNames(s.records) - (gone + {k})
  {
    hide VerifiedNames, Moved;
    VerifiedAfterDrop(t.records, k);
    DroppedTwice(s.count, s.records.Keys, gone, k);
    DroppedTwice(s.verifiedCount, VerifiedNames(s.records), gone, k);
    assert t.records.Keys == s.records.Keys - gone && u.records.Keys == s.records.Keys - gone - {k};
  }

  // ---- what a call leaves alone ----

  /** Calls that may list or unlist a name. */
  predicate MovesIndex(op: Op) {
    op.OpRegister? || op.OpRemove? || op.OpRename? || op.OpResolveChallenge? || op.OpBatchRemove?
  }

  /** Calls that may start or clear the clock of a spelling. */
  predicate MovesClock(op: Op, spelling: Name) {
    match op
    case OpVerify(name, _) => name == spelling
    case OpRevoke(name) => name == spelling
    case OpBatchVerify(names, _) => spelling in names
    case _ => false
  }

  ghost predicate SameClock(s: Slots, t: Slots, spelling: Name) {
    && (spelling in t.verifiedAt <==> spelling in s.verifiedAt)
    && (spelling in s.verifiedAt ==> t.verifiedAt[spelling] == s.verifiedAt[spelling])
  }

  /** The slots an index-moving call shares with its state before. */
  ghost predicate SameBesideIndex(s: Slots, t: Slots) {
    && t.initialized == s.initialized && t.everVerified == s.everVerified
    && t.verifiedAt == s.verifiedAt && t.expiresIn == s.expiresIn
  }

  /**
    No call un-initializes; only the configuring one moves the window, only
    index-moving ones the list (and compaction its pages), only verifications
    the historical counter, and only calls given a spelling that spelling's clock.
   */
  lemma CallsLeaveAlone(s: Slots, op: Op, spelling: Name)
    ensures var t := Apply(s, op);
            && t.initialized == s.initialized
            && (!op.OpConfigure? ==> t.expiresIn == s.expiresIn)
            && (!MovesIndex(op) ==> t.index == s.index && t.generation == s.generation)
            && (!MovesIndex(op) && !op.OpCompact? ==> t.chunks == s.chunks && t.chunkCount == s.chunkCount)
            && (!op.OpVerify? && !op.OpBatchVerify? ==> t.everVerified == s.everVerified)
            && (!MovesClock(op, spelling) ==> SameClock(s, t, spelling))
  {
    hide Canon, Register, Rename, Remove, RemoveEach, RemovedIn, BatchVerify, Compacted, Expired;
    hide LiveEntries, VerifiedListed;
    if Attempt(s, op).Ok? {
      AdmittedIsInitialized(s, op);
      match op
      case OpRegister(name, owner, now) => RegisterLeavesAlone(s, name, owner, now);
      case OpRemove(name) => RemoveLeavesAlone(s, name);
      case OpResolveChallenge(name, _, _) => RemoveLeavesAlone(s, name);
      case OpRename(from, to, now) => RenameLeavesAlone(s, from, to, now);
      case OpBatchRemove(names) => BatchRemoveLeavesAlone(s, names);
      case OpBatchVerify(names, now) => BatchVerifyLeavesAlone(s, names, now, spelling);
      case _ =>
    }
  }

  lemma RegisterLeavesAlone(s: Slots, name: Name, owner: Address, now: U64)
    requires Register(s, name, owner, now).Ok?
    ensures SameBesideIndex(s, Register(s, name, owner, now).value)
  {
  }

  lemma RemoveLeavesAlone(s: Slots, name: Name)
    requires Remove(s, name).Ok?
    ensures SameBesideIndex(s, Remove(s, name).value)
  {
  }

  lemma RenameLeavesAlone(s: Slots, from: Name, to: Name, now: U64)
    requires Rename(s, from, to, now).Ok?
    ensures SameBesideIndex(s, Rename(s, from, to, now).value)
  {
  }

  lemma {:induction false} BatchRemoveLeavesAlone(s: Slots, names: seq<Name>)
    ensures SameBesideIndex(s, RemoveEach(s, names))
  {
    hide Remove;
    if names != [] {
      var front, last := names[..|names| - 1], names[|names| - 1];
      BatchRemoveLeavesAlone(s, front);
      if Remove(RemoveEach(s, front), last).Ok? {
        RemoveLeavesAlone(RemoveEach(s, front), last);
      }
    }
  }

  /** A batch starts the clock of exactly the eligible spellings it was given. */
  lemma BatchVerifyLeavesAlone(s: Slots, names: seq<Name>, now: U64, spelling: Name)
    requires BatchVerify(s, names, now).Ok?
    ensures var t := BatchVerify(s, names, now).value.0;
            && t.initialized == s.initialized && t.expiresIn == s.expiresIn && t.generation == s.generation
            && t.index == s.index && t.chunks == s.chunks && t.chunkCount == s.chunkCount
            && (if spelling in names && Eligible(s, spelling, now)
                then spelling in t.verifiedAt && t.verifiedAt[spelling] == now
                else SameClock(s, t, spelling))
  {
    hide Canon, Keys, Flipped, Eligible;
  }

  /** A registration of a new name lists its key last; of a known one, nothing. */
  lemma RegistrationLists(s: Slots, name: Name, owner: Address, now: U64)
    requires Register(s, name, owner, now).Ok?
    ensures var t := Register(s, name, owner, now).value;
            && t.index == s.index + (if GetRecord(s, name).None? then [Canon(name)] else [])
            && Flatten(t.chunks, t.chunkCount)
               == Flatten(s.chunks, s.chunkCount) + (if GetRecord(s, name).None? then [Canon(name)] else [])
  {
    hide Canon, IsValid, Appended, Flatten;
    FlattenAppended(s.chunks, s.chunkCount, Canon(name));
  }
}
