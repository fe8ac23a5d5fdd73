/** Runs of the registry: any interleaving of the calls that write its slots. */
module RegistryRuns {
  import opened BatchRemoval
  import opened BatchVerification
  import opened ByteStrings
  import opened ChunkedIndex
  import opened MachineWords
  import opened NameKeys
  import opened RegistryConsistency
  import opened RegistryExactness
  import opened RegistryState
  import opened Usernames

  datatype Op =
    | OpRegister(name: Name, owner: Address, now: U64)
    | OpRemove(name: Name)
    | OpRename(from: Name, to: Name, now: U64)
    | OpVerify(name: Name, now: U64)
    | OpRevoke(name: Name)
    | OpRotate(name: Name, pending: Option<Rotation>, now: U64)
    | OpMarkBot(name: Name, isBot: bool)
    | OpResolveChallenge(name: Name, resolveAfter: Option<U64>, now: U64)
    | OpBatchVerify(names: seq<Name>, now: U64)
    | OpBatchRemove(names: seq<Name>)
    | OpConfigure(window: U64)
    | OpCompact
    | OpRepair(apply: bool)

  function Attempt(s: Slots, op: Op): Result<Slots, CallError> {
    match op
    case OpRegister(name, owner, now) => Register(s, name, owner, now)
    case OpRemove(name) => Remove(s, name)
    case OpRename(from, to, now) => Rename(s, from, to, now)
    case OpVerify(name, now) => Verify(s, name, now)
    case OpRevoke(name) => Revoke(s, name)
    case OpRotate(name, pending, now) => Rotate(s, name, pending, now)
    case OpMarkBot(name, isBot) => MarkBot(s, name, isBot)
    case OpResolveChallenge(name, resolveAfter, now) => ResolveChallenge(s, name, resolveAfter, now)
    case OpBatchVerify(names, now) =>
      (match BatchVerify(s, names, now)
       case Ok((s', _)) => Ok(s')
       case Err(e) => Err(e))
    case OpBatchRemove(names) =>
      (match BatchRemove(s, names)
       case Ok((s', _)) => Ok(s')
       case Err(e) => Err(e))
    case OpConfigure(window) => Configure(s, window)
    case OpCompact => Compact(s)
    case OpRepair(apply) => Repair(s, apply)
  }

  lemma AdmittedIsInitialized(s: Slots, op: Op)
    requires Attempt(s, op).Ok?
    ensures s.initialized
  {
  }

  /** A refused call leaves every slot as it was. */
  function Apply(s: Slots, op: Op): Slots {
    match Attempt(s, op)
    case Ok(s') => s'
    case Err(_) => s
  }

  function Run(s: Slots, ops: seq<Op>): Slots
    decreases |ops|
  {
    if ops == [] then s else Run(Apply(s, ops[0]), ops[1..])
  }

  /** The one call that can break the invariant is a rename onto a registered key. */
  ghost predicate Sound(s: Slots, op: Op) {
    op.OpRename? && Attempt(s, op).Ok? ==> Canon(op.to) !in s.records
  }

  ghost predicate SoundRun(s: Slots, ops: seq<Op>)
    decreases |ops|
  {
    ops == [] || (Sound(s, ops[0]) && SoundRun(Apply(s, ops[0]), ops[1..]))
  }

  /** Every call keeps the invariant, and a rename exactly when it is sound. */
  lemma ApplyKeepsExactly(s: Slots, op: Op)
    requires Consistent(s)
    ensures Consistent(Apply(s, op)) <==> Sound(s, op)
  {
    hide Consistent, Register, Remove, Rename, Verify, Revoke, Compact, Repair, BatchVerify, BatchVerified;
    hide Rotate, MarkBot, Configure, RemoveEach;
    if Attempt(s, op).Ok? {
      match op
      case OpRegister(name, owner, now) => RegisterKeeps(s, name, owner, now);
      case OpRemove(name) => RemoveKeeps(s, name);
      case OpRename(from, to, now) => RenameKeepsExactly(s, from, to, now);
      case OpVerify(name, now) => VerifyKeeps(s, name, now);
      case OpRevoke(name) => RevokeKeeps(s, name);
      case OpRotate(name, pending, now) => RotateKeeps(s, name, pending, now);
      case OpMarkBot(name, isBot) => MarkBotKeeps(s, name, isBot);
      case OpResolveChallenge(name, _, _) => RemoveKeeps(s, name);
      case OpBatchVerify(names, now) => BatchCountsExactly(s, names, now);
      case OpBatchRemove(names) => BatchRemovalKeeps(s, names);
      case OpConfigure(window) => ConfigureKeeps(s, window);
      case OpCompact => CompactKeeps(s);
      case OpRepair(apply) => RepairOfConsistent(s, apply);
    }
  }

  /** A run that takes nothing off the index renamed nothing, so it is sound. */
  lemma {:induction false} UnshiftedIsSound(s: Slots, ops: seq<Op>)
    requires ShiftsIn(s, ops) == 0
    ensures SoundRun(s, ops)
    decreases |ops|
  {
    hide Apply, Attempt;
    if ops != [] {
      UnshiftedIsSound(Apply(s, ops[0]), ops[1..]);
    }
  }

  lemma {:induction false} RunKeepsConsistent(s: Slots, ops: seq<Op>)
    requires Consistent(s) && SoundRun(s, ops)
    ensures Consistent(Run(s, ops))
    decreases |ops|
  {
    hide Consistent, Apply, Sound;
    if ops != [] {
      ApplyKeepsExactly(s, ops[0]);
      RunKeepsConsistent(Apply(s, ops[0]), ops[1..]);
    }
  }

  // ---- the index generation over runs ----

  /** Names a call takes off the index, each removal bumping the generation once. */
  function Shifts(s: Slots, op: Op): nat {
    if Attempt(s, op).Err? then 0
    else
      match op
      case OpRemove(_) => 1
      case OpRename(_, _, _) => 1
      case OpResolveChallenge(_, _, _) => 1
      case OpBatchRemove(names) => RemovedIn(s, names)
      case _ => 0
  }

  function ShiftsIn(s: Slots, ops: seq<Op>): nat
    decreases |ops|
  {
    if ops == [] then 0 else Shifts(s, ops[0]) + ShiftsIn(Apply(s, ops[0]), ops[1..])
  }

  /** In any state, a call either bumps the generation or leaves every indexed position in place. */
  lemma ApplyShiftsOrExtends(s: Slots, op: Op)
    ensures Apply(s, op).generation == (s.generation + Shifts(s, op)) % 0x1_0000_0000
    ensures Shifts(s, op) == 0 ==> s.index <= Apply(s, op).index
  {
    hide Canon, Register, Rename, Remove, RemoveEach, RemovedIn, Expired, Queued, Keys, Flipped, Compacted;
    if Attempt(s, op).Ok? {
      AdmittedIsInitialized(s, op);
      match op
      case OpRegister(name, owner, now) => RegisterExtends(s, name, owner, now);
      case OpRename(from, to, now) => RenameBumps(s, from, to, now);
      case OpRemove(name) => RemovalDropsKey(s, name);
      case OpResolveChallenge(name, _, _) => RemovalDropsKey(s, name);
      case OpBatchRemove(names) =>
        BatchRemovalBumps(s, names);
        NothingRemovedExtends(s, names);
      case _ =>
    }
  }

  lemma RenameBumps(s: Slots, from: Name, to: Name, now: U64)
    requires Rename(s, from, to, now).Ok?
    ensures Rename(s, from, to, now).value.generation == (s.generation + 1) % 0x1_0000_0000
  {
    hide Canon, Appended, Removed, Without;
  }

  lemma RegisterExtends(s: Slots, name: Name, owner: Address, now: U64)
    requires Register(s, name, owner, now).Ok?
    ensures var s' := Register(s, name, owner, now).value; s'.generation == s.generation && s.index <= s'.index
  {
  }

  /** A batch that finds none of its names changes nothing. */
  lemma {:induction false} NothingRemovedExtends(s: Slots, names: seq<Name>)
    ensures RemovedIn(s, names) == 0 ==> RemoveEach(s, names) == s
  {
    if names != [] {
      NothingRemovedExtends(s, names[..|names| - 1]);
    }
  }

  lemma {:induction false} RunShiftsOrExtends(s: Slots, ops: seq<Op>)
    ensures Run(s, ops).generation == (s.generation + ShiftsIn(s, ops)) % 0x1_0000_0000
    ensures ShiftsIn(s, ops) == 0 ==> s.index <= Run(s, ops).index
    decreases |ops|
  {
    hide Apply, Shifts;
    if ops != [] {
      var s' := Apply(s, ops[0]);
      ApplyShiftsOrExtends(s, ops[0]);
      RunShiftsOrExtends(s', ops[1..]);
      WrappingAddsUp(s.generation, Shifts(s, ops[0]), ShiftsIn(s', ops[1..]));
    }
  }
}
