/**
  The registry's storage slots as one value, and what each entry point does to
  them. A rejected or aborted call leaves every slot as it was.
 */
module RegistryState {
  import opened ByteStrings
  import opened ChunkedIndex
  import opened ExportLeaves
  import opened MachineWords
  import opened Usernames

  /** A host vector's length is a 32-bit word. */
  type HostVec = s: seq<Name> | |s| <= U32_MAX witness []

  datatype Slots = Slots(
    initialized: bool,
    index: HostVec,
    chunks: Chunks,
    chunkCount: U32,
    count: U32,
    verifiedCount: U32,
    everVerified: Option<U32>,
    generation: U32,
    records: map<Name, Record>,
    verifiedAt: map<Name, U64>,
    expiresIn: Option<U64>)

  /** `HostTrap` is an aborted invocation: a full host vector or an overflowing page count. */
  datatype CallError =
    | NotInitialized | InvalidUsername | ZeroAddress | NotRegistered | UsernameTaken
    | AlreadyVerified | NotVerified | InvalidBatchSize | InvalidCursor | NotAuthorized | HostTrap
    | NoRotationPending | RotationNotReady | NoChallengeActive | ChallengeNotResolvable | AlreadyInitialized

  /** A queued change of address, kept beside the registry's own slots. */
  datatype Rotation = Rotation(newAddress: Address, executableAt: U64)

  const FreshSlots := Slots(true, [], map[], 0, 0, 0, Some(0), 0, map[], map[], None)

  // ---- single slots ----

  function GetRecord(s: Slots, name: Name): Option<Record> {
    if Canon(name) in s.records then Some(s.records[Canon(name)]) else None
  }

  /** The existence probe looks the name up as given, not by its canonical key. */
  predicate HasRecord(s: Slots, name: Name) {
    name in s.records
  }

  function EverRead(s: Slots): U32 {
    match s.everVerified
    case Some(n) => n
    case None => s.verifiedCount
  }

  function EverBumped(s: Slots): Slots {
    s.(everVerified := Some(SaturatingAdd(EverRead(s), 1)))
  }

  /** Verification times are kept under the name as given, too. */
  predicate Expired(s: Slots, name: Name, now: U64) {
    && s.expiresIn.Some? && s.expiresIn.value != 0
    && name in s.verifiedAt
    && now >= SaturatingAdd64(s.verifiedAt[name], s.expiresIn.value)
  }

  /** An append neither overflows the flat vector nor the page count. */
  predicate CanAppend(s: Slots) {
    && |s.index| < U32_MAX
    && (s.chunkCount == U32_MAX ==> |Page(s.chunks, s.chunkCount - 1)| < CHUNK_SIZE)
  }

  function AddedToIndex(s: Slots, name: Name): Slots
    requires CanAppend(s)
  {
    var (chunks, chunkCount) := Appended(s.chunks, s.chunkCount, Canon(name));
    s.(index := s.index + [Canon(name)], chunks := chunks, chunkCount := chunkCount)
  }

  function RemovedFromIndex(s: Slots, name: Name): Slots {
    s.(index := Without(s.index, Canon(name)),
       generation := WrappingAdd(s.generation, 1),
       chunks := Removed(s.chunks, s.chunkCount, Canon(name)))
  }

  // ---- entry points ----

  function Register(s: Slots, name: Name, owner: Address, now: U64): Result<Slots, CallError> {
    if !s.initialized then Err(NotInitialized)
    else if !IsValid(name) then Err(InvalidUsername)
    else if owner == ZERO_ADDRESS then Err(ZeroAddress)
    else
      match GetRecord(s, name)
      case None =>
        if !CanAppend(s) then Err(HostTrap)
        else
          var record := Record(owner, owner, Truncate(now), false, false);
          var s' := AddedToIndex(s, name);
          Ok(s'.(count := SaturatingAdd(s.count, 1), records := s.records[Canon(name) := record]))
      case Some(prior) =>
        var same := prior.stellarAddress == owner;
        var record := Record(owner, prior.payoutAddress, Truncate(now), same && prior.verified, prior.isBot);
        Ok(s.(records := s.records[Canon(name) := record],
              verifiedCount := if !same && prior.verified then SaturatingSub(s.verifiedCount, 1) else s.verifiedCount))
  }

  function Remove(s: Slots, name: Name): Result<Slots, CallError> {
    if !s.initialized then Err(NotInitialized)
    else
      match GetRecord(s, name)
      case None => Err(NotRegistered)
      case Some(record) =>
        var s' := RemovedFromIndex(s, name);
        Ok(s'.(records := s.records - {Canon(name)},
               count := SaturatingSub(s.count, 1),
               verifiedCount := if record.verified then SaturatingSub(s.verifiedCount, 1) else s.verifiedCount))
  }

  /** Moves a record to a new name, unverified. Only the new name as spelt is looked up for being taken. */
  function Rename(s: Slots, from: Name, to: Name, now: U64): Result<Slots, CallError> {
    if !s.initialized then Err(NotInitialized)
    else
      match GetRecord(s, from)
      case None => Err(NotRegistered)
      case Some(record) =>
        if !IsValid(to) || to == from then Err(InvalidUsername)
        else if HasRecord(s, to) then Err(UsernameTaken)
        else if !CanAppend(s) then Err(HostTrap)
        else
          var moved := record.(verified := false, registeredAt := Truncate(now));
          var added := AddedToIndex(s.(records := s.records[Canon(to) := moved]), to);
          var s' := RemovedFromIndex(added.(records := added.records - {Canon(from)}), from);
          Ok(s'.(verifiedCount := if record.verified then SaturatingSub(s.verifiedCount, 1) else s.verifiedCount))
  }

  function Verify(s: Slots, name: Name, now: U64): Result<Slots, CallError> {
    if !s.initialized then Err(NotInitialized)
    else
      match GetRecord(s, name)
      case None => Err(NotRegistered)
      case Some(record) =>
        if record.stellarAddress == ZERO_ADDRESS then Err(ZeroAddress)
        else if record.verified && !Expired(s, name, now) then Err(AlreadyVerified)
        else
          var marked := s.(records := s.records[Canon(name) := record.(verified := true)],
                           verifiedAt := s.verifiedAt[name := now]);
          if record.verified then Ok(marked)
          else Ok(EverBumped(marked.(verifiedCount := SaturatingAdd(s.verifiedCount, 1))))
  }

  function Revoke(s: Slots, name: Name): Result<Slots, CallError> {
    if !s.initialized then Err(NotInitialized)
    else
      match GetRecord(s, name)
      case None => Err(NotRegistered)
      case Some(record) =>
        if !record.verified then Err(NotVerified)
        else
          Ok(s.(records := s.records[Canon(name) := record.(verified := false)],
                verifiedCount := SaturatingSub(s.verifiedCount, 1),
                verifiedAt := s.verifiedAt - {name}))
  }

  /** Carries out the rotation pending for a name: the new address arrives unverified. */
  function Rotate(s: Slots, name: Name, pending: Option<Rotation>, now: U64): Result<Slots, CallError> {
    if !s.initialized then Err(NotInitialized)
    else
      match GetRecord(s, name)
      case None => Err(NotRegistered)
      case Some(record) =>
        if pending.None? then Err(NoRotationPending)
        else if now < pending.value.executableAt then Err(RotationNotReady)
        else
          var moved := record.(
            stellarAddress := pending.value.newAddress, registeredAt := Truncate(now), verified := false);
          Ok(s.(records := s.records[Canon(name) := moved],
                verifiedCount := if record.verified then SaturatingSub(s.verifiedCount, 1) else s.verifiedCount))
  }

  function MarkBot(s: Slots, name: Name, isBot: bool): Result<Slots, CallError> {
    if !s.initialized then Err(NotInitialized)
    else
      match GetRecord(s, name)
      case None => Err(NotRegistered)
      case Some(record) => Ok(s.(records := s.records[Canon(name) := record.(isBot := isBot)]))
  }

  /** A challenge that has run its time, given as the instant it resolves, ends in a removal. */
  function ResolveChallenge(s: Slots, name: Name, resolveAfter: Option<U64>, now: U64): Result<Slots, CallError> {
    if !s.initialized then Err(NotInitialized)
    else if resolveAfter.None? then Err(NoChallengeActive)
    else if now < resolveAfter.value then Err(ChallengeNotResolvable)
    else Remove(s, name)
  }

  /** The verification window is set once. */
  function Configure(s: Slots, window: U64): Result<Slots, CallError> {
    if !s.initialized then Err(NotInitialized)
    else if s.expiresIn.Some? then Err(AlreadyInitialized)
    else Ok(s.(expiresIn := Some(window)))
  }

  function Compact(s: Slots): Result<Slots, CallError> {
    if !s.initialized then Err(NotInitialized)
    else Ok(s.(chunks := Compacted(s.chunks, s.chunkCount, s.index), chunkCount := PagesFor(|s.index|)))
  }

  // ---- what the counters count ----

  /** The listed names that have a record, with it, in index order. */
  function LiveEntries(records: map<Name, Record>, names: seq<Name>): (live: seq<ExportRecord>)
    ensures |live| <= |names|
  {
    if names == [] then []
    else
      var front := LiveEntries(records, names[..|names| - 1]);
      var last := names[|names| - 1];
      if Canon(last) in records then front + [(last, records[Canon(last)])] else front
  }

  function VerifiedListed(records: map<Name, Record>, names: seq<Name>): (n: nat)
    ensures n <= |names|
  {
    if names == [] then 0
    else
      var last := names[|names| - 1];
      VerifiedListed(records, names[..|names| - 1])
      + (if Canon(last) in records && records[Canon(last)].verified then 1 else 0)
  }

  /** Both counters recounted from the flat index. */
  function Recounted(s: Slots): Slots {
    s.(count := |LiveEntries(s.records, s.index)|, verifiedCount := VerifiedListed(s.records, s.index))
  }

  function Repair(s: Slots, apply: bool): Result<Slots, CallError> {
    if !s.initialized then Err(NotInitialized) else Ok(if apply then Recounted(s) else s)
  }

  function VerifiedNames(records: map<Name, Record>): set<Name> {
    set n | n in records && records[n].verified
  }
}
