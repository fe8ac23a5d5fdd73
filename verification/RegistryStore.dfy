/**
  The registry as it runs: storage slots that the helpers read and overwrite.
  Each method is proved to take the slots where the value-level model says.
 */
module RegistryStore {
  import opened BatchRemoval
  import opened BatchVerification
  import opened ByteStrings
  import opened ChunkedIndex
  import opened ExportLeaves
  import opened MachineWords
  import opened NameKeys
  import opened MerkleTree
  import opened PageReaders
  import opened RegistryState
  import opened Usernames

  datatype RepairReport = RepairReport(
    storedCount: U32,
    recomputedCount: U32,
    storedVerified: U32,
    recomputedVerified: U32,
    drifted: bool,
    applied: bool)

  /** The first `n` pages are packed from `index`; the others are as they were before. */
  ghost predicate PackedUpTo(chunks: Chunks, before: Chunks, index: seq<Name>, n: nat) {
    && n <= PagesFor(|index|)
    && (forall c: nat :: c < n ==> c in chunks && chunks[c] == PackedPage(index, c))
    && (forall c: nat :: c >= n ==> (c in chunks <==> c in before))
    && (forall c: nat :: c >= n && c in chunks ==> chunks[c] == before[c])
  }

  lemma NothingPacked(chunks: Chunks, index: seq<Name>)
    ensures PackedUpTo(chunks, chunks, index, 0)
  {
  }

  lemma PackingStep(chunks: Chunks, before: Chunks, index: seq<Name>, n: nat, page: seq<Name>)
    requires PackedUpTo(chunks, before, index, n)
    requires page != [] && CHUNK_SIZE * n <= |index|
    requires page == index[CHUNK_SIZE * n..Min(CHUNK_SIZE * n + |page|, |index|)]
    requires |page| == CHUNK_SIZE || (|page| < CHUNK_SIZE && CHUNK_SIZE * n + |page| == |index|)
    ensures PackedUpTo(chunks[n := page], before, index, n + 1)
  {
    assert page == PackedPage(index, n);
  }

  lemma PackedIsCompacted(packed: Chunks, chunks: Chunks, before: Chunks, index: seq<Name>, cnt: nat)
    requires PackedUpTo(packed, before, index, PagesFor(|index|))
    requires forall c: nat :: c in chunks <==> c in packed && !(PagesFor(|index|) <= c < cnt)
    requires forall c: nat :: c in chunks ==> chunks[c] == packed[c]
    ensures chunks == Compacted(before, cnt, index)
  {
  }

  // ---- the public scan, step by step ----

  /** The scan has passed `seen` names and holds the redacted live ones past the offset, fewer than wanted. */
  ghost predicate Scanned(
      records: map<Name, Record>, names: seq<Name>, offset: nat, want: nat, seen: nat, found: seq<ExportRecord>) {
    && seen <= |names| && |found| < want
    && found == Redacted(LiveEntries(records, Slice(names, offset, seen)))
    && ScanEnd(records, names, offset, want)
       == ScanEnd(records, names, if seen < offset then offset else seen, want - |found|)
  }

  lemma ScanStart(records: map<Name, Record>, names: seq<Name>, offset: nat, want: nat)
    requires want > 0
    ensures Scanned(records, names, offset, want, 0, [])
  {
    assert Slice(names, offset, 0) == [];
  }

  lemma {:induction false} ScanStep(
      records: map<Name, Record>, names: seq<Name>, offset: nat, want: nat, seen: nat,
      found: seq<ExportRecord>, found': seq<ExportRecord>)
    requires Scanned(records, names, offset, want, seen, found) && seen < |names|
    requires found' == if seen >= offset && Canon(names[seen]) in records
                       then found + [(names[seen], PublicRecordView(records[Canon(names[seen])]))] else found
    ensures |found'| < want ==> Scanned(records, names, offset, want, seen + 1, found')
    ensures |found'| >= want ==>
              && ScanEnd(records, names, offset, want) == seen + 1
              && found' == Redacted(LiveEntries(records, Slice(names, offset, seen + 1)))
  {
    hide Canon, LiveEntries, Redacted, ScanEnd;
    var before := Slice(names, offset, seen);
    if seen >= offset {
      assert Slice(names, offset, seen + 1) == before + [names[seen]];
      LiveEntriesConcat(records, before, [names[seen]]);
      LiveEntryOfOne(records, names[seen]);
      RedactedOfConcat(LiveEntries(records, before), LiveEntries(records, [names[seen]]));
      ScanEndUnfolds(records, names, seen, want - |found|);
    } else {
      assert Slice(names, offset, seen + 1) == before == [];
    }
  }

  lemma RedactedOfConcat(a: seq<ExportRecord>, b: seq<ExportRecord>)
    ensures Redacted(a + b) == Redacted(a) + Redacted(b)
    ensures |b| == 1 ==> Redacted(b) == [(b[0].0, PublicRecordView(b[0].1))]
    ensures b == [] ==> Redacted(b) == []
  {
  }

  lemma ScanEndUnfolds(records: map<Name, Record>, names: seq<Name>, at: nat, want: nat)
    requires at < |names| && want > 0
    ensures ScanEnd(records, names, at, want) ==
            if Canon(names[at]) !in records then ScanEnd(records, names, at + 1, want)
            else if want == 1 then at + 1
            else ScanEnd(records, names, at + 1, want - 1)
  {
  }

  lemma {:induction false} ScanFinishes(
      records: map<Name, Record>, names: seq<Name>, offset: nat, want: nat, seen: nat, found: seq<ExportRecord>)
    requires Scanned(records, names, offset, want, seen, found) && seen == |names|
    ensures ScanEnd(records, names, offset, want) == seen
    ensures found == Redacted(LiveEntries(records, Slice(names, offset, seen)))
  {
  }

  lemma {:induction false} FlattenNone(chunks: Chunks)
    ensures Flatten(chunks, 0) == []
  {
  }

  /** A record for the name exists and names a real owner. */
  predicate Bound(s: Slots, name: Name) {
    Canon(name) in s.records && s.records[Canon(name)].stellarAddress != ZERO_ADDRESS
  }

  /** Part-way through the second pass, an eligible name still resolves, and marking it is one more step. */
  lemma {:induction false} MarkedBinding(s: Slots, front: seq<Name>, name: Name, now: U64)
    requires Eligible(s, name, now)
    ensures Bound(Marked(s, front, now), name)
    ensures Marked(s, front + [name], now) == MarkOne(Marked(s, front, now), name, now)
    ensures |Flipped(s, Keys(front + [name]))|
            == |Flipped(s, Keys(front))| + (if Marked(s, front, now).records[Canon(name)].verified then 0 else 1)
  {
    hide Canon, Keys, Flipped, Expired;
    MarkedStep(s, front, name, now);
    KeysOfAppend(front, name);
    FlippedOfAppend(s, Keys(front), Canon(name));
  }

  lemma NothingFlipped(s: Slots)
    ensures Flipped(s, Keys([])) == {}
  {
  }

  /** A state whose counters still have to come down. */
  function CountedLater(s: Slots, removed: U32, unverified: U32): Slots {
    s.(count := SaturatingSub(s.count, removed), verifiedCount := SaturatingSub(s.verifiedCount, unverified))
  }

  lemma NothingCountedLater(s: Slots)
    ensures CountedLater(s, 0, 0) == s
  {
  }

  function WithoutRecord(s: Slots, name: Name): Slots {
    RemovedFromIndex(s.(records := s.records - {Canon(name)}), name)
  }

  /** Dropping one more record now and counting it later is a single removal from the counted state. */
  lemma DroppedLater(s: Slots, name: Name, removed: U32, unverified: U32)
    requires s.initialized && removed < U32_MAX && unverified < U32_MAX
    ensures var counted, found := CountedLater(s, removed, unverified), GetRecord(s, name);
            && (Remove(counted, name).Ok? <==> found.Some?)
            && Dropped(counted, name) ==
               match found
               case None => counted
               case Some(record) =>
                 CountedLater(WithoutRecord(s, name), removed + 1, unverified + (if record.verified then 1 else 0))
  {
    hide Canon, Removed, Without;
  }

  class Registry {
    var initialized: bool
    var index: HostVec
    var chunks: Chunks
    var chunkCount: U32
    var count: U32
    var verifiedCount: U32
    var everVerified: Option<U32>
    var generation: U32
    var records: map<Name, Record>
    var verifiedAt: map<Name, U64>
    var expiresIn: Option<U64>

    function Snapshot(): Slots
      reads this
    {
      Slots(initialized, index, chunks, chunkCount, count, verifiedCount, everVerified, generation,
            records, verifiedAt, expiresIn)
    }

    constructor Initialize()
      ensures Snapshot() == FreshSlots
    {
      initialized, index, chunks, chunkCount, count := true, [], map[], 0, 0;
      verifiedCount, everVerified, generation := 0, Some(0), 0;
      records, verifiedAt, expiresIn := map[], map[], None;
    }

    // ---- index maintenance ----

    method AddToIndex(name: Name)
      requires CanAppend(Snapshot())
      modifies this`index, this`chunks, this`chunkCount
      ensures Snapshot() == AddedToIndex(old(Snapshot()), name)
    {
      var canon := CanonicalizeUsername(name);
      index := index + [canon];
      if chunkCount == 0 {
        chunks := chunks[0 := [canon]];
        chunkCount := 1;
      } else {
        var lastIdx: nat := chunkCount - 1;
        var lastChunk := Page(chunks, lastIdx);
        if |lastChunk| >= CHUNK_SIZE {
          chunks := chunks[chunkCount := [canon]];
          chunkCount := chunkCount + 1;
        } else {
          chunks := chunks[lastIdx := lastChunk + [canon]];
        }
      }
    }

    /** Copies a stored list without `target`, noting whether it was there. */
    static method CopyWithout(list: seq<Name>, target: Name) returns (rest: seq<Name>, found: bool)
      ensures rest == Without(list, target)
      ensures found <==> target in list
    {
      rest, found := [], false;
      for i := 0 to |list|
        invariant rest == Without(list[..i], target)
        invariant found <==> target in list[..i]
      {
        assert list[..i + 1][..i] == list[..i];
        if list[i] == target {
          found := true;
        } else {
          rest := rest + [list[i]];
        }
      }
      assert list[..|list|] == list;
    }

    method RemoveFromIndex(name: Name)
      modifies this`index, this`chunks, this`generation
      ensures Snapshot() == RemovedFromIndex(old(Snapshot()), name)
    {
      hide Without, Canon;
      var target := CanonicalizeUsername(name);
      var next, _ := CopyWithout(index, target);
      index := next;
      generation := WrappingAdd(generation, 1);

      var c: nat := 0;
      while c < chunkCount
        invariant 0 <= c <= chunkCount && chunks == old(chunks)
        invariant index == next && generation == WrappingAdd(old(generation), 1)
        invariant forall d: nat :: d < c ==> target !in Page(chunks, d)
      {
        var newChunk, found := CopyWithout(Page(chunks, c), target);
        if found {
          assert FirstWith(chunks, chunkCount, target) == c;
          chunks := chunks[c := newChunk];
          return;
        }
        c := c + 1;
      }
    }

    /** Repacks the pages from the flat index and reports how many it wrote. */
    method CompactChunkedIndex() returns (written: U32)
      modifies this`chunks, this`chunkCount
      ensures written == chunkCount == PagesFor(|index|)
      ensures Snapshot() == old(Snapshot()).(
                chunks := Compacted(old(chunks), old(chunkCount), old(index)), chunkCount := written)
    {
      hide PackedPage, Compacted, PackedUpTo;
      var previousChunks := chunkCount;
      var chunkIdx: nat := 0;
      var current: seq<Name> := [];
      NothingPacked(chunks, index);
      for i := 0 to |index|
        invariant CHUNK_SIZE * chunkIdx <= i < CHUNK_SIZE * chunkIdx + CHUNK_SIZE
        invariant current == index[CHUNK_SIZE * chunkIdx..i]
        invariant PackedUpTo(chunks, old(chunks), index, chunkIdx)
      {
        current := current + [index[i]];
        if |current| >= CHUNK_SIZE {
          PackingStep(chunks, old(chunks), index, chunkIdx, current);
          chunks := chunks[chunkIdx := current];
          chunkIdx := chunkIdx + 1;
          current := [];
        }
      }
      if |current| > 0 {
        PackingStep(chunks, old(chunks), index, chunkIdx, current);
        chunks := chunks[chunkIdx := current];
        chunkIdx := chunkIdx + 1;
      }
      assert chunkIdx == PagesFor(|index|);
      ghost var packed := chunks;
      var stale := chunkIdx;
      while stale < previousChunks
        invariant stale <= previousChunks || stale == chunkIdx
        invariant forall c: nat :: c in chunks <==> c in packed && !(chunkIdx <= c < stale)
        invariant forall c: nat :: c in chunks ==> chunks[c] == packed[c]
      {
        chunks := chunks - {stale};
        stale := stale + 1;
      }
      PackedIsCompacted(packed, chunks, old(chunks), index, previousChunks);
      chunkCount := chunkIdx;
      return chunkIdx;
    }

    // ---- entry points ----

    method RegisterUser(name: Name, owner: Address, now: U64) returns (r: Result<bool, CallError>)
      modifies this
      ensures r.Ok? <==> Register(old(Snapshot()), name, owner, now).Ok?
      ensures r.Ok? ==> Snapshot() == Register(old(Snapshot()), name, owner, now).value
      ensures r.Err? ==> Snapshot() == old(Snapshot()) && r.error == Register(old(Snapshot()), name, owner, now).error
    {
      if !initialized {
        return Err(NotInitialized);
      }
      var valid := IsValidGithubUsername(name);
      if !valid {
        return Err(InvalidUsername);
      }
      if owner == ZERO_ADDRESS {
        return Err(ZeroAddress);
      }
      var existing := GetRecord(Snapshot(), name);
      var key := CanonicalizeUsername(name);
      match existing {
        case None =>
          if !CanAppend(Snapshot()) {
            return Err(HostTrap);
          }
          count := SaturatingAdd(count, 1);
          AddToIndex(name);
          records := records[key := Record(owner, owner, Truncate(now), false, false)];
        case Some(prior) =>
          var same := prior.stellarAddress == owner;
          if !same && prior.verified {
            verifiedCount := SaturatingSub(verifiedCount, 1);
          }
          var record := Record(owner, prior.payoutAddress, Truncate(now), same && prior.verified, prior.isBot);
          records := records[key := record];
      }
      return Ok(true);
    }

    method RemoveUser(name: Name) returns (r: Result<bool, CallError>)
      modifies this
      ensures r.Ok? <==> Remove(old(Snapshot()), name).Ok?
      ensures r.Ok? ==> Snapshot() == Remove(old(Snapshot()), name).value
      ensures r.Err? ==> Snapshot() == old(Snapshot()) && r.error == Remove(old(Snapshot()), name).error
    {
      if !initialized {
        return Err(NotInitialized);
      }
      var existing := GetRecord(Snapshot(), name);
      if existing.None? {
        return Err(NotRegistered);
      }
      var key := CanonicalizeUsername(name);
      records := records - {key};
      RemoveFromIndex(name);
      count := SaturatingSub(count, 1);
      if existing.value.verified {
        verifiedCount := SaturatingSub(verifiedCount, 1);
      }
      return Ok(true);
    }

    /** The new entry is written before the old one is dropped, under keys that may coincide. */
    method RenameUser(from: Name, to: Name, now: U64) returns (r: Result<bool, CallError>)
      modifies this
      ensures r.Ok? <==> Rename(old(Snapshot()), from, to, now).Ok?
      ensures r.Ok? ==> Snapshot() == Rename(old(Snapshot()), from, to, now).value
      ensures r.Err? ==> Snapshot() == old(Snapshot()) && r.error == Rename(old(Snapshot()), from, to, now).error
    {
      if !initialized {
        return Err(NotInitialized);
      }
      var existing := GetRecord(Snapshot(), from);
      if existing.None? {
        return Err(NotRegistered);
      }
      var record := existing.value;
      var valid := IsValidGithubUsername(to);
      if !valid || to == from {
        return Err(InvalidUsername);
      }
      if HasRecord(Snapshot(), to) {
        return Err(UsernameTaken);
      }
      if !CanAppend(Snapshot()) {
        return Err(HostTrap);
      }
      if record.verified {
        verifiedCount := SaturatingSub(verifiedCount, 1);
      }
      var fromKey := CanonicalizeUsername(from);
      var toKey := CanonicalizeUsername(to);
      records := records[toKey := record.(verified := false, registeredAt := Truncate(now))];
      AddToIndex(to);
      records := records - {fromKey};
      RemoveFromIndex(from);
      return Ok(true);
    }

    method MarkVerified(name: Name, now: U64) returns (r: Result<bool, CallError>)
      modifies this
      ensures r.Ok? <==> Verify(old(Snapshot()), name, now).Ok?
      ensures r.Ok? ==> Snapshot() == Verify(old(Snapshot()), name, now).value
      ensures r.Err? ==> Snapshot() == old(Snapshot()) && r.error == Verify(old(Snapshot()), name, now).error
    {
      if !initialized {
        return Err(NotInitialized);
      }
      var existing := GetRecord(Snapshot(), name);
      if existing.None? {
        return Err(NotRegistered);
      }
      var record := existing.value;
      if record.stellarAddress == ZERO_ADDRESS {
        return Err(ZeroAddress);
      }
      if record.verified && !Expired(Snapshot(), name, now) {
        return Err(AlreadyVerified);
      }
      var key := CanonicalizeUsername(name);
      records := records[key := record.(verified := true)];
      verifiedAt := verifiedAt[name := now];
      if !record.verified {
        verifiedCount := SaturatingAdd(verifiedCount, 1);
        everVerified := Some(SaturatingAdd(EverRead(Snapshot()), 1));
      }
      return Ok(true);
    }

    method RevokeVerification(name: Name) returns (r: Result<bool, CallError>)
      modifies this
      ensures r.Ok? <==> Revoke(old(Snapshot()), name).Ok?
      ensures r.Ok? ==> Snapshot() == Revoke(old(Snapshot()), name).value
      ensures r.Err? ==> Snapshot() == old(Snapshot()) && r.error == Revoke(old(Snapshot()), name).error
    {
      if !initialized {
        return Err(NotInitialized);
      }
      var existing := GetRecord(Snapshot(), name);
      if existing.None? {
        return Err(NotRegistered);
      }
      if !existing.value.verified {
        return Err(NotVerified);
      }
      var key := CanonicalizeUsername(name);
      records := records[key := existing.value.(verified := false)];
      verifiedCount := SaturatingSub(verifiedCount, 1);
      verifiedAt := verifiedAt - {name};
      return Ok(true);
    }

    /** Carries out a pending rotation; the pending entry itself lives outside these slots. */
    method ExecuteAddressRotation(name: Name, pending: Option<Rotation>, now: U64) returns (r: Result<bool, CallError>)
      modifies this`records, this`verifiedCount
      ensures r.Ok? <==> Rotate(old(Snapshot()), name, pending, now).Ok?
      ensures r.Ok? ==> Snapshot() == Rotate(old(Snapshot()), name, pending, now).value
      ensures r.Err? ==> Snapshot() == old(Snapshot()) && r.error == Rotate(old(Snapshot()), name, pending, now).error
    {
      if !initialized {
        return Err(NotInitialized);
      }
      var existing := GetRecord(Snapshot(), name);
      if existing.None? {
        return Err(NotRegistered);
      }
      if pending.None? {
        return Err(NoRotationPending);
      }
      if now < pending.value.executableAt {
        return Err(RotationNotReady);
      }
      var record := existing.value;
      if record.verified {
        verifiedCount := SaturatingSub(verifiedCount, 1);
      }
      record := record.(stellarAddress := pending.value.newAddress, registeredAt := Truncate(now), verified := false);
      var key := CanonicalizeUsername(name);
      records := records[key := record];
      return Ok(true);
    }

    method SetBotStatus(name: Name, isBot: bool) returns (r: Result<bool, CallError>)
      modifies this`records
      ensures r.Ok? <==> MarkBot(old(Snapshot()), name, isBot).Ok?
      ensures r.Ok? ==> Snapshot() == MarkBot(old(Snapshot()), name, isBot).value
      ensures r.Err? ==> Snapshot() == old(Snapshot()) && r.error == MarkBot(old(Snapshot()), name, isBot).error
    {
      if !initialized {
        return Err(NotInitialized);
      }
      var existing := GetRecord(Snapshot(), name);
      if existing.None? {
        return Err(NotRegistered);
      }
      var key := CanonicalizeUsername(name);
      records := records[key := existing.value.(isBot := isBot)];
      return Ok(true);
    }

    method ConfigVerification(window: U64) returns (r: Result<bool, CallError>)
      modifies this`expiresIn
      ensures r.Ok? <==> Configure(old(Snapshot()), window).Ok?
      ensures r.Ok? ==> Snapshot() == Configure(old(Snapshot()), window).value
      ensures r.Err? ==> Snapshot() == old(Snapshot()) && r.error == Configure(old(Snapshot()), window).error
    {
      if !initialized {
        return Err(NotInitialized);
      }
      if expiresIn.Some? {
        return Err(AlreadyInitialized);
      }
      expiresIn := Some(window);
      return Ok(true);
    }

    /** A challenge past its deadline removes the registration it was raised against. */
    method CompleteChallenge(name: Name, resolveAfter: Option<U64>, now: U64) returns (r: Result<bool, CallError>)
      modifies this
      ensures r.Ok? <==> ResolveChallenge(old(Snapshot()), name, resolveAfter, now).Ok?
      ensures r.Ok? ==> Snapshot() == ResolveChallenge(old(Snapshot()), name, resolveAfter, now).value
      ensures r.Err? ==>
                && Snapshot() == old(Snapshot())
                && r.error == ResolveChallenge(old(Snapshot()), name, resolveAfter, now).error
    {
      if !initialized {
        return Err(NotInitialized);
      }
      if resolveAfter.None? {
        return Err(NoChallengeActive);
      }
      if now < resolveAfter.value {
        return Err(ChallengeNotResolvable);
      }
      r := RemoveUser(name);
    }

    // ---- batch removal ----

    /** Drops the names it finds, one after the other, and writes each counter once at the end. */
    method BatchRemoveUsers(usernames: seq<Name>, authorized: bool) returns (r: Result<BatchSummary, CallError>)
      modifies this
      ensures r.Ok? <==> authorized && BatchRemove(old(Snapshot()), usernames).Ok?
      ensures r.Ok? ==>
                && Snapshot() == BatchRemove(old(Snapshot()), usernames).value.0
                && r.value == BatchRemove(old(Snapshot()), usernames).value.1
      ensures r.Err? ==> Snapshot() == old(Snapshot())
      ensures r.Err? ==> r.error == match BatchRemove(old(Snapshot()), usernames)
                                    case Ok(_) => NotAuthorized
                                    case Err(e) => e
    {
      hide Canon, RemoveEach, RemovedIn, Dropped, RemovedFromIndex;
      if !initialized {
        return Err(NotInitialized);
      }
      if !(0 < |usernames| <= MAX_WRITE_BATCH) {
        return Err(InvalidBatchSize);
      }
      if !authorized {
        return Err(NotAuthorized);
      }
      var removed, unverified := DropEach(usernames);
      if removed > 0 {
        count := SaturatingSub(count, removed);
      }
      if unverified > 0 {
        verifiedCount := SaturatingSub(verifiedCount, unverified);
      }
      return Ok(Summarize(|usernames|, removed));
    }

    /** The removal loop: records and index entries go, the counters wait. */
    method DropEach(usernames: seq<Name>) returns (removed: U32, unverified: U32)
      requires initialized && |usernames| <= MAX_WRITE_BATCH
      modifies this`records, this`index, this`chunks, this`generation
      ensures removed == RemovedIn(old(Snapshot()), usernames)
      ensures CountedLater(Snapshot(), removed, unverified) == RemoveEach(old(Snapshot()), usernames)
    {
      hide Canon, RemoveEach, RemovedIn, Dropped, RemovedFromIndex, CountedLater, Remove;
      ghost var s := Snapshot();
      removed, unverified := 0, 0;
      RemovingNothing(s);
      NothingCountedLater(s);
      for i := 0 to |usernames|
        invariant removed == RemovedIn(s, usernames[..i]) && unverified <= removed <= i
        invariant CountedLater(Snapshot(), removed, unverified) == RemoveEach(s, usernames[..i])
      {
        assert usernames[..i] + [usernames[i]] == usernames[..i + 1];
        RemovalStep(s, usernames[..i], usernames[i]);
        DroppedLater(Snapshot(), usernames[i], removed, unverified);
        var dropped, wasVerified := DropUser(usernames[i]);
        if dropped {
          removed := SaturatingAdd(removed, 1);
          if wasVerified {
            unverified := SaturatingAdd(unverified, 1);
          }
        }
      }
      assert usernames[..|usernames|] == usernames;
    }

    method DropUser(username: Name) returns (dropped: bool, wasVerified: bool)
      modifies this`records, this`index, this`chunks, this`generation
      ensures dropped <==> GetRecord(old(Snapshot()), username).Some?
      ensures wasVerified <==> dropped && GetRecord(old(Snapshot()), username).value.verified
      ensures Snapshot() == if dropped then WithoutRecord(old(Snapshot()), username) else old(Snapshot())
    {
      hide Canon, RemovedFromIndex;
      var found := GetRecord(Snapshot(), username);
      if found.None? {
        return false, false;
      }
      var key := CanonicalizeUsername(username);
      records := records - {key};
      RemoveFromIndex(username);
      return true, found.value.verified;
    }

    // ---- readers ----

    method ResolveOffset(cursor: Option<Cursor>) returns (r: Result<U32, CallError>)
      ensures r == match cursor
                   case None => Ok(0)
                   case Some(c) => DecodeCursor(Snapshot(), c)
    {
      match cursor
      case None => r := Ok(0);
      case Some(c) => r := DecodeCursor(Snapshot(), c);
    }

    /** The slice of the flat index a page covers, with the names that have no record left out. */
    method CollectLive(offset: nat, end: nat) returns (found: seq<ExportRecord>)
      requires end <= |index|
      ensures found == LiveEntries(records, Slice(index, offset, end))
    {
      hide LiveEntries, Canon;
      found := [];
      LiveEntryOfNone(records);
      var i := offset;
      while i < end
        invariant offset <= i && (i <= end || i == offset)
        invariant found == LiveEntries(records, Slice(index, offset, i))
      {
        var name := index[i];
        assert Slice(index, offset, i + 1) == Slice(index, offset, i) + [name];
        LiveEntriesConcat(records, Slice(index, offset, i), [name]);
        LiveEntryOfOne(records, name);
        var record := GetRecord(Snapshot(), name);
        if record.Some? {
          found := found + [(name, record.value)];
        }
        i := i + 1;
      }
      assert i > end ==> Slice(index, offset, end) == [];
    }

    method GetRegisteredPaginated(cursor: Option<Cursor>, limit: U32) returns (r: Result<ExportPage, CallError>)
      ensures r == Read(Snapshot(), Admin, cursor, limit)
    {
      hide LiveEntries, DecodeCursor, EncodeCursor, Canon, PageRoot;
      if !initialized {
        return Err(NotInitialized);
      }
      var resolved := ResolveOffset(cursor);
      if resolved.Err? {
        return Err(resolved.error);
      }
      var offset := resolved.value;
      var effectiveLimit := EffectiveLimit(limit);
      if offset >= count {
        return Ok(ExportPage([], None, count, Zero, false));
      }
      var end := Min(SaturatingAdd(offset, effectiveLimit), |index|);
      var found := CollectLive(offset, end);
      assert found == PageEntries(Snapshot(), Admin, offset, limit);
      var next := if end < |index| then Some(EncodeCursor(Snapshot(), end)) else None;
      var root := RootOfRecords(found);
      return Ok(ExportPage(found, next, count, root, next.Some?));
    }

    /**
      Reads only the pages, never the flat index. Positions are counted in a word
      that saturates; past that point no cursor is due, so it never matters.
     */
    method GetPublicPaginated(cursor: Option<Cursor>, limit: U32) returns (r: Result<ExportPage, CallError>)
      ensures r == Read(Snapshot(), Public, cursor, limit)
    {
      hide LiveEntries, DecodeCursor, EncodeCursor, Canon, ScanEnd, Scanned, PageRoot, Flatten;
      if !initialized {
        return Err(NotInitialized);
      }
      var resolved := ResolveOffset(cursor);
      if resolved.Err? {
        return Err(resolved.error);
      }
      var offset := resolved.value;
      var effectiveLimit := EffectiveLimit(limit);
      if offset >= count {
        return Ok(ExportPage([], None, count, Zero, false));
      }
      ghost var names := Paged(Snapshot());
      ghost var at: nat := 0;
      var found: seq<ExportRecord> := [];
      var seen: U32 := 0;
      var end: U32 := offset;
      ScanStart(records, names, offset, effectiveLimit);
      FlattenNone(chunks);
      var c: nat := 0;
      label Pages: while c < chunkCount
        invariant 0 <= c <= chunkCount && at == |Flatten(chunks, c)| && seen == Min(at, U32_MAX)
        invariant Scanned(records, names, offset, effectiveLimit, at, found)
        invariant |found| < effectiveLimit
      {
        var chunk := Page(chunks, c);
        PositionInFlatten(chunks, chunkCount, c);
        var i: nat := 0;
        while i < |chunk|
          invariant 0 <= i <= |chunk| && at == |Flatten(chunks, c)| + i && seen == Min(at, U32_MAX)
          invariant Scanned(records, names, offset, effectiveLimit, at, found)
          invariant |found| < effectiveLimit
        {
          ghost var before := found;
          if seen >= offset && |found| < effectiveLimit {
            var name := chunk[i];
            var record := GetRecord(Snapshot(), name);
            if record.Some? {
              found := found + [(name, PublicRecordView(record.value))];
            }
          }
          assert chunk[i] == names[at];
          ScanStep(records, names, offset, effectiveLimit, at, before, found);
          at := at + 1;
          seen := SaturatingAdd(seen, 1);
          if |found| >= effectiveLimit {
            end := seen;
            break Pages;
          }
          i := i + 1;
        }
        c := c + 1;
      }
      if |found| < effectiveLimit {
        end := seen;
        ScanFinishes(records, names, offset, effectiveLimit, at, found);
      }
      assert at == PageEnd(Snapshot(), Public, offset, limit) && end == Min(at, U32_MAX);
      assert found == PageEntries(Snapshot(), Public, offset, limit);
      var next := if end < count then Some(EncodeCursor(Snapshot(), end)) else None;
      var root := RootOfRecords(found);
      return Ok(ExportPage(found, next, count, root, next.Some?));
    }

    // ---- repair ----

    /** Recounts from the flat index; counters are written back only on a real drift and only when asked. */
    method RepairIndex(apply: bool) returns (report: RepairReport)
      modifies this`count, this`verifiedCount
      ensures Snapshot() == if apply then Recounted(old(Snapshot())) else old(Snapshot())
      ensures report.storedCount == old(count) && report.storedVerified == old(verifiedCount)
      ensures report.recomputedCount == |LiveEntries(records, index)|
      ensures report.recomputedVerified == VerifiedListed(records, index)
      ensures report.drifted <==>
              old(count) != |LiveEntries(records, index)| || old(verifiedCount) != VerifiedListed(records, index)
      ensures report.applied <==> apply && report.drifted
      ensures apply ==> count == report.recomputedCount && verifiedCount == report.recomputedVerified
    {
      hide Canon;
      var recomputedCount: U32, recomputedVerified: U32 := 0, 0;
      for i := 0 to |index|
        invariant recomputedCount == |LiveEntries(records, index[..i])|
        invariant recomputedVerified == VerifiedListed(records, index[..i])
      {
        assert index[..i + 1][..i] == index[..i];
        var record := GetRecord(Snapshot(), index[i]);
        if record.Some? {
          recomputedCount := SaturatingAdd(recomputedCount, 1);
          if record.value.verified {
            recomputedVerified := SaturatingAdd(recomputedVerified, 1);
          }
        }
      }
      assert index[..|index|] == index;
      var storedCount, storedVerified := count, verifiedCount;
      var drifted := storedCount != recomputedCount || storedVerified != recomputedVerified;
      var applied := apply && drifted;
      if applied {
        count := recomputedCount;
        verifiedCount := recomputedVerified;
      }
      return RepairReport(storedCount, recomputedCount, storedVerified, recomputedVerified, drifted, applied);
    }

    // ---- batch verification ----

    /** Two passes: queue the eligible spellings once each, then mark them; one counter write at the end. */
    method BatchVerifyUsers(usernames: seq<Name>, authorized: bool, now: U64)
      returns (r: Result<BatchSummary, CallError>)
      modifies this`records, this`verifiedAt, this`everVerified, this`verifiedCount
      ensures r.Ok? <==> authorized && BatchVerify(old(Snapshot()), usernames, now).Ok?
      ensures r.Ok? ==>
                && Snapshot() == BatchVerify(old(Snapshot()), usernames, now).value.0
                && r.value == BatchVerify(old(Snapshot()), usernames, now).value.1
      ensures r.Err? ==> Snapshot() == old(Snapshot())
      ensures r.Err? ==> r.error == match BatchVerify(old(Snapshot()), usernames, now)
                                    case Ok(_) => NotAuthorized
                                    case Err(e) => e
    {
      hide Canon, Keys, Flipped, Expired;
      if !initialized {
        return Err(NotInitialized);
      }
      if !(0 < |usernames| <= MAX_WRITE_BATCH) {
        return Err(InvalidBatchSize);
      }
      if !authorized {
        return Err(NotAuthorized);
      }
      var total: U32 := |usernames|;
      var pending := QueuePending(usernames, now);

      ghost var s := Snapshot();
      var successful, newlyVerified := MarkPending(pending, now);
      if newlyVerified > 0 {
        verifiedCount := SaturatingAdd(verifiedCount, newlyVerified);
      }
      return Ok(Summarize(total, successful));
    }

    /** The second pass. A name that no longer resolves to a bound record would be skipped; none is. */
    method MarkPending(pending: seq<Name>, now: U64) returns (successful: U32, newlyVerified: U32)
      requires |pending| <= MAX_WRITE_BATCH
      requires forall n :: n in pending ==> Eligible(Snapshot(), n, now)
      modifies this`records, this`verifiedAt, this`everVerified
      ensures successful == |pending|
      ensures newlyVerified == |Flipped(old(Snapshot()), Keys(pending))|
      ensures Snapshot() == Marked(old(Snapshot()), pending, now)
    {
      hide Canon, Keys, Flipped, Marked, MarkOne, Eligible;
      ghost var s := Snapshot();
      successful, newlyVerified := 0, 0;
      MarkedNothing(s, now);
      NothingFlipped(s);
      for i := 0 to |pending|
        invariant successful == i
        invariant Snapshot() == Marked(s, pending[..i], now)
        invariant newlyVerified == |Flipped(s, Keys(pending[..i]))| <= i
      {
        var username := pending[i];
        assert pending[..i + 1] == pending[..i] + [username];
        assert Eligible(s, username, now);
        MarkedBinding(s, pending[..i], username, now);
        var marked, flipped := MarkUser(username, now);
        if marked {
          successful := SaturatingAdd(successful, 1);
        }
        if flipped {
          newlyVerified := SaturatingAdd(newlyVerified, 1);
        }
      }
      assert pending[..|pending|] == pending;
    }

    method MarkUser(username: Name, now: U64) returns (marked: bool, flipped: bool)
      modifies this`records, this`verifiedAt, this`everVerified
      ensures marked <==> Bound(old(Snapshot()), username)
      ensures flipped <==> marked && !old(Snapshot()).records[Canon(username)].verified
      ensures Snapshot() == if marked then MarkOne(old(Snapshot()), username, now) else old(Snapshot())
    {
      hide Canon;
      var key := CanonicalizeUsername(username);
      var found := GetRecord(Snapshot(), username);
      if found.None? {
        return false, false;
      }
      var record := found.value;
      if record.stellarAddress == ZERO_ADDRESS {
        return false, false;
      }
      var wasVerified := record.verified;
      records := records[key := record.(verified := true)];
      verifiedAt := verifiedAt[username := now];
      if !wasVerified {
        everVerified := Some(SaturatingAdd(EverRead(Snapshot()), 1));
      }
      return true, !wasVerified;
    }

    /** The first pass: registered, bound, not already active, and not queued yet under this spelling. */
    method QueuePending(usernames: seq<Name>, now: U64) returns (pending: seq<Name>)
      ensures pending == Queued(Snapshot(), usernames, now)
    {
      hide Canon, Expired;
      pending := [];
      for i := 0 to |usernames|
        invariant pending == Queued(Snapshot(), usernames[..i], now)
      {
        assert usernames[..i + 1][..i] == usernames[..i];
        var username := usernames[i];
        var found := GetRecord(Snapshot(), username);
        if found.None? {
          continue;
        }
        if found.value.stellarAddress == ZERO_ADDRESS {
          continue;
        }
        var active := found.value.verified && !Expired(Snapshot(), username, now);
        if active || username in pending {
          continue;
        }
        pending := pending + [username];
      }
      assert usernames[..|usernames|] == usernames;
    }
  }
}
