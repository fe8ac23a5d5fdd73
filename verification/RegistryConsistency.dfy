/** The invariant tying the registry's redundant slots together, and what each call does to it. */
module RegistryConsistency {
  import opened ByteStrings
  import opened Cardinality
  import opened ChunkedIndex
  import opened ExportLeaves
  import opened MachineWords
  import opened RegistryState
  import opened Usernames

  /** Both indexes spell the same list, and that list is exactly the recorded names. */
  ghost predicate IndexesAgree(s: Slots) {
    && Flatten(s.chunks, s.chunkCount) == s.index
    && WellPaged(s.chunks, s.chunkCount)
  }

  ghost predicate HoleFree(s: Slots) {
    && NoDuplicates(s.index)
    && (forall n :: n in s.index <==> n in s.records)
    && (forall n :: n in s.records ==> IsValid(n) && Canon(n) == n)
  }

  ghost predicate CountersExact(s: Slots) {
    && s.count == |s.index|
    && s.verifiedCount == |VerifiedNames(s.records)|
    && EverRead(s) >= s.verifiedCount
  }

  ghost predicate Consistent(s: Slots) {
    s.initialized && IndexesAgree(s) && HoleFree(s) && CountersExact(s)
  }

  lemma FreshIsConsistent()
    ensures Consistent(FreshSlots)
  {
    assert VerifiedNames(FreshSlots.records) == {};
  }

  // ---- the verified set under record updates ----

  lemma VerifiedAfterWrite(records: map<Name, Record>, k: Name, r: Record)
    ensures VerifiedNames(records[k := r]) ==
            if r.verified then VerifiedNames(records) + {k} else VerifiedNames(records) - {k}
    ensures |VerifiedNames(records)| <= |records|
  {
    assert VerifiedNames(records) <= records.Keys;
    SubsetSize(VerifiedNames(records), records.Keys);
  }

  lemma VerifiedAfterDrop(records: map<Name, Record>, k: Name)
    ensures VerifiedNames(records - {k}) == VerifiedNames(records) - {k}
  {
  }

  /** The counts fit: a consistent registry verifies no more names than it lists. */
  lemma VerifiedWithinTotal(s: Slots)
    requires Consistent(s)
    ensures s.verifiedCount <= s.count == |s.records|
  {
    DistinctSize(s.index, s.records.Keys);
    SubsetSize(VerifiedNames(s.records), s.records.Keys);
  }

  // ---- each call keeps the invariant ----

  lemma AppendKeepsAgreement(s: Slots, name: Name)
    requires CanAppend(s) && IndexesAgree(s)
    ensures IndexesAgree(AddedToIndex(s, name))
  {
    FlattenAppended(s.chunks, s.chunkCount, Canon(name));
    AppendedKeepsPages(s.chunks, s.chunkCount, Canon(name));
  }

  lemma RemovalKeepsAgreement(s: Slots, name: Name)
    requires IndexesAgree(s) && NoDuplicates(s.index)
    ensures IndexesAgree(RemovedFromIndex(s, name))
  {
    FlattenRemoved(s.chunks, s.chunkCount, Canon(name));
  }

  lemma {:induction false} WithoutKeepsDistinct(names: seq<Name>, x: Name)
    requires NoDuplicates(names)
    ensures NoDuplicates(Without(names, x))
    ensures |Without(names, x)| == if x in names then |names| - 1 else |names|
  {
    if x in names {
      var k :| 0 <= k < |names| && names[k] == x;
      WithoutOnce(names, k);
    }
  }

  lemma AppendKeepsDistinct(names: seq<Name>, x: Name)
    requires NoDuplicates(names) && x !in names
    ensures NoDuplicates(names + [x])
  {
  }

  lemma RegisterKeeps(s: Slots, name: Name, owner: Address, now: U64)
    requires Consistent(s) && Register(s, name, owner, now).Ok?
    ensures Consistent(Register(s, name, owner, now).value)
  {
    if Canon(name) in s.records {
      RegisterAgainKeeps(s, name, owner, now);
    } else {
      RegisterNewKeeps(s, name, owner, now);
    }
  }

  lemma RegisterNewKeeps(s: Slots, name: Name, owner: Address, now: U64)
    requires Consistent(s) && Register(s, name, owner, now).Ok? && Canon(name) !in s.records
    ensures Consistent(Register(s, name, owner, now).value)
  {
    hide IsValid, Canon, NoDuplicates, Flatten, WellPaged, Appended, VerifiedNames;
    var k, s' := Canon(name), Register(s, name, owner, now).value;
    CanonOfValid(name);
    CanonIdempotent(name);
    AppendKeepsAgreement(s, name);
    AppendKeepsDistinct(s.index, k);
    assert VerifiedNames(s'.records) == VerifiedNames(s.records) by {
      VerifiedAfterWrite(s.records, k, s'.records[k]);
      UnrecordedIsUnverified(s.records, k);
    }
  }

  lemma UnrecordedIsUnverified(records: map<Name, Record>, k: Name)
    requires k !in records
    ensures VerifiedNames(records) - {k} == VerifiedNames(records)
  {
  }

  /** Registering a known name again keeps its verification only at the same address. */
  lemma RegisterAgainKeeps(s: Slots, name: Name, owner: Address, now: U64)
    requires Consistent(s) && Register(s, name, owner, now).Ok? && Canon(name) in s.records
    ensures Consistent(Register(s, name, owner, now).value)
  {
    hide IsValid, Canon, NoDuplicates, Flatten, WellPaged;
    var k, s' := Canon(name), Register(s, name, owner, now).value;
    VerifiedAfterWrite(s.records, k, s'.records[k]);
  }

  lemma RemoveKeeps(s: Slots, name: Name)
    requires Consistent(s) && Remove(s, name).Ok?
    ensures Consistent(Remove(s, name).value)
  {
    var k := Canon(name);
    RemovalKeepsAgreement(s, name);
    WithoutKeepsDistinct(s.index, k);
    VerifiedAfterDrop(s.records, k);
    assert k in s.index;
  }

  /** Marking a record adds its key to the verified set, and that set still fits the total. */
  lemma MarkCounts(s: Slots, k: Name)
    requires Consistent(s) && k in s.records
    ensures var marked := VerifiedNames(s.records[k := s.records[k].(verified := true)]);
            |marked| == s.verifiedCount + (if s.records[k].verified then 0 else 1) && |marked| <= s.count
  {
    hide Flatten, WellPaged, IsValid, Canon;
    var marked := VerifiedNames(s.records) + {k};
    VerifiedAfterWrite(s.records, k, s.records[k].(verified := true));
    VerifiedWithinTotal(s);
    SubsetSize(marked, s.records.Keys);
  }

  lemma VerifyKeeps(s: Slots, name: Name, now: U64)
    requires Consistent(s) && Verify(s, name, now).Ok?
    ensures Consistent(Verify(s, name, now).value)
  {
    hide Flatten, WellPaged, IsValid, Canon, VerifiedNames, NoDuplicates;
    MarkCounts(s, Canon(name));
  }

  lemma RevokeKeeps(s: Slots, name: Name)
    requires Consistent(s) && Revoke(s, name).Ok?
    ensures Consistent(Revoke(s, name).value)
  {
    VerifiedAfterWrite(s.records, Canon(name), Revoke(s, name).value.records[Canon(name)]);
    assert Canon(name) in VerifiedNames(s.records);
  }

  lemma RotateKeeps(s: Slots, name: Name, pending: Option<Rotation>, now: U64)
    requires Consistent(s) && Rotate(s, name, pending, now).Ok?
    ensures Consistent(Rotate(s, name, pending, now).value)
  {
    hide IsValid, Canon, NoDuplicates, Flatten, WellPaged;
    var k, s' := Canon(name), Rotate(s, name, pending, now).value;
    VerifiedAfterWrite(s.records, k, s'.records[k]);
  }

  lemma MarkBotKeeps(s: Slots, name: Name, isBot: bool)
    requires Consistent(s) && MarkBot(s, name, isBot).Ok?
    ensures Consistent(MarkBot(s, name, isBot).value)
  {
    hide IsValid, Canon, NoDuplicates, Flatten, WellPaged;
    var k, s' := Canon(name), MarkBot(s, name, isBot).value;
    VerifiedAfterWrite(s.records, k, s'.records[k]);
    assert VerifiedNames(s'.records) == VerifiedNames(s.records);
  }

  lemma ConfigureKeeps(s: Slots, window: U64)
    requires Consistent(s) && Configure(s, window).Ok?
    ensures Consistent(Configure(s, window).value)
  {
  }

  lemma CompactKeeps(s: Slots)
    requires Consistent(s)
    ensures Compact(s).Ok? && Consistent(Compact(s).value)
  {
    FlattenCompacted(s.chunks, s.chunkCount, s.index);
    NoStalePages(s.chunks, s.chunkCount, s.index);
  }
}
