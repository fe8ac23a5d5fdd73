/**
  Promises about single calls that hold only under a condition, each with the
  exact condition: renames, the ever-verified counter, the raw-name lookups,
  and the counter repair.
 */
module RegistryExactness {
  import opened Cardinality
  import opened ChunkedIndex
  import opened ExportLeaves
  import opened MachineWords
  import opened PageReaders
  import opened RegistryConsistency
  import opened RegistryState
  import opened Usernames

  // ---- raw-name lookups ----

  /** The existence probe agrees with the record lookup exactly on canonical spellings. */
  lemma HasRecordIsExactOnCanonicalNames(s: Slots, name: Name)
    requires HoleFree(s)
    ensures HasRecord(s, name) <==> GetRecord(s, name).Some? && Canon(name) == name
  {
  }

  /** A verification starts the clock of the spelling it was made under and of no other. */
  lemma ExpiryIsPerSpelling(s: Slots, name: Name, variant: Name, now: U64, later: U64)
    requires Verify(s, name, now).Ok? && s.expiresIn.Some? && s.expiresIn.value != 0
    ensures Expired(Verify(s, name, now).value, variant, later)
            <==> if variant == name then later >= SaturatingAdd64(now, s.expiresIn.value)
                 else Expired(s, variant, later)
  {
  }

  // ---- rename ----

  /** A rename keeps the registry consistent exactly when the new name's key was free. */
  lemma RenameKeepsExactly(s: Slots, from: Name, to: Name, now: U64)
    requires Consistent(s) && Rename(s, from, to, now).Ok?
    ensures Consistent(Rename(s, from, to, now).value) <==> Canon(to) !in s.records
  {
    if Canon(to) !in s.records {
      RenameToFreeKeeps(s, from, to, now);
    } else {
      RenameToTakenBreaks(s, from, to, now);
    }
  }

  lemma RenamedIndex(s: Slots, from: Name, to: Name, now: U64)
    requires Rename(s, from, to, now).Ok?
    ensures Rename(s, from, to, now).value.index ==
            Without(s.index, Canon(from)) + (if Canon(from) == Canon(to) then [] else [Canon(to)])
  {
    WithoutConcat(s.index, [Canon(to)], Canon(from));
    assert [Canon(to)][..0] == [];
  }

  lemma RenameToTakenBreaks(s: Slots, from: Name, to: Name, now: U64)
    requires Consistent(s) && Rename(s, from, to, now).Ok? && Canon(to) in s.records
    ensures !Consistent(Rename(s, from, to, now).value)
  {
    hide Canon, IsValid, Without, Flatten, WellPaged, VerifiedNames, Appended, Removed;
    var s', kept := Rename(s, from, to, now).value, Without(s.index, Canon(from));
    RenamedIndex(s, from, to, now);
    WithoutKeepsDistinct(s.index, Canon(from));
    if Canon(from) == Canon(to) {
      assert |s'.index| == s'.count - 1;
    } else {
      assert Canon(to) in kept;
      var k :| 0 <= k < |kept| && kept[k] == Canon(to);
      assert s'.index[k] == s'.index[|kept|];
    }
  }

  lemma RenameToFreeKeeps(s: Slots, from: Name, to: Name, now: U64)
    requires Consistent(s) && Rename(s, from, to, now).Ok? && Canon(to) !in s.records
    ensures Consistent(Rename(s, from, to, now).value)
  {
    hide Canon, IsValid, Without, Flatten, WellPaged, VerifiedNames, Appended, Removed, NoDuplicates;
    var f, t := Canon(from), Canon(to);
    var s', kept := Rename(s, from, to, now).value, Without(s.index, f);
    RenamedIndex(s, from, to, now);
    WithoutKeepsDistinct(s.index, f);
    AppendKeepsDistinct(kept, t);
    CanonOfValid(to);
    CanonIdempotent(to);
    assert IndexesAgree(s') by {
      AppendKeepsAgreement(s, to);
      AppendKeepsDistinct(s.index, t);
      RemovalKeepsAgreement(AddedToIndex(s, to), from);
    }
    assert VerifiedNames(s'.records) == VerifiedNames(s.records) - {f} by {
      var moved := s.records[f].(verified := false, registeredAt := Truncate(now));
      VerifiedAfterWrite(s.records, t, moved);
      VerifiedAfterDrop(s.records[t := moved], f);
      UnrecordedIsUnverified(s.records, t);
    }
    assert f in VerifiedNames(s.records) <==> s.records[f].verified by {
      VerifiedMembership(s.records, f);
    }
  }

  lemma VerifiedMembership(records: map<Name, Record>, k: Name)
    requires k in records
    ensures k in VerifiedNames(records) <==> records[k].verified
  {
  }

  /** The guard lets a taken name through: one that is registered, spelt in another case. */
  lemma RenameAcceptsCaseVariant(s: Slots, from: Name, to: Name, now: U64)
    requires Consistent(s) && CanAppend(s) && GetRecord(s, from).Some?
    requires IsValid(to) && to != from && Canon(to) in s.records
    ensures Rename(s, from, to, now).Ok? <==> Canon(to) != to
  {
  }

  // ---- the ever-verified counter ----

  /** One verification counts once exactly when the counter is already stored; a missing one counts it twice. */
  lemma VerifyCountsOnceExactly(s: Slots, name: Name, now: U64)
    requires Verify(s, name, now).Ok? && !GetRecord(s, name).value.verified
    requires s.verifiedCount < U32_MAX - 1 && EverRead(s) < U32_MAX - 1
    ensures var s' := Verify(s, name, now).value;
            EverRead(s') == EverRead(s) + (if s.everVerified.Some? then 1 else 2)
  {
  }

  /** Revoking leaves the historical figure alone exactly when the counter is stored. */
  lemma RevokeKeepsHistoryExactly(s: Slots, name: Name)
    requires Consistent(s) && Revoke(s, name).Ok?
    ensures EverRead(Revoke(s, name).value) == EverRead(s) <==> s.everVerified.Some?
  {
    assert Canon(name) in VerifiedNames(s.records);
  }

  // ---- counter repair ----

  lemma {:induction false} VerifiedListedCounts(records: map<Name, Record>, names: seq<Name>, verified: set<Name>)
    requires NoDuplicates(names) && (forall n :: n in names ==> n in records && Canon(n) == n)
    requires verified == set n | n in names && records[n].verified
    ensures VerifiedListed(records, names) == |verified|
  {
    if names != [] {
      var front, last := names[..|names| - 1], names[|names| - 1];
      var less := set n | n in front && records[n].verified;
      assert last !in front;
      assert verified == if records[last].verified then less + {last} else less;
      VerifiedListedCounts(records, front, less);
    }
  }

  /** On a consistent registry the recount finds no drift, and applying it changes nothing. */
  lemma RepairOfConsistent(s: Slots, apply: bool)
    requires Consistent(s)
    ensures Repair(s, apply) == Ok(s)
  {
    LiveCountIsFullExactly(s.records, s.index);
    VerifiedListedCounts(s.records, s.index, VerifiedNames(s.records));
  }

  /** An applied repair restores `count == index length` exactly when the index has no hole. */
  lemma RepairCountsPositionsExactly(s: Slots)
    ensures Recounted(s).count == |s.index| <==> AllLive(s.records, s.index)
  {
    LiveCountIsFullExactly(s.records, s.index);
  }
}
