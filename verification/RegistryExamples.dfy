/** Concrete inputs on which a promise of the documentation fails; the exact conditions are proved elsewhere. */
module RegistryExamples {
  import opened BatchVerification
  import opened ByteStrings
  import opened ChunkedIndex
  import opened ExportLeaves
  import opened MachineWords
  import opened NameKeys
  import opened PageReaders
  import opened RegistryConsistency
  import opened RegistryExactness
  import opened RegistryState
  import opened Usernames

  const LOWER_A: Name := [0x61]
  const UPPER_A: Name := [0x41]
  const LOWER_B: Name := [0x62]
  const LOWER_C: Name := [0x63]

  lemma LowerLetter(b: Byte)
    requires 0x61 <= b <= 0x63
    ensures IsValid([b]) && Canon([b]) == [b]
  {
    CanonOfValid([b]);
    assert Lower([b]) == [b];
  }

  lemma SingleLetters()
    ensures IsValid(LOWER_A) && IsValid(UPPER_A) && IsValid(LOWER_B) && IsValid(LOWER_C)
    ensures Canon(LOWER_A) == Canon(UPPER_A) == LOWER_A && Canon(LOWER_B) == LOWER_B && Canon(LOWER_C) == LOWER_C
  {
    LowerLetter(0x61);
    LowerLetter(0x62);
    LowerLetter(0x63);
    CanonOfValid(UPPER_A);
    assert Lower(UPPER_A) == LOWER_A;
  }

  function Registered(s: Slots, name: Name, owner: Address): Slots {
    match Register(s, name, owner, 0)
    case Ok(s') => s'
    case Err(_) => s
  }

  /** Renaming `b` to `A` beside a registered `a` is accepted and overwrites `a`'s record. */
  lemma RenameOverwrites(owner: Address, other: Address)
    requires owner != ZERO_ADDRESS && other != ZERO_ADDRESS
    ensures var s := Registered(Registered(FreshSlots, LOWER_A, owner), LOWER_B, other);
            && Consistent(s)
            && GetRecord(s, LOWER_A) == Some(Record(owner, owner, 0, false, false))
            && Rename(s, LOWER_B, UPPER_A, 0).Ok?
            && GetRecord(Rename(s, LOWER_B, UPPER_A, 0).value, LOWER_A) == Some(Record(other, other, 0, false, false))
            && !Consistent(Rename(s, LOWER_B, UPPER_A, 0).value)
  {
    hide IsValid, Canon, Flatten, WellPaged, Consistent;
    SingleLetters();
    FreshIsConsistent();
    var s0 := FreshSlots;
    var s1 := Registered(s0, LOWER_A, owner);
    RegisterKeeps(s0, LOWER_A, owner, 0);
    assert s1.index == [LOWER_A] && s1.chunks == map[0 := [LOWER_A]] && s1.chunkCount == 1;
    var s2 := Registered(s1, LOWER_B, other);
    RegisterKeeps(s1, LOWER_B, other, 0);
    assert |s2.index| == 2 && s2.chunkCount == 1;
    RenameKeepsExactly(s2, LOWER_B, UPPER_A, 0);
  }

  /** On an instance without the historical counter, the first single verification is counted twice. */
  lemma FirstVerificationCountedTwice(owner: Address)
    requires owner != ZERO_ADDRESS
    ensures var s := Registered(FreshSlots.(everVerified := None), LOWER_A, owner);
            Verify(s, LOWER_A, 0).Ok? && EverRead(s) == 0 && EverRead(Verify(s, LOWER_A, 0).value) == 2
  {
    hide IsValid, Canon;
    SingleLetters();
  }

  lemma {:induction false} BothSpellingsQueued(s: Slots)
    requires Eligible(s, LOWER_A, 0) && Eligible(s, UPPER_A, 0)
    ensures Queued(s, [LOWER_A, UPPER_A], 0) == [LOWER_A, UPPER_A]
  {
    hide Eligible;
    var names := [LOWER_A, UPPER_A];
    var none: seq<Name> := [];
    assert names[..1] == [LOWER_A] && [LOWER_A][..0] == none;
    assert Queued(s, [LOWER_A], 0) == [LOWER_A];
  }

  /** A batch of `a` and `A` reports two successes in a registry of one contributor. */
  lemma BatchCountsSpellings(owner: Address)
    requires owner != ZERO_ADDRESS
    ensures var s := Registered(FreshSlots, LOWER_A, owner);
            var r := BatchVerify(s, [LOWER_A, UPPER_A], 0);
            r.Ok? && r.value.1.successful == 2 && |r.value.0.records| == 1
  {
    hide IsValid, Canon, Flatten, WellPaged, Flipped, Queued, Keys;
    SingleLetters();
    var s := Registered(FreshSlots, LOWER_A, owner);
    assert s.records == map[LOWER_A := Record(owner, owner, 0, false, false)];
    BothSpellingsQueued(s);
    assert BatchVerify(s, [LOWER_A, UPPER_A], 0).value.0.records.Keys == {LOWER_A};
  }

  /**
    With `c` listed first but its record gone, a repair sets the count to two,
    and a public walk of single records then ends before `b`.
   */
  lemma RepairThenExportLosesARecord(a: Record, b: Record)
    ensures var index := [LOWER_C, LOWER_A, LOWER_B];
            var s := FreshSlots.(index := index, chunks := map[0 := index], chunkCount := 1, count := 3,
                                 records := map[LOWER_A := a, LOWER_B := b]);
            var page := PageAt(Repair(s, true).value, Public, 0, 1);
            && s.count == |s.index| && Paged(s) == s.index
            && NamesOf(page.records) == [LOWER_A] && page.nextCursor == None
            && GetRecord(s, LOWER_B).Some?
  {
    hide IsValid, Canon, PageRoot;
    SingleLetters();
    var index := [LOWER_C, LOWER_A, LOWER_B];
    var records := map[LOWER_A := a, LOWER_B := b];
    var none: seq<Name> := [];
    assert index[..2][..1] == [LOWER_C] && [LOWER_C][..0] == none && index[..2] == [LOWER_C, LOWER_A];
    assert LiveEntries(records, [LOWER_C]) == [];
    assert LiveEntries(records, index[..2]) == [(LOWER_A, a)];
    assert LiveEntries(records, index) == [(LOWER_A, a), (LOWER_B, b)];
    var chunks: Chunks := map[0 := index];
    assert Flatten(chunks, 1) == [] + index;
    assert ScanEnd(records, index, 1, 1) == 2;
    assert ScanEnd(records, index, 0, 1) == 2;
    assert Slice(index, 0, 2) == index[..2];
  }
}
