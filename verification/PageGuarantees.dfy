/** What the two readers guarantee: parity, coverage, progress, and what the public one conceals. */
module PageGuarantees {
  import opened Cardinality
  import opened ChunkedIndex
  import opened ExportLeaves
  import opened MachineWords
  import opened MerkleTree
  import opened PageReaders
  import opened RegistryConsistency
  import opened RegistryState
  import opened Usernames

  /** Both indexes spell one list and the counter counts it; records may be missing. */
  ghost predicate Exportable(s: Slots) {
    s.initialized && IndexesAgree(s) && s.count == |s.index|
  }

  lemma ConsistentIsExportable(s: Slots)
    requires Consistent(s)
    ensures Exportable(s) && AllLive(s.records, s.index)
  {
    forall i | 0 <= i < |s.index|
      ensures Canon(s.index[i]) in s.records
    {
      assert s.index[i] in s.records;
    }
  }

  // ---- parity ----

  function RedactPage(page: ExportPage): ExportPage {
    page.(records := Redacted(page.records), merkleRoot := PageRoot(Redacted(page.records)))
  }

  /** With no holes, the page-scanning reader answers as the slicing reader does, redacted. */
  lemma ReadersAgree(s: Slots, cursor: Option<Cursor>, limit: U32)
    requires Exportable(s) && AllLive(s.records, s.index)
    ensures Read(s, Public, cursor, limit) ==
            match Read(s, Admin, cursor, limit)
            case Ok(page) => Ok(RedactPage(page))
            case Err(e) => Err(e)
  {
    forall offset: U32 | offset <= s.count
      ensures PageAt(s, Public, offset, limit) == RedactPage(PageAt(s, Admin, offset, limit))
    {
      PagesAgree(s, offset, limit);
    }
  }

  lemma PagesAgree(s: Slots, offset: U32, limit: U32)
    requires Exportable(s) && AllLive(s.records, s.index) && offset <= s.count
    ensures PageAt(s, Public, offset, limit) == RedactPage(PageAt(s, Admin, offset, limit))
  {
    hide Flatten, LiveEntries, AllLive, PageRoot;
    if offset < s.count {
      ScanEndOverLive(s.records, s.index, offset, EffectiveLimit(limit));
      assert PageEnd(s, Public, offset, limit) == PageEnd(s, Admin, offset, limit);
    } else {
      assert Redacted([]) == [];
      EmptyPageRoot();
    }
  }

  lemma EmptyPageRoot()
    ensures PageRoot([]) == Zero
  {
    assert LeavesOf([]) == [];
  }

  // ---- coverage ----

  /** Position a page leads on to: its cursor's offset, or the end of the list. */
  function NextOffset(s: Slots, reader: Reader, offset: U32, limit: U32): nat {
    if offset >= s.count then s.count else PageEnd(s, reader, offset, limit)
  }

  /**
    Holes or not, a page of either reader accounts for the positions from its
    offset up to its end: it exports the live ones in order, goes on exactly
    when positions remain, and moves forward unless none did.
   */
  lemma PageCovers(s: Slots, reader: Reader, offset: U32, limit: U32)
    requires Exportable(s) && offset <= s.count
    ensures var end := NextOffset(s, reader, offset, limit);
            var page := PageAt(s, reader, offset, limit);
            && offset <= end <= |s.index|
            && (offset < s.count ==> offset < end)
            && NamesOf(page.records) == LiveNames(s.records, s.index[offset..end])
            && page.nextCursor == (if end < s.count then Some(EncodeCursor(s, end)) else None)
            && page.hasMore == page.nextCursor.Some?
            && page.total == |s.index| && |page.records| <= EffectiveLimit(limit)
            && page.merkleRoot == PageRoot(page.records)
  {
    hide Flatten, LiveEntries, PageRoot, ScanEnd, Canon;
    LiveEntryOfNone(s.records);
    if offset >= s.count {
      assert s.index[offset..s.count] == [];
      EmptyPageRoot();
    } else if reader.Public? {
      assert Paged(s) == s.index;
      ScanTakesWhatItWants(s.records, s.index, offset, EffectiveLimit(limit));
    }
  }

  // ---- compaction ----

  /** Compacting an agreeing registry changes no answer of either reader, so outstanding cursors stay good. */
  lemma CompactionIsInvisible(s: Slots, reader: Reader, cursor: Option<Cursor>, limit: U32)
    requires s.initialized && IndexesAgree(s)
    ensures Read(Compact(s).value, reader, cursor, limit) == Read(s, reader, cursor, limit)
  {
    var s' := Compact(s).value;
    FlattenCompacted(s.chunks, s.chunkCount, s.index);
    assert Paged(s') == Paged(s);
    forall offset: U32
      ensures PageAt(s', reader, offset, limit) == PageAt(s, reader, offset, limit)
    {
      hide Flatten, Compacted, LiveEntries, PageRoot;
    }
  }

  // ---- what the public export reveals ----

  /** Equal but, for an unverified contributor, for the two addresses. */
  predicate SameInPublic(a: Record, b: Record) {
    && a.verified == b.verified && a.registeredAt == b.registeredAt && a.isBot == b.isBot
    && (a.verified ==> a.stellarAddress == b.stellarAddress && a.payoutAddress == b.payoutAddress)
  }

  lemma ViewShowsExactly(a: Record, b: Record)
    ensures PublicRecordView(a) == PublicRecordView(b) <==> SameInPublic(a, b)
    ensures PublicRecordView(a) == a <==> a.verified || (a.stellarAddress == a.payoutAddress == ZERO_ADDRESS)
  {
  }

  ghost predicate PubliclyEqual(s: Slots, t: Slots) {
    && s.initialized == t.initialized && s.generation == t.generation && s.count == t.count
    && Paged(s) == Paged(t)
    && s.records.Keys == t.records.Keys
    && (forall k :: k in s.records ==> SameInPublic(s.records[k], t.records[k]))
  }

  lemma {:induction false} RedactionConceals(a: map<Name, Record>, b: map<Name, Record>, names: seq<Name>)
    requires a.Keys == b.Keys && forall k :: k in a ==> SameInPublic(a[k], b[k])
    ensures Redacted(LiveEntries(a, names)) == Redacted(LiveEntries(b, names))
  {
    if names != [] {
      var front, last := names[..|names| - 1], names[|names| - 1];
      RedactionConceals(a, b, front);
      if Canon(last) in a {
        ViewShowsExactly(a[Canon(last)], b[Canon(last)]);
        RedactedOfAppend(LiveEntries(a, front), (last, a[Canon(last)]));
        RedactedOfAppend(LiveEntries(b, front), (last, b[Canon(last)]));
      }
    }
  }

  lemma RedactedOfAppend(entries: seq<ExportRecord>, e: ExportRecord)
    ensures Redacted(entries + [e]) == Redacted(entries) + [(e.0, PublicRecordView(e.1))]
  {
  }

  lemma {:induction false} ScanSeesOnlyKeys(
      a: map<Name, Record>, b: map<Name, Record>, names: seq<Name>, at: nat, want: nat)
    requires a.Keys == b.Keys && want > 0
    ensures ScanEnd(a, names, at, want) == ScanEnd(b, names, at, want)
    decreases |names| - at
  {
    if at < |names| {
      if Canon(names[at]) !in a {
        ScanSeesOnlyKeys(a, b, names, at + 1, want);
      } else if want > 1 {
        ScanSeesOnlyKeys(a, b, names, at + 1, want - 1);
      }
    }
  }

  /** The public reader's answers, root included, do not depend on an unverified contributor's addresses. */
  lemma PublicExportConceals(s: Slots, t: Slots, cursor: Option<Cursor>, limit: U32)
    requires PubliclyEqual(s, t)
    ensures Read(s, Public, cursor, limit) == Read(t, Public, cursor, limit)
  {
    forall offset: U32
      ensures PageAt(s, Public, offset, limit) == PageAt(t, Public, offset, limit)
    {
      hide Flatten, LiveEntries, ScanEnd, PageRoot;
      ScanSeesOnlyKeys(s.records, t.records, Paged(s), offset, EffectiveLimit(limit));
      RedactionConceals(s.records, t.records, Slice(Paged(s), offset, PageEnd(s, Public, offset, limit)));
    }
  }

  /** No sequence of public reads tells the two states apart. */
  ghost predicate Indistinguishable(s: Slots, t: Slots) {
    forall cursor: Option<Cursor>, limit: U32 :: Read(s, Public, cursor, limit) == Read(t, Public, cursor, limit)
  }

  /** A public page of one record shows that position's name and redacted record. */
  lemma SingleRecordPage(s: Slots, i: U32)
    requires Consistent(s) && i < s.count
    ensures PageAt(s, Public, i, 1).records == [(s.index[i], PublicRecordView(s.records[s.index[i]]))]
  {
    hide Flatten, PageRoot, WellPaged, IsValid, ScanEnd, LiveEntries;
    assert s.index[i] in s.records;
    ConsistentIsExportable(s);
    ScanEndOverLive(s.records, s.index, i, 1);
    assert Slice(s.index, i, i + 1) == [s.index[i]];
    LiveEntryOfOne(s.records, s.index[i]);
  }

  lemma EqualReadsShowEqualRecords(s: Slots, t: Slots, i: U32)
    requires Consistent(s) && Consistent(t) && Indistinguishable(s, t) && i < s.count
    ensures i < t.count && s.index[i] == t.index[i]
    ensures SameInPublic(s.records[s.index[i]], t.records[s.index[i]])
  {
    hide Consistent, EncodeCursor, DecodeCursor, PageAt, PublicRecordView;
    var cursor := EncodeCursor(s, i);
    AcceptedCursorsAreIssued(s, cursor, i);
    AcceptedCursorsAreIssued(t, cursor, i);
    CountedPositions(s, i);
    assert Read(s, Public, Some(cursor), 1) == Read(t, Public, Some(cursor), 1);
    SameOffset(s, t, cursor, i);
    SingleRecordPage(s, i);
    PastEndIsEmpty(t, i);
    SingleRecordPage(t, i);
    CountedPositions(t, i);
    ViewShowsExactly(s.records[s.index[i]], t.records[t.index[i]]);
  }

  lemma CountedPositions(s: Slots, i: U32)
    requires Consistent(s)
    ensures s.initialized && s.count == |s.index|
    ensures i < s.count ==> s.index[i] in s.records
  {
    if i < s.count {
      assert s.index[i] in s.index;
    }
  }

  lemma SameOffset(s: Slots, t: Slots, cursor: Cursor, i: U32)
    requires s.initialized && t.initialized && DecodeCursor(s, cursor) == Ok(i)
    requires Read(s, Public, Some(cursor), 1) == Read(t, Public, Some(cursor), 1)
    ensures s.generation == t.generation && DecodeCursor(t, cursor) == Ok(i)
    ensures PageAt(s, Public, i, 1) == PageAt(t, Public, i, 1)
  {
    hide PageAt;
  }

  lemma PastEndIsEmpty(t: Slots, i: U32)
    ensures PageAt(t, Public, i, 1).records != [] ==> i < t.count
  {
  }

  /**
    Public reads of two consistent registries agree on every cursor and limit
    exactly when the registries list the same names at the same generation and
    their records are the same but for unverified contributors' addresses.
   */
  lemma PublicExportRevealsExactly(s: Slots, t: Slots)
    requires Consistent(s) && Consistent(t)
    ensures Indistinguishable(s, t)
            <==> s.generation == t.generation && s.index == t.index
                 && (forall k :: k in s.records && k in t.records ==> SameInPublic(s.records[k], t.records[k]))
  {
    hide Flatten, WellPaged, IsValid, Read, SameInPublic, VerifiedNames, NoDuplicates;
    if Indistinguishable(s, t) {
      SameGeneration(s, t);
      forall i: U32 | i < s.count
        ensures i < t.count && s.index[i] == t.index[i]
        ensures SameInPublic(s.records[s.index[i]], t.records[s.index[i]])
      {
        EqualReadsShowEqualRecords(s, t, i);
      }
      SameCount(s, t);
    } else if s.generation == t.generation && s.index == t.index
           && (forall k :: k in s.records && k in t.records ==> SameInPublic(s.records[k], t.records[k])) {
      forall cursor: Option<Cursor>, limit: U32
        ensures Read(s, Public, cursor, limit) == Read(t, Public, cursor, limit)
      {
        PublicExportConceals(s, t, cursor, limit);
      }
    }
  }

  lemma SameCount(s: Slots, t: Slots)
    requires s.initialized && t.initialized && Indistinguishable(s, t)
    ensures s.count == t.count
  {
    assert Read(s, Public, None, 1) == Read(t, Public, None, 1);
  }

  lemma SameGeneration(s: Slots, t: Slots)
    requires Consistent(s) && Consistent(t) && Indistinguishable(s, t)
    ensures s.generation == t.generation
  {
    hide EncodeCursor, DecodeCursor, PageAt;
    var cursor := EncodeCursor(s, 0);
    AcceptedCursorsAreIssued(s, cursor, 0);
    assert Read(s, Public, Some(cursor), 1) == Read(t, Public, Some(cursor), 1);
    SameOffset(s, t, cursor, 0);
  }

  // ---- what a page's root commits to ----

  /** Pages of two consistent registries share a root exactly when they export the same names, addresses and flags. */
  lemma PageRootCommits(s: Slots, t: Slots, r: Reader, r': Reader, offset: U32, offset': U32, limit: U32, limit': U32)
    requires Consistent(s) && Consistent(t) && offset <= s.count && offset' <= t.count
    ensures var p, q := PageAt(s, r, offset, limit), PageAt(t, r', offset', limit');
            p.merkleRoot == q.merkleRoot <==> AllAttested(p.records) == AllAttested(q.records)
  {
    ExportedNamesAreValid(s, r, offset, limit);
    ExportedNamesAreValid(t, r', offset', limit');
    EmptyPageRoot();
    PageRootBindsRecords(PageAt(s, r, offset, limit).records, PageAt(t, r', offset', limit').records);
  }

  lemma ExportedNamesAreValid(s: Slots, reader: Reader, offset: U32, limit: U32)
    requires Consistent(s) && offset <= s.count
    ensures NamesAreValid(PageAt(s, reader, offset, limit).records)
    ensures PageAt(s, reader, offset, limit).merkleRoot == PageRoot(PageAt(s, reader, offset, limit).records)
  {
    hide Flatten, LiveEntries, PageRoot, ScanEnd, IsValid, WellPaged;
    var page, end := PageAt(s, reader, offset, limit), NextOffset(s, reader, offset, limit);
    PageCovers(s, reader, offset, limit);
    ConsistentIsExportable(s);
    var window := s.index[offset..end];
    assert AllLive(s.records, window);
    LiveCountIsFullExactly(s.records, window);
    forall i | 0 <= i < |page.records|
      ensures IsValid(page.records[i].0)
    {
      assert NamesOf(page.records)[i] == window[i];
      assert window[i] in s.index;
    }
  }
}
