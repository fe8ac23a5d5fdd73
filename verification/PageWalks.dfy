/**
  Cursor walks through a registry that changes under the reader: the client
  passes each page's cursor to the next read, of either reader and with any
  limit, while registrations, removals, renames, verifications, compactions
  and repairs happen in between.
 */
module PageWalks {
  import opened Cardinality
  import opened ChunkedIndex
  import opened ExportLeaves
  import opened MachineWords
  import opened PageGuarantees
  import opened PageReaders
  import opened RegistryConsistency
  import opened RegistryRuns
  import opened RegistryState
  import opened Usernames

  const GENERATIONS := 0x1_0000_0000

  /** What happens before a read, and how the read is made. */
  datatype Leg = Leg(ops: seq<Op>, reader: Reader, limit: U32)

  function After(s: Slots, legs: seq<Leg>): Slots
    decreases |legs|
  {
    if legs == [] then s else After(Run(s, legs[0].ops), legs[1..])
  }

  /** `pages` are the accepted answers of a walk resumed at `cursor`, each but the last leading on. */
  ghost predicate Walk(s: Slots, cursor: Option<Cursor>, legs: seq<Leg>, pages: seq<ExportPage>)
    decreases |legs|
  {
    && |pages| == |legs| > 0
    && var s' := Run(s, legs[0].ops);
       && Read(s', legs[0].reader, cursor, legs[0].limit) == Ok(pages[0])
       && (|legs| > 1 ==> pages[0].nextCursor.Some? && Walk(s', pages[0].nextCursor, legs[1..], pages[1..]))
  }

  /** `pages` follow a page already read: none, or a walk resumed at that page's cursor. */
  ghost predicate GoesOn(s: Slots, page: ExportPage, legs: seq<Leg>, pages: seq<ExportPage>) {
    if legs == [] then pages == [] else page.nextCursor.Some? && Walk(s, page.nextCursor, legs, pages)
  }

  ghost predicate Finished(pages: seq<ExportPage>) {
    pages != [] && pages[|pages| - 1].nextCursor == None
  }

  /** Fewer than 2^32 names leave the index between a cursor's issue and its use. */
  ghost predicate PromptlyResumed(s: Slots, legs: seq<Leg>)
    decreases |legs|
  {
    legs == [] || (ShiftsIn(s, legs[0].ops) < GENERATIONS && PromptlyResumed(Run(s, legs[0].ops), legs[1..]))
  }

  /** Nothing left the index before any of these reads, and each found the last index extended. */
  ghost predicate Undisturbed(s: Slots, legs: seq<Leg>)
    decreases |legs|
  {
    legs == [] ||
    var s' := Run(s, legs[0].ops);
    ShiftsIn(s, legs[0].ops) == 0 && s.index <= s'.index && Undisturbed(s', legs[1..])
  }

  function ExportedNames(pages: seq<ExportPage>): seq<Name> {
    if pages == [] then [] else NamesOf(pages[0].records) + ExportedNames(pages[1..])
  }

  // ---- when a cursor is accepted ----

  /**
    After any run a cursor is accepted exactly when the removals wrapped the
    generation back and its offset still fits.
   */
  lemma {:induction false} CursorAcceptedExactly(s: Slots, offset: U32, ops: seq<Op>)
    ensures DecodeCursor(Run(s, ops), EncodeCursor(s, offset)).Ok?
            <==> ShiftsIn(s, ops) % GENERATIONS == 0 && offset <= Run(s, ops).count
    ensures DecodeCursor(Run(s, ops), EncodeCursor(s, offset)).Ok? ==>
              DecodeCursor(Run(s, ops), EncodeCursor(s, offset)) == Ok(offset)
  {
    hide Run, ShiftsIn;
    var cursor, s' := EncodeCursor(s, offset), Run(s, ops);
    RunShiftsOrExtends(s, ops);
    assert cursor[0..4] == ToBigEndian(offset) && cursor[4..8] == ToBigEndian(s.generation);
    ModuloFixedPoint(s.generation, ShiftsIn(s, ops));
  }

  lemma ModuloFixedPoint(g: U32, n: nat)
    ensures (g + n) % GENERATIONS == g <==> n % GENERATIONS == 0
  {
  }

  /** Short of a full wrap, a cursor from a consistent registry survives a run exactly when nothing left the index. */
  lemma {:induction false} CursorSurvivesExactly(s: Slots, offset: U32, ops: seq<Op>)
    requires Consistent(s) && offset <= s.count && ShiftsIn(s, ops) < GENERATIONS
    ensures DecodeCursor(Run(s, ops), EncodeCursor(s, offset)).Ok? <==> ShiftsIn(s, ops) == 0
    ensures ShiftsIn(s, ops) == 0 ==> Consistent(Run(s, ops)) && s.index <= Run(s, ops).index
  {
    hide Run, ShiftsIn, SoundRun, EncodeCursor, DecodeCursor;
    CursorAcceptedExactly(s, offset, ops);
    RunShiftsOrExtends(s, ops);
    if ShiftsIn(s, ops) == 0 {
      UnshiftedIsSound(s, ops);
      RunKeepsConsistent(s, ops);
    }
  }

  // ---- what a walk exports ----

  /** On a consistent registry one page lists a stretch of the index and leads to the next position. */
  lemma PageListsStretch(s: Slots, reader: Reader, offset: U32, limit: U32)
    requires Consistent(s) && offset <= s.count
    ensures var end := NextOffset(s, reader, offset, limit);
            var page := PageAt(s, reader, offset, limit);
            && offset <= end <= |s.index|
            && (offset < s.count ==> offset < end)
            && NamesOf(page.records) == s.index[offset..end]
            && page.nextCursor == (if end < s.count then Some(EncodeCursor(s, end)) else None)
  {
    hide PageAt, NextOffset, Flatten, LiveEntries, WellPaged, IsValid;
    ConsistentIsExportable(s);
    PageCovers(s, reader, offset, limit);
    var window := s.index[offset..NextOffset(s, reader, offset, limit)];
    assert AllLive(s.records, window);
    LiveCountIsFullExactly(s.records, window);
  }

  /** A resumed read that is accepted starts where its cursor says. */
  lemma {:induction false} ResumedRead(
      s: Slots, offset: U32, ops: seq<Op>, reader: Reader, limit: U32, page: ExportPage)
    requires Consistent(s) && offset <= s.count && ShiftsIn(s, ops) < GENERATIONS
    requires Read(Run(s, ops), reader, Some(EncodeCursor(s, offset)), limit) == Ok(page)
    ensures var s' := Run(s, ops);
            && ShiftsIn(s, ops) == 0 && s.index <= s'.index && Consistent(s')
            && offset <= s'.count && page == PageAt(s', reader, offset, limit)
  {
    hide Run, ShiftsIn, EncodeCursor, DecodeCursor, PageAt, Flatten, WellPaged, IsValid;
    CursorSurvivesExactly(s, offset, ops);
    CursorAcceptedExactly(s, offset, ops);
  }

  /**
    From a page at `offset` on, an accepted walk saw no removal, and what it
    exports is the last index from that offset up to where its last page ends.
   */
  lemma {:induction false} WalkListsIndex(
      s: Slots, offset: U32, reader: Reader, limit: U32, page: ExportPage, legs: seq<Leg>, pages: seq<ExportPage>)
    requires Consistent(s) && offset <= s.count && page == PageAt(s, reader, offset, limit)
    requires PromptlyResumed(s, legs)
    requires GoesOn(s, page, legs, pages)
    ensures Undisturbed(s, legs) && Consistent(After(s, legs)) && s.index <= After(s, legs).index
    ensures var names := NamesOf(page.records) + ExportedNames(pages);
            var index := After(s, legs).index;
            && offset + |names| <= |index|
            && names == index[offset..offset + |names|]
            && (Finished([page] + pages) <==> offset + |names| == |index|)
    decreases |legs|
  {
    hide Consistent, Run, ShiftsIn, Read, EncodeCursor, DecodeCursor, PageAt, NextOffset, NamesOf;
    var next := NextOffset(s, reader, offset, limit);
    PageListsStretch(s, reader, offset, limit);
    CountIsLength(s);
    if legs != [] {
      var s', first := Run(s, legs[0].ops), legs[0];
      ResumedRead(s, next, first.ops, first.reader, first.limit, pages[0]);
      WalkListsIndex(s', next, first.reader, first.limit, pages[0], legs[1..], pages[1..]);
      assert [pages[0]] + pages[1..] == pages;
      StretchesJoin(s.index, After(s, legs).index, offset, next, ExportedNames(pages));
    }
  }

  lemma CountIsLength(s: Slots)
    requires Consistent(s)
    ensures s.count == |s.index|
  {
  }

  lemma StretchesJoin(early: seq<Name>, late: seq<Name>, from: nat, mid: nat, rest: seq<Name>)
    requires early <= late && from <= mid <= |early| && mid + |rest| <= |late|
    requires rest == late[mid..mid + |rest|]
    ensures early[from..mid] + rest == late[from..mid + |rest|]
  {
  }

  /**
    A walk whose first page is read from a consistent registry, under any
    interleaving of calls from there on: once its cursors were all accepted, no
    name left the index between its pages, so nothing was removed or renamed,
    the registry is consistent at the last read, and the walk exported the index
    of that read from the front, each name once and in order. It is the whole
    index exactly when no cursor is left.
   */
  lemma {:induction false} WalkExportsIndex(s: Slots, legs: seq<Leg>, pages: seq<ExportPage>)
    requires Walk(s, None, legs, pages) && Consistent(Run(s, legs[0].ops))
    requires PromptlyResumed(Run(s, legs[0].ops), legs[1..])
    ensures Undisturbed(Run(s, legs[0].ops), legs[1..]) && Consistent(After(s, legs))
    ensures var names, index := ExportedNames(pages), After(s, legs).index;
            && names <= index && NoDuplicates(names)
            && (Finished(pages) <==> names == index)
  {
    hide Consistent, Run, ShiftsIn, EncodeCursor, DecodeCursor, PageAt, NamesOf;
    var first, rest := Run(s, legs[0].ops), pages[1..];
    WalkListsIndex(first, 0, legs[0].reader, legs[0].limit, pages[0], legs[1..], rest);
    assert [pages[0]] + rest == pages;
    IndexIsDistinct(After(s, legs));
  }

  lemma IndexIsDistinct(s: Slots)
    requires Consistent(s)
    ensures NoDuplicates(s.index)
  {
  }

  // ---- walks over a still registry with holes ----

  ghost predicate Still(legs: seq<Leg>) {
    forall i :: 0 <= i < |legs| ==> legs[i].ops == []
  }

  /**
    With nothing changing but records missing for some listed names, any mix
    of the two readers' pages to the end exports every live name past the
    offset once, in order, within as many pages as there are positions.
   */
  lemma {:induction false} StillWalkExportsLive(
      s: Slots, offset: U32, reader: Reader, limit: U32, page: ExportPage, legs: seq<Leg>, pages: seq<ExportPage>)
    requires Exportable(s) && offset <= s.count && page == PageAt(s, reader, offset, limit)
    requires Still(legs)
    requires GoesOn(s, page, legs, pages)
    ensures |pages| <= |s.index| - offset
    ensures Finished([page] + pages) ==>
              NamesOf(page.records) + ExportedNames(pages) == LiveNames(s.records, s.index[offset..])
    decreases |legs|
  {
    hide Flatten, WellPaged, Read, EncodeCursor, DecodeCursor, PageAt, NextOffset, NamesOf, LiveEntries;
    var next := NextOffset(s, reader, offset, limit);
    PageCovers(s, reader, offset, limit);
    if legs == [] {
      assert next == |s.index| ==> s.index[offset..next] == s.index[offset..];
    } else {
      var first := legs[0];
      ReadAtOwnCursor(s, next, first.reader, first.limit);
      StillWalkExportsLive(s, next, first.reader, first.limit, pages[0], legs[1..], pages[1..]);
      assert [pages[0]] + pages[1..] == pages;
      assert s.index[offset..] == s.index[offset..next] + s.index[next..];
      LiveEntriesConcat(s.records, s.index[offset..next], s.index[next..]);
      NamesOfConcat(LiveEntries(s.records, s.index[offset..next]), LiveEntries(s.records, s.index[next..]));
    }
  }

  lemma ReadAtOwnCursor(s: Slots, offset: U32, reader: Reader, limit: U32)
    requires s.initialized && offset <= s.count
    ensures Read(s, reader, Some(EncodeCursor(s, offset)), limit) == Ok(PageAt(s, reader, offset, limit))
  {
    AcceptedCursorsAreIssued(s, EncodeCursor(s, offset), offset);
  }

  lemma NamesOfConcat(a: seq<ExportRecord>, b: seq<ExportRecord>)
    ensures NamesOf(a + b) == NamesOf(a) + NamesOf(b)
  {
  }
}
