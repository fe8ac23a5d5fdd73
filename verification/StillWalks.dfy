/**
  Walks of one reader over a registry that does not change, whatever its
  counter says: when they end, and when they miss nothing. A repair sets the
  counter to the number of live names, so an index with holes is then longer
  than its count.
 */
module StillWalks {
  import opened ChunkedIndex
  import opened ExportLeaves
  import opened MachineWords
  import opened PageReaders
  import opened PageWalks
  import opened RegistryState
  import opened Usernames

  /** Nothing happens before any read, and every read is made by the one reader. */
  ghost predicate StillLegs(reader: Reader, legs: seq<Leg>) {
    forall i :: 0 <= i < |legs| ==> legs[i].ops == [] && legs[i].reader == reader
  }

  ghost predicate StillWalk(s: Slots, reader: Reader, legs: seq<Leg>, pages: seq<ExportPage>) {
    StillLegs(reader, legs) && Walk(s, None, legs, pages)
  }

  /** The list a reader walks through. */
  function Listed(s: Slots, reader: Reader): seq<Name> {
    match reader
    case Admin => s.index
    case Public => Paged(s)
  }

  function Tail(names: seq<Name>, from: nat): seq<Name> {
    Slice(names, from, |names|)
  }

  /** The pages after a page, of a walk by the same reader. */
  ghost predicate GoesOnStill(s: Slots, reader: Reader, page: ExportPage, legs: seq<Leg>, pages: seq<ExportPage>) {
    StillLegs(reader, legs) && GoesOn(s, page, legs, pages)
  }

  // ---- one page, whatever the count ----

  lemma NamesOfRedacted(entries: seq<ExportRecord>)
    ensures NamesOf(Redacted(entries)) == NamesOf(entries)
  {
  }

  /** A page that is not past the count exports the live names of its stretch. */
  lemma PageExports(s: Slots, reader: Reader, offset: U32, limit: U32)
    requires offset < s.count && offset <= |Listed(s, reader)|
    ensures var names, end := Listed(s, reader), PageEnd(s, reader, offset, limit);
            var page := PageAt(s, reader, offset, limit);
            && offset <= end <= |names| && (offset < |names| ==> offset < end)
            && NamesOf(page.records) == LiveNames(s.records, names[offset..end])
            && |page.records| <= EffectiveLimit(limit)
            && (reader.Public? && offset < end < |names| ==> Canon(names[end - 1]) in s.records)
            && page.nextCursor == (if MoreAfter(s, reader, end) then Some(EncodeCursor(s, end)) else None)
  {
    hide Flatten, LiveEntries, PageRoot, ScanEnd, EncodeCursor;
    if reader.Public? {
      ScanTakesWhatItWants(s.records, Paged(s), offset, EffectiveLimit(limit));
      NamesOfRedacted(LiveEntries(s.records, Paged(s)[offset..PageEnd(s, reader, offset, limit)]));
    }
  }

  /** The next read of a walk starts where the cursor says, and only within the count. */
  lemma {:induction false} NextRead(s: Slots, reader: Reader, offset: U32, legs: seq<Leg>, pages: seq<ExportPage>)
    requires s.initialized && legs != [] && StillLegs(reader, legs)
    requires Walk(s, Some(EncodeCursor(s, offset)), legs, pages)
    ensures |pages| == |legs| && offset <= s.count && pages[0] == PageAt(s, reader, offset, legs[0].limit)
    ensures GoesOnStill(s, reader, pages[0], legs[1..], pages[1..])
  {
    hide PageAt, EncodeCursor, DecodeCursor;
    AcceptedCursorsAreIssued(s, EncodeCursor(s, offset), offset);
    if DecodeCursor(s, EncodeCursor(s, offset)).Ok? {
      AcceptedCursorsAreIssued(s, EncodeCursor(s, offset), DecodeCursor(s, EncodeCursor(s, offset)).value);
      SameCursorSameOffset(s, offset, DecodeCursor(s, EncodeCursor(s, offset)).value);
    }
  }

  lemma SameCursorSameOffset(s: Slots, a: U32, b: U32)
    requires EncodeCursor(s, a) == EncodeCursor(s, b)
    ensures a == b
  {
    assert EncodeCursor(s, a)[0..4] == ToBigEndian(a) && EncodeCursor(s, b)[0..4] == ToBigEndian(b);
  }

  // ---- how far a walk gets ----

  /** A walk from an offset exports the live names up to some end, and finishes only past what its reader counts. */
  lemma WalkReaches(
      s: Slots, reader: Reader, offset: U32, limit: U32, page: ExportPage, legs: seq<Leg>, pages: seq<ExportPage>)
      returns (end: nat)
    requires s.initialized && offset <= s.count && offset <= |Listed(s, reader)|
    requires reader.Public? ==> offset < s.count || s.count == 0
    requires page == PageAt(s, reader, offset, limit) && GoesOnStill(s, reader, page, legs, pages)
    ensures var names := Listed(s, reader);
            && offset <= end <= |names|
            && NamesOf(page.records) + ExportedNames(pages) == LiveNames(s.records, names[offset..end])
            && (Finished([page] + pages) && end < |names| ==>
                  match reader
                  case Admin => end == s.count
                  case Public => end >= s.count && (s.count > 0 ==> 0 < end && Canon(names[end - 1]) in s.records))
            && (Finished([page] + pages) && reader.Public? ==> end >= s.count)
    decreases |legs|
  {
    hide PageAt, PageEnd, EncodeCursor, DecodeCursor, Walk, StillLegs, LiveEntries, NamesOf, LiveNames;
    var names := Listed(s, reader);
    NoLiveNames(s);
    if offset == s.count {
      PastCount(s, reader, offset, limit);
      end := offset;
      assert names[offset..end] == [];
    } else {
      PageExports(s, reader, offset, limit);
      var next := PageEnd(s, reader, offset, limit);
      if legs == [] {
        end := next;
      } else {
        NextRead(s, reader, next, legs, pages);
        end := WalkReaches(s, reader, next, legs[0].limit, pages[0], legs[1..], pages[1..]);
        assert [pages[0]] + pages[1..] == pages;
        LiveNamesJoin(s, names, offset, next, end);
      }
    }
  }

  lemma NoLiveNames(s: Slots)
    ensures LiveNames(s.records, []) == []
  {
  }

  lemma PastCount(s: Slots, reader: Reader, offset: U32, limit: U32)
    requires offset >= s.count
    ensures var page := PageAt(s, reader, offset, limit); NamesOf(page.records) == [] && page.nextCursor == None
  {
  }

  lemma LiveNamesJoin(s: Slots, names: seq<Name>, from: nat, mid: nat, to: nat)
    requires from <= mid <= to <= |names|
    ensures LiveNames(s.records, names[from..mid]) + LiveNames(s.records, names[mid..to])
            == LiveNames(s.records, names[from..to])
  {
    hide LiveEntries, NamesOf;
    assert names[from..to] == names[from..mid] + names[mid..to];
    LiveEntriesConcat(s.records, names[from..mid], names[mid..to]);
    NamesOfConcat(LiveEntries(s.records, names[from..mid]), LiveEntries(s.records, names[mid..to]));
  }

  // ---- when a finished walk misses nothing ----

  /** Where a reader may already stop: the slicing one at the count, the scanning one once it has passed it. */
  function MayStopFrom(s: Slots, reader: Reader): nat {
    match reader
    case Admin => s.count
    case Public => SaturatingSub(s.count, 1)
  }

  /** Live names from there on that a reader still exports for certain. */
  function Grace(s: Slots, reader: Reader): nat {
    match reader
    case Admin => 0
    case Public => Min(s.count, 1)
  }

  function LateNames(s: Slots, reader: Reader): seq<Name> {
    LiveNames(s.records, Tail(Listed(s, reader), MayStopFrom(s, reader)))
  }

  ghost predicate MissesNothing(s: Slots, reader: Reader) {
    forall legs: seq<Leg>, pages: seq<ExportPage> ::
      StillWalk(s, reader, legs, pages) && Finished(pages) ==>
        ExportedNames(pages) == LiveNames(s.records, Listed(s, reader))
  }

  /**
    Whatever the count: every walk of a reader that comes to an end has exported
    every live name, once and in order, exactly when no live name is listed at
    or past the count (for the slicing reader), or at most one is listed from
    the last counted position on (for the scanning reader).
   */
  lemma MissesNothingExactly(s: Slots, reader: Reader)
    requires s.initialized
    ensures MissesNothing(s, reader) <==> |LateNames(s, reader)| <= Grace(s, reader)
  {
    hide Walk, PageAt, LiveNames, Listed, Finished, StillLegs, ExportedNames;
    if |LateNames(s, reader)| <= Grace(s, reader) {
      forall legs: seq<Leg>, pages: seq<ExportPage> | StillWalk(s, reader, legs, pages) && Finished(pages)
        ensures ExportedNames(pages) == LiveNames(s.records, Listed(s, reader))
      {
        FinishedWalkIsComplete(s, reader, legs, pages);
      }
    } else {
      var legs, pages := ShortestWalk(s, reader);
      assert StillWalk(s, reader, legs, pages) && Finished(pages);
    }
  }

  /** A walk from the front is a first page and what goes on from it. */
  lemma {:induction false} WalkFromFront(s: Slots, reader: Reader, legs: seq<Leg>, pages: seq<ExportPage>)
    requires s.initialized && |legs| == |pages| > 0 && legs[0] == Leg([], reader, legs[0].limit)
    ensures StillWalk(s, reader, legs, pages) <==>
            pages[0] == PageAt(s, reader, 0, legs[0].limit) && GoesOnStill(s, reader, pages[0], legs[1..], pages[1..])
    ensures ExportedNames(pages) == NamesOf(pages[0].records) + ExportedNames(pages[1..])
    ensures [pages[0]] + pages[1..] == pages
  {
    hide PageAt, NamesOf;
    if StillLegs(reader, legs[1..]) {
      assert forall i :: 1 <= i < |legs| ==> legs[i] == legs[1..][i - 1];
    }
  }

  lemma {:induction false} FinishedWalkIsComplete(s: Slots, reader: Reader, legs: seq<Leg>, pages: seq<ExportPage>)
    requires s.initialized && |LateNames(s, reader)| <= Grace(s, reader)
    requires StillWalk(s, reader, legs, pages) && Finished(pages)
    ensures ExportedNames(pages) == LiveNames(s.records, Listed(s, reader))
  {
    hide Walk, PageAt, LiveNames, Listed;
    WalkStarts(s, reader, legs, pages);
    WalkFromFront(s, reader, legs, pages);
    var names := Listed(s, reader);
    var end := WalkReaches(s, reader, 0, legs[0].limit, pages[0], legs[1..], pages[1..]);
    LiveNamesJoin(s, names, 0, end, |names|);
    NothingLiveAfter(s, reader, end);
    assert names[0..|names|] == names;
  }

  lemma WalkStarts(s: Slots, reader: Reader, legs: seq<Leg>, pages: seq<ExportPage>)
    requires StillWalk(s, reader, legs, pages)
    ensures |legs| == |pages| > 0 && legs[0] == Leg([], reader, legs[0].limit)
  {
  }

  /** Past the place where a reader stops, no live name is left when few enough are late. */
  lemma NothingLiveAfter(s: Slots, reader: Reader, end: nat)
    requires |LateNames(s, reader)| <= Grace(s, reader) && end <= |Listed(s, reader)|
    requires end < |Listed(s, reader)| ==>
               match reader
               case Admin => end == s.count
               case Public =>
                 end >= s.count && (s.count > 0 ==> 0 < end && Canon(Listed(s, reader)[end - 1]) in s.records)
    ensures LiveNames(s.records, Listed(s, reader)[end..]) == []
  {
    hide LiveEntries, Canon;
    var names, from := Listed(s, reader), MayStopFrom(s, reader);
    NoLiveNames(s);
    if end < |names| {
      LiveNamesJoin(s, names, from, end, |names|);
      assert names[end..] == names[end..|names|] && Tail(names, from) == names[from..|names|];
      if reader.Public? && s.count > 0 {
        LiveNamesJoin(s, names, from, end - 1, end);
        assert names[end - 1..end] == [names[end - 1]];
        LiveEntryOfOne(s.records, names[end - 1]);
      }
    }
  }

  /** Walking one record at a time stops as soon as it may: it leaves out all late names but those it is graced. */
  lemma ShortestWalk(s: Slots, reader: Reader) returns (legs: seq<Leg>, pages: seq<ExportPage>)
    requires s.initialized && |LateNames(s, reader)| > Grace(s, reader)
    ensures StillWalk(s, reader, legs, pages) && Finished(pages)
    ensures ExportedNames(pages) != LiveNames(s.records, Listed(s, reader))
  {
    hide Walk, PageAt, LiveNames, Listed;
    LateNamesArePastCount(s, reader);
    var names := Listed(s, reader);
    var page := PageAt(s, reader, 0, 1);
    var restLegs, restPages := SingleSteps(s, reader, 0, page);
    legs, pages := [Leg([], reader, 1)] + restLegs, [page] + restPages;
    WalkFromFront(s, reader, legs, pages);
    assert names[0..] == names;
  }

  lemma LateNamesArePastCount(s: Slots, reader: Reader)
    requires |LateNames(s, reader)| > Grace(s, reader)
    ensures s.count < |Listed(s, reader)|
  {
    var names, from := Listed(s, reader), MayStopFrom(s, reader);
    NoLiveNames(s);
    assert |Tail(names, from)| >= |LateNames(s, reader)|;
  }

  lemma SingleSteps(s: Slots, reader: Reader, offset: U32, page: ExportPage)
      returns (legs: seq<Leg>, pages: seq<ExportPage>)
    requires s.initialized && offset <= s.count < |Listed(s, reader)| && page == PageAt(s, reader, offset, 1)
    requires reader.Public? ==> offset < s.count || s.count == 0
    ensures |legs| == |pages| && GoesOnStill(s, reader, page, legs, pages) && Finished([page] + pages)
    ensures |NamesOf(page.records)| + |ExportedNames(pages)| + |LateNames(s, reader)|
            <= |LiveNames(s.records, Listed(s, reader)[offset..])| + Grace(s, reader)
    decreases |Listed(s, reader)| - offset
  {
    hide PageAt, PageEnd, EncodeCursor, DecodeCursor, Walk, LiveEntries, NamesOf, LiveNames, Listed;
    var names, from := Listed(s, reader), MayStopFrom(s, reader);
    legs, pages := [], [];
    LiveNamesJoin(s, names, offset, from, |names|);
    assert names[offset..] == names[offset..|names|] && Tail(names, from) == names[from..|names|];
    if offset == s.count {
      PastCount(s, reader, offset, 1);
    } else {
      PageExports(s, reader, offset, 1);
      SliceOfOne(s, offset);
      var next := PageEnd(s, reader, offset, 1);
      if page.nextCursor.Some? {
        var page' := PageAt(s, reader, next, 1);
        ReadAtOwnCursor(s, next, reader, 1);
        var legs', pages' := SingleSteps(s, reader, next, page');
        legs, pages := [Leg([], reader, 1)] + legs', [page'] + pages';
        ResumedOneOn(s, reader, next, legs', page', pages');
        LiveNamesJoin(s, names, offset, next, |names|);
        assert names[next..] == names[next..|names|];
      }
    }
  }

  lemma SliceOfOne(s: Slots, offset: U32)
    ensures offset < |s.index| ==> PageEnd(s, Admin, offset, 1) == offset + 1
    ensures EffectiveLimit(1) == 1 && Listed(s, Admin) == s.index
  {
  }

  lemma {:induction false} ResumedOneOn(
      s: Slots, reader: Reader, offset: U32, legs: seq<Leg>, page: ExportPage, pages: seq<ExportPage>)
    requires Read(s, reader, Some(EncodeCursor(s, offset)), 1) == Ok(page)
    requires |legs| == |pages| && GoesOnStill(s, reader, page, legs, pages)
    ensures Walk(s, Some(EncodeCursor(s, offset)), [Leg([], reader, 1)] + legs, [page] + pages)
    ensures StillLegs(reader, [Leg([], reader, 1)] + legs)
    ensures ExportedNames([page] + pages) == NamesOf(page.records) + ExportedNames(pages)
  {
    hide Read, NamesOf;
    var legs', pages' := [Leg([], reader, 1)] + legs, [page] + pages;
    assert legs'[1..] == legs && pages'[1..] == pages;
  }

  // ---- after a repair ----

  /** Names at the front of a list are as many as the live ones exactly when none of them is a hole. */
  lemma {:induction false} FrontIsLiveExactly(records: map<Name, Record>, names: seq<Name>, n: nat)
    requires n <= |LiveEntries(records, names)|
    ensures |LiveEntries(records, names[n..])| <= |LiveEntries(records, names)| - n <==> AllLive(records, names[..n])
  {
    hide LiveEntries, AllLive;
    assert names[..n] + names[n..] == names;
    LiveEntriesConcat(records, names[..n], names[n..]);
    LiveCountIsFullExactly(records, names[..n]);
  }

  /**
    After an applied repair of an index with holes, exports are complete exactly
    when no hole comes before the next-to-last live name (for the scanning
    reader), or before the last live name (for the slicing reader).
   */
  lemma RepairedExportsExactly(s: Slots)
    requires s.initialized && Paged(s) == s.index
    ensures var live, repaired := |LiveEntries(s.records, s.index)|, Repair(s, true).value;
            && (MissesNothing(repaired, Public) <==> AllLive(s.records, s.index[..SaturatingSub(live, 1)]))
            && (MissesNothing(repaired, Admin) <==> AllLive(s.records, s.index[..live]))
  {
    hide LiveEntries, AllLive, MissesNothing, VerifiedListed, Flatten;
    var live, repaired := |LiveEntries(s.records, s.index)|, Recounted(s);
    MissesNothingExactly(repaired, Public);
    MissesNothingExactly(repaired, Admin);
    FrontIsLiveExactly(s.records, s.index, SaturatingSub(live, 1));
    FrontIsLiveExactly(s.records, s.index, live);
    RepairedLateNames(s, Public);
    RepairedLateNames(s, Admin);
  }

  lemma RepairedLateNames(s: Slots, reader: Reader)
    requires s.initialized && Paged(s) == s.index
    ensures var live, repaired := |LiveEntries(s.records, s.index)|, Recounted(s);
            && Repair(s, true) == Ok(repaired) && repaired.initialized
            && MayStopFrom(repaired, reader) == live - Grace(repaired, reader)
            && |LateNames(repaired, reader)| == |LiveEntries(s.records, s.index[live - Grace(repaired, reader)..])|
  {
    hide LiveEntries, VerifiedListed, Flatten;
    var from := MayStopFrom(Recounted(s), reader);
    assert Listed(Recounted(s), reader) == s.index;
    assert Slice(s.index, from, |s.index|) == s.index[from..];
  }

  // ---- when walks end ----

  /**
    No walk of public pages goes on for more pages than are counted exactly
    when the count does not exceed the listed names; past that, pages keep
    handing out cursors, and walks of any length exist.
   */
  lemma PublicWalkEndsExactly(s: Slots)
    requires s.initialized && s.count > 0
    ensures (forall legs: seq<Leg>, pages: seq<ExportPage> :: StillWalk(s, Public, legs, pages) ==> |pages| <= s.count)
            <==> s.count <= |Paged(s)|
  {
    hide Walk, PageAt, StillLegs, Flatten;
    if s.count <= |Paged(s)| {
      forall legs: seq<Leg>, pages: seq<ExportPage> | StillWalk(s, Public, legs, pages)
        ensures |pages| <= s.count
      {
        WalkStarts(s, Public, legs, pages);
        WalkFromFront(s, Public, legs, pages);
        WalkIsBounded(s, 0, legs[0].limit, pages[0], legs[1..], pages[1..]);
      }
    } else {
      var page := PageAt(s, Public, 0, 1);
      var restLegs, restPages := EndlessSteps(s, 0, page, s.count);
      var legs, pages := [Leg([], Public, 1)] + restLegs, [page] + restPages;
      WalkFromFront(s, Public, legs, pages);
      assert StillWalk(s, Public, legs, pages) && |pages| > s.count;
    }
  }

  lemma WalkIsBounded(
      s: Slots, offset: U32, limit: U32, page: ExportPage, legs: seq<Leg>, pages: seq<ExportPage>)
    requires s.initialized && offset < s.count <= |Paged(s)|
    requires page == PageAt(s, Public, offset, limit) && GoesOnStill(s, Public, page, legs, pages)
    ensures 1 + |pages| <= s.count - offset
    decreases |legs|
  {
    hide PageAt, PageEnd, EncodeCursor, DecodeCursor, Walk, StillLegs, LiveEntries, NamesOf, LiveNames;
    PageExports(s, Public, offset, limit);
    var next := PageEnd(s, Public, offset, limit);
    if legs != [] {
      NextRead(s, Public, next, legs, pages);
      WalkIsBounded(s, next, legs[0].limit, pages[0], legs[1..], pages[1..]);
    }
  }

  /** With more counted than listed, a walk goes on for as many pages as one likes. */
  lemma EndlessSteps(s: Slots, offset: U32, page: ExportPage, n: nat)
      returns (legs: seq<Leg>, pages: seq<ExportPage>)
    requires s.initialized && offset <= |Paged(s)| < s.count && page == PageAt(s, Public, offset, 1)
    ensures |legs| == |pages| == n && GoesOnStill(s, Public, page, legs, pages)
    decreases n
  {
    hide PageAt, PageEnd, EncodeCursor, DecodeCursor, Walk, LiveEntries, NamesOf, LiveNames;
    legs, pages := [], [];
    if n > 0 {
      PageExports(s, Public, offset, 1);
      var next := PageEnd(s, Public, offset, 1);
      var page' := PageAt(s, Public, next, 1);
      ReadAtOwnCursor(s, next, Public, 1);
      var legs', pages' := EndlessSteps(s, next, page', n - 1);
      legs, pages := [Leg([], Public, 1)] + legs', [page'] + pages';
      ResumedOneOn(s, Public, next, legs', page', pages');
    }
  }
}
