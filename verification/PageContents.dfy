/** What a page carries, in any state: whose records, at which positions, with which total and root. */
module PageContents {
  import opened ChunkedIndex
  import opened ExportLeaves
  import opened MachineWords
  import opened PageGuarantees
  import opened PageReaders
  import opened RegistryConsistency
  import opened RegistryState
  import opened Usernames

  // ---- the cursor's bytes ----

  /** The offset in the first four bytes, the generation in the last four, both most significant byte first. */
  lemma CursorLayout(s: Slots, offset: U32)
    ensures var c := EncodeCursor(s, offset);
            var c0: int, c1: int, c2: int, c3: int := c[0], c[1], c[2], c[3];
            var c4: int, c5: int, c6: int, c7: int := c[4], c[5], c[6], c[7];
            && offset == 0x100_0000 * c0 + 0x1_0000 * c1 + 0x100 * c2 + c3
            && s.generation == 0x100_0000 * c4 + 0x1_0000 * c5 + 0x100 * c6 + c7
  {
    var c := EncodeCursor(s, offset);
    assert c[..4] == ToBigEndian(offset) && c[4..] == ToBigEndian(s.generation);
  }

  /**
    A read is refused before initialization and for a cursor the state would not
    issue now, and otherwise starts where the cursor says.
   */
  lemma ReadAdmission(s: Slots, reader: Reader, cursor: Option<Cursor>, limit: U32)
    ensures var r := Read(s, reader, cursor, limit);
            && (r == Err(NotInitialized) <==> !s.initialized)
            && (r.Ok? || r == Err(NotInitialized) || r == Err(InvalidCursor))
            && (s.initialized && cursor.None? ==> r == Ok(PageAt(s, reader, 0, limit)))
    ensures forall offset: U32 :: s.initialized && cursor == Some(EncodeCursor(s, offset)) && offset <= s.count ==>
              Read(s, reader, cursor, limit) == Ok(PageAt(s, reader, offset, limit))
    ensures s.initialized && cursor.Some? && Read(s, reader, cursor, limit).Ok? ==>
              exists offset: U32 :: offset <= s.count && cursor.value == EncodeCursor(s, offset)
  {
    hide PageAt, EncodeCursor;
    forall offset: U32 | cursor == Some(EncodeCursor(s, offset)) && offset <= s.count
      ensures DecodeCursor(s, cursor.value) == Ok(offset)
    {
      AcceptedCursorsAreIssued(s, cursor.value, offset);
    }
    if cursor.Some? && DecodeCursor(s, cursor.value).Ok? {
      AcceptedCursorsAreIssued(s, cursor.value, DecodeCursor(s, cursor.value).value);
    }
  }

  // ---- which entries of a list are exported ----

  function LivePositions(records: map<Name, Record>, names: seq<Name>): set<int> {
    set p | 0 <= p < |names| && Canon(names[p]) in records
  }

  lemma LivePositionsOfAppend(records: map<Name, Record>, names: seq<Name>, last: Name)
    ensures |LivePositions(records, names + [last])|
            == |LivePositions(records, names)| + (if Canon(last) in records then 1 else 0)
  {
    hide Canon;
    var before, all := LivePositions(records, names), names + [last];
    assert forall p :: 0 <= p < |names| ==> all[p] == names[p];
    if Canon(last) in records {
      assert LivePositions(records, all) == before + {|names|};
    } else {
      assert LivePositions(records, all) == before;
    }
  }

  /** As many entries as there are positions with a record. */
  lemma {:induction false} LiveCountIsPositions(records: map<Name, Record>, names: seq<Name>)
    ensures |LiveEntries(records, names)| == |LivePositions(records, names)|
  {
    hide Canon, LivePositions;
    if names == [] {
      assert LivePositions(records, []) == {} by {
        NoPositions(records);
      }
    } else {
      var front, last := names[..|names| - 1], names[|names| - 1];
      assert front + [last] == names;
      LiveCountIsPositions(records, front);
      LivePositionsOfAppend(records, front, last);
    }
  }

  lemma NoPositions(records: map<Name, Record>)
    ensures LivePositions(records, []) == {}
  {
  }

  /** A position with a record has its entry after those of the live positions before it: its name, its record. */
  lemma {:induction false} LiveEntryAt(records: map<Name, Record>, names: seq<Name>, p: nat)
    requires p < |names| && Canon(names[p]) in records
    ensures var k := |LivePositions(records, names[..p])|;
            && k < |LiveEntries(records, names)|
            && LiveEntries(records, names)[k] == (names[p], records[Canon(names[p])])
  {
    hide Canon, LivePositions;
    LiveCountIsPositions(records, names[..p]);
    var front := names[..|names| - 1];
    if p < |names| - 1 {
      LiveEntryAt(records, front, p);
      assert front[..p] == names[..p];
    }
  }

  /** And there are no other entries. */
  lemma {:induction false} LiveEntryIsStored(records: map<Name, Record>, names: seq<Name>, k: nat)
    requires k < |LiveEntries(records, names)|
    ensures var e := LiveEntries(records, names)[k];
            e.0 in names && Canon(e.0) in records && e.1 == records[Canon(e.0)]
  {
    hide Canon;
    var front := names[..|names| - 1];
    if k < |LiveEntries(records, front)| {
      LiveEntryIsStored(records, front, k);
    }
  }

  // ---- whose records a page carries ----

  /** An admin page carries the stored records, untouched, in any state. */
  lemma AdminPageHoldsStored(s: Slots, offset: U32, limit: U32, k: nat)
    requires k < |PageAt(s, Admin, offset, limit).records|
    ensures var e := PageAt(s, Admin, offset, limit).records[k];
            GetRecord(s, e.0) == Some(e.1) && e.0 in s.index
  {
    hide LiveEntries, PageRoot, EncodeCursor, Canon;
    var window := Slice(s.index, offset, PageEnd(s, Admin, offset, limit));
    LiveEntryIsStored(s.records, window, k);
  }

  /** A public page carries each stored record with the addresses of an unverified contributor blanked out. */
  lemma PublicPageHoldsViews(s: Slots, offset: U32, limit: U32, k: nat)
    requires k < |PageAt(s, Public, offset, limit).records|
    ensures var (name, shown) := PageAt(s, Public, offset, limit).records[k];
            && name in Paged(s) && GetRecord(s, name).Some?
            && var stored := GetRecord(s, name).value;
               && shown.verified == stored.verified
               && shown.registeredAt == stored.registeredAt && shown.isBot == stored.isBot
               && shown.stellarAddress == (if stored.verified then stored.stellarAddress else ZERO_ADDRESS)
               && shown.payoutAddress == (if stored.verified then stored.payoutAddress else ZERO_ADDRESS)
  {
    hide LiveEntries, PageRoot, EncodeCursor, Canon, ScanEnd, Flatten;
    var window := Slice(Paged(s), offset, PageEnd(s, Public, offset, limit));
    LiveEntryIsStored(s.records, window, k);
  }

  /** On a consistent registry entry `j` of an admin page is the record of indexed position `offset + j`. */
  lemma AdminPageEntries(s: Slots, offset: U32, limit: U32, j: nat)
    requires Consistent(s) && offset <= s.count
    ensures |PageAt(s, Admin, offset, limit).records| == Min(EffectiveLimit(limit), s.count - offset)
    ensures j < |PageAt(s, Admin, offset, limit).records| ==>
              && s.index[offset + j] in s.records
              && PageAt(s, Admin, offset, limit).records[j] == (s.index[offset + j], s.records[s.index[offset + j]])
  {
    hide LiveEntries, PageRoot, Flatten, WellPaged, IsValid, EncodeCursor;
    var end := NextOffset(s, Admin, offset, limit);
    var page, window := PageAt(s, Admin, offset, limit), s.index[offset..end];
    PageCovers(s, Admin, offset, limit);
    ConsistentIsExportable(s);
    assert AllLive(s.records, window);
    LiveCountIsFullExactly(s.records, window);
    assert |page.records| == |NamesOf(page.records)| == end - offset;
    if j < |page.records| {
      AdminPageHoldsStored(s, offset, limit, j);
      assert NamesOf(page.records)[j] == window[j];
      assert s.index[offset + j] in s.index;
    }
  }

  // ---- the rest of a page, in any state ----

  /** Total, flag and root are those of the state and of the entries, whatever the counter says. */
  lemma PageFacts(s: Slots, reader: Reader, offset: U32, limit: U32)
    ensures var page := PageAt(s, reader, offset, limit);
            && page.total == s.count
            && page.hasMore == page.nextCursor.Some?
            && page.merkleRoot == PageRoot(page.records)
            && (offset >= s.count ==> page.records == [] && page.nextCursor == None)
  {
    EmptyPageRoot();
  }

  /** Past the end of its list the slicing reader is done, and the scanning one goes back to the end of the pages. */
  lemma PagePastList(s: Slots, offset: U32, limit: U32)
    requires offset < s.count
    ensures offset > |s.index| ==>
              var page := PageAt(s, Admin, offset, limit); page.records == [] && page.nextCursor == None
    ensures offset > |Paged(s)| ==>
              var page := PageAt(s, Public, offset, limit);
              page.records == [] && page.nextCursor == Some(EncodeCursor(s, |Paged(s)|))
  {
    hide PageRoot, EncodeCursor, Flatten;
    LiveEntryOfNone(s.records);
  }
}
