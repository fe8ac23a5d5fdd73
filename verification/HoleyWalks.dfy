/**
  Cursor walks through a changing registry whose index may list names without
  a record. A hole can be filled between two pages by registering its name
  again, which lists it a second time.
 */
module HoleyWalks {
  import opened BatchRemoval
  import opened BatchVerification
  import opened ByteStrings
  import opened Cardinality
  import opened ChunkedIndex
  import opened ExportLeaves
  import opened MachineWords
  import opened NameKeys
  import opened PageGuarantees
  import opened PageReaders
  import opened PageWalks
  import opened RegistryConsistency
  import opened RegistryRuns
  import opened RegistryState
  import opened Usernames

  /** Every read finds both indexes agreeing and the counter counting them. */
  ghost predicate ExportableReads(s: Slots, legs: seq<Leg>)
    decreases |legs|
  {
    legs == [] || (Exportable(Run(s, legs[0].ops)) && ExportableReads(Run(s, legs[0].ops), legs[1..]))
  }

  // ---- subsequences ----

  /** `a` is `b` with some entries left out. */
  ghost predicate IsSubsequence(a: seq<Name>, b: seq<Name>)
    decreases |b|
  {
    if b == [] then a == []
    else
      || (a != [] && a[|a| - 1] == b[|b| - 1] && IsSubsequence(a[..|a| - 1], b[..|b| - 1]))
      || IsSubsequence(a, b[..|b| - 1])
  }

  lemma {:induction false} SubsequenceElements(a: seq<Name>, b: seq<Name>)
    requires IsSubsequence(a, b)
    ensures forall n :: n in a ==> n in b
    ensures NoDuplicates(b) ==> NoDuplicates(a)
    decreases |b|
  {
    if b != [] {
      var front := b[..|b| - 1];
      if a != [] && a[|a| - 1] == b[|b| - 1] && IsSubsequence(a[..|a| - 1], front) {
        SubsequenceElements(a[..|a| - 1], front);
        var last := [b[|b| - 1]];
        assert a == a[..|a| - 1] + last && b == front + last;
        if NoDuplicates(b) {
          HalvesAreDisjoint(front, last);
          AppendKeepsDistinct(a[..|a| - 1], last[0]);
        }
      } else {
        SubsequenceElements(a, front);
      }
    }
  }

  lemma {:induction false} NothingIsSubsequence(b: seq<Name>)
    ensures IsSubsequence([], b)
  {
    if b != [] {
      NothingIsSubsequence(b[..|b| - 1]);
    }
  }

  lemma {:induction false} SubsequencesJoin(a: seq<Name>, b: seq<Name>, c: seq<Name>, d: seq<Name>)
    requires IsSubsequence(a, b) && IsSubsequence(c, d)
    ensures IsSubsequence(a + c, b + d)
    decreases |d|
  {
    if d == [] {
      assert a + c == a && b + d == b;
    } else {
      var front := d[..|d| - 1];
      assert (b + d)[..|b + d| - 1] == b + front;
      if c != [] && c[|c| - 1] == d[|d| - 1] && IsSubsequence(c[..|c| - 1], front) {
        assert (a + c)[..|a + c| - 1] == a + c[..|c| - 1];
        SubsequencesJoin(a, b, c[..|c| - 1], front);
      } else {
        SubsequencesJoin(a, b, c, front);
      }
    }
  }

  lemma LiveNamesStep(records: map<Name, Record>, names: seq<Name>, last: Name)
    ensures LiveNames(records, []) == []
    ensures LiveNames(records, names + [last]) ==
            LiveNames(records, names) + (if Canon(last) in records then [last] else [])
  {
    hide Canon;
    assert (names + [last])[..|names|] == names;
  }

  lemma {:induction false} LiveNamesAreSubsequence(records: map<Name, Record>, names: seq<Name>)
    ensures IsSubsequence(LiveNames(records, names), names)
  {
    hide Canon, LiveNames;
    if names == [] {
      LiveNamesStep(records, [], []);
    } else {
      var front, last := names[..|names| - 1], names[|names| - 1];
      assert front + [last] == names;
      LiveNamesAreSubsequence(records, front);
      LiveNamesStep(records, front, last);
      var live := LiveNames(records, front);
      assert (live + [last])[..|live|] == live && live + [] == live;
    }
  }

  lemma OneMoreShared(keys: set<Name>, last: Name, stored: set<Name>)
    ensures (keys + {Canon(last)}) * stored == keys * stored + (if Canon(last) in stored then {Canon(last)} else {})
  {
    hide Canon;
  }

  lemma {:induction false} LiveNamesKeepKeys(records: map<Name, Record>, names: seq<Name>)
    ensures Keys(LiveNames(records, names)) == Keys(names) * records.Keys
  {
    hide Canon, Keys, LiveNames;
    LiveNamesStep(records, [], []);
    if names == [] {
      NoKeys();
    } else {
      var front, last := names[..|names| - 1], names[|names| - 1];
      assert front + [last] == names;
      LiveNamesKeepKeys(records, front);
      LiveNamesStep(records, front, last);
      KeysOfAppend(front, last);
      OneMoreShared(Keys(front), last, records.Keys);
      if Canon(last) in records {
        KeysOfAppend(LiveNames(records, front), last);
      } else {
        assert LiveNames(records, front) + [] == LiveNames(records, front);
      }
    }
  }

  lemma NoKeys()
    ensures Keys([]) == {}
  {
  }

  lemma {:induction false} KeysOfConcat(a: seq<Name>, b: seq<Name>)
    ensures Keys(a + b) == Keys(a) + Keys(b)
  {
    if b == [] {
      assert a + b == a;
    } else {
      var front, last := b[..|b| - 1], b[|b| - 1];
      assert a + b == (a + front) + [last] && front + [last] == b;
      KeysOfConcat(a, front);
      KeysOfAppend(a + front, last);
      KeysOfAppend(front, last);
    }
  }

  // ---- records appear only with an index entry ----

  /** Records are kept, and every new one is listed past the end of the old index. */
  ghost predicate ListsNewRecords(s: Slots, s': Slots) {
    && s.index <= s'.index
    && s.records.Keys <= s'.records.Keys
    && s'.records.Keys <= s.records.Keys + Keys(s'.index[|s.index|..])
  }

  lemma SameKeysListNothing(s: Slots, s': Slots)
    requires s.index <= s'.index && s.records.Keys == s'.records.Keys
    ensures ListsNewRecords(s, s')
  {
  }

  lemma RegisterListsNewRecords(s: Slots, name: Name, owner: Address, now: U64)
    requires Register(s, name, owner, now).Ok?
    ensures ListsNewRecords(s, Register(s, name, owner, now).value)
  {
    hide Appended, IsValid;
    var s' := Register(s, name, owner, now).value;
    if Canon(name) !in s.records {
      assert s'.index[|s.index|..] == [] + [Canon(name)];
      KeysOfAppend([], Canon(name));
      CanonIdempotent(name);
    }
  }

  lemma ApplyListsNewRecords(s: Slots, op: Op)
    requires Shifts(s, op) == 0
    ensures ListsNewRecords(s, Apply(s, op))
  {
    hide Canon, Keys, ListsNewRecords, Register, Rename, Remove, RemoveEach, RemovedIn, Expired, Queued, Flipped;
    ApplyShiftsOrExtends(s, op);
    if op.OpRegister? && Attempt(s, op).Ok? {
      RegisterListsNewRecords(s, op.name, op.owner, op.now);
    } else {
      if op.OpBatchRemove? && Attempt(s, op).Ok? {
        NothingRemovedExtends(s, op.names);
      }
      assert Apply(s, op).records.Keys == s.records.Keys;
      SameKeysListNothing(s, Apply(s, op));
    }
  }

  lemma ListsNewTransitive(s: Slots, t: Slots, u: Slots)
    requires ListsNewRecords(s, t) && ListsNewRecords(t, u)
    ensures ListsNewRecords(s, u)
  {
    TailSplits(t.index, u.index, |s.index|, |t.index|);
    KeysJoin(t.index[|s.index|..], u.index[|t.index|..], s.records.Keys, t.records.Keys, u.records.Keys);
  }

  lemma {:induction false} KeysJoin(a: seq<Name>, b: seq<Name>, early: set<Name>, middle: set<Name>, late: set<Name>)
    requires middle <= early + Keys(a) && late <= middle + Keys(b)
    ensures late <= early + Keys(a + b)
  {
    hide Keys;
    KeysOfConcat(a, b);
  }

  lemma {:induction false} RunListsNewRecords(s: Slots, ops: seq<Op>)
    requires ShiftsIn(s, ops) == 0
    ensures ListsNewRecords(s, Run(s, ops))
    decreases |ops|
  {
    hide Apply, Shifts, ListsNewRecords;
    if ops == [] {
      SameKeysListNothing(s, s);
    } else {
      var s' := Apply(s, ops[0]);
      ApplyListsNewRecords(s, ops[0]);
      RunListsNewRecords(s', ops[1..]);
      ListsNewTransitive(s, s', Run(s', ops[1..]));
    }
  }

  // ---- walks ----

  /** Entries of the index from a position on, in order, with a record. */
  ghost predicate ListedFrom(names: seq<Name>, t: Slots, from: nat) {
    from <= |t.index| && IsSubsequence(names, t.index[from..]) && Keys(names) <= t.records.Keys
  }

  /** No key that is listed from a position on and has a record is left out. */
  ghost predicate AllLiveFrom(names: seq<Name>, t: Slots, from: nat) {
    from <= |t.index| && Keys(t.index[from..]) * t.records.Keys <= Keys(names)
  }

  /** A resumed read that is accepted saw no removal and starts where its cursor says, in any state. */
  lemma {:induction false} ResumedReadAnywhere(
      s: Slots, offset: U32, ops: seq<Op>, reader: Reader, limit: U32, page: ExportPage)
    requires ShiftsIn(s, ops) < GENERATIONS
    requires Read(Run(s, ops), reader, Some(EncodeCursor(s, offset)), limit) == Ok(page)
    ensures var s' := Run(s, ops);
            && ShiftsIn(s, ops) == 0 && ListsNewRecords(s, s')
            && offset <= s'.count && page == PageAt(s', reader, offset, limit)
  {
    hide Run, ShiftsIn, EncodeCursor, DecodeCursor, PageAt, ListsNewRecords;
    CursorAcceptedExactly(s, offset, ops);
    RunListsNewRecords(s, ops);
  }

  /** The first of the remaining pages, and what still goes on from it. */
  lemma {:induction false} NextHoleyRead(s: Slots, offset: U32, legs: seq<Leg>, pages: seq<ExportPage>)
    requires legs != [] && PromptlyResumed(s, legs) && Walk(s, Some(EncodeCursor(s, offset)), legs, pages)
    ensures |pages| == |legs| && [pages[0]] + pages[1..] == pages
    ensures var s' := Run(s, legs[0].ops);
            && ShiftsIn(s, legs[0].ops) == 0 && s.index <= s'.index && ListsNewRecords(s, s')
            && offset <= s'.count && pages[0] == PageAt(s', legs[0].reader, offset, legs[0].limit)
            && PromptlyResumed(s', legs[1..]) && GoesOn(s', pages[0], legs[1..], pages[1..])
  {
    hide Run, ShiftsIn, EncodeCursor, PageAt, Read, ListsNewRecords;
    ResumedReadAnywhere(s, offset, legs[0].ops, legs[0].reader, legs[0].limit, pages[0]);
    ListsNewExtends(s, Run(s, legs[0].ops));
  }

  /** What a page at `offset` and the pages after it come to. */
  ghost predicate ExportsFrom(s: Slots, offset: nat, page: ExportPage, legs: seq<Leg>, pages: seq<ExportPage>) {
    var names, t := NamesOf(page.records) + ExportedNames(pages), After(s, legs);
    && Undisturbed(s, legs) && ListsNewRecords(s, t)
    && ListedFrom(names, t, offset)
    && (Finished([page] + pages) ==> AllLiveFrom(names, t, offset))
  }

  lemma {:induction false} HoleyWalkFrom(
      s: Slots, offset: U32, reader: Reader, limit: U32, page: ExportPage, legs: seq<Leg>, pages: seq<ExportPage>)
    requires Exportable(s) && offset <= s.count && page == PageAt(s, reader, offset, limit)
    requires ExportableReads(s, legs) && PromptlyResumed(s, legs) && GoesOn(s, page, legs, pages)
    ensures ExportsFrom(s, offset, page, legs, pages)
    decreases |legs|
  {
    hide Exportable, Run, ShiftsIn, EncodeCursor, PageAt, NextOffset, NamesOf, Walk, PromptlyResumed;
    hide IsSubsequence, ListsNewRecords, Keys, ExportsFrom;
    var next := NextOffset(s, reader, offset, limit);
    HoleyPage(s, reader, offset, limit);
    if legs == [] {
      LastHoleyPage(s, offset, next, page);
    } else {
      var s' := Run(s, legs[0].ops);
      NextHoleyRead(s, next, legs, pages);
      HoleyWalkFrom(s', next, legs[0].reader, legs[0].limit, pages[0], legs[1..], pages[1..]);
      HoleyPageBefore(s, offset, next, page, legs, pages);
    }
  }

  lemma ListsNewExtends(s: Slots, s': Slots)
    requires ListsNewRecords(s, s')
    ensures s.index <= s'.index
  {
  }

  /** One page exports the live part of its stretch of the index. */
  lemma HoleyPage(s: Slots, reader: Reader, offset: U32, limit: U32)
    requires Exportable(s) && offset <= s.count
    ensures var next, page := NextOffset(s, reader, offset, limit), PageAt(s, reader, offset, limit);
            && offset <= next <= |s.index| == s.count
            && IsSubsequence(NamesOf(page.records), s.index[offset..next])
            && Keys(NamesOf(page.records)) == Keys(s.index[offset..next]) * s.records.Keys
            && page.nextCursor == if next < s.count then Some(EncodeCursor(s, next)) else None
  {
    hide PageAt, NextOffset, NamesOf, LiveEntries, EncodeCursor, IsSubsequence, Keys, Flatten, WellPaged;
    PageCovers(s, reader, offset, limit);
    LiveNamesAreSubsequence(s.records, s.index[offset..NextOffset(s, reader, offset, limit)]);
    LiveNamesKeepKeys(s.records, s.index[offset..NextOffset(s, reader, offset, limit)]);
  }

  lemma {:induction false} LastStretch(s: Slots, offset: nat, next: nat, names: seq<Name>)
    requires offset <= next <= |s.index|
    requires IsSubsequence(names, s.index[offset..next]) && Keys(names) == Keys(s.index[offset..next]) * s.records.Keys
    ensures ListedFrom(names, s, offset)
    ensures next == |s.index| ==> AllLiveFrom(names, s, offset)
  {
    hide IsSubsequence, Keys;
    NothingIsSubsequence(s.index[next..]);
    TailSplits(s.index, s.index, offset, next);
    SubsequencesJoin(names, s.index[offset..next], [], s.index[next..]);
    assert names + [] == names;
  }

  lemma LastHoleyPage(s: Slots, offset: nat, next: nat, page: ExportPage)
    requires offset <= next <= |s.index| && (page.nextCursor == None <==> next == |s.index|)
    requires IsSubsequence(NamesOf(page.records), s.index[offset..next])
    requires Keys(NamesOf(page.records)) == Keys(s.index[offset..next]) * s.records.Keys
    ensures ExportsFrom(s, offset, page, [], [])
  {
    hide IsSubsequence, Keys, ListsNewRecords, ListedFrom, AllLiveFrom, NamesOf;
    SameKeysListNothing(s, s);
    LastStretch(s, offset, next, NamesOf(page.records));
    assert NamesOf(page.records) + ExportedNames([]) == NamesOf(page.records);
  }

  /** A page put before what is exported from the next position on. */
  lemma {:induction false} HoleyPageBefore(
      s: Slots, offset: nat, next: nat, page: ExportPage, legs: seq<Leg>, pages: seq<ExportPage>)
    requires offset <= next <= |s.index| && |legs| == |pages| > 0
    requires IsSubsequence(NamesOf(page.records), s.index[offset..next])
    requires Keys(NamesOf(page.records)) == Keys(s.index[offset..next]) * s.records.Keys
    requires var s' := Run(s, legs[0].ops);
             && ShiftsIn(s, legs[0].ops) == 0 && s.index <= s'.index && ListsNewRecords(s, s')
             && ExportsFrom(s', next, pages[0], legs[1..], pages[1..])
    ensures ExportsFrom(s, offset, page, legs, pages)
  {
    hide IsSubsequence, ListsNewRecords, Keys, ListedFrom, AllLiveFrom, NamesOf, Run, ShiftsIn;
    var t := After(s, legs);
    assert [pages[0]] + pages[1..] == pages;
    ListsNewTransitive(s, Run(s, legs[0].ops), t);
    HoleyStretch(s, t, offset, next, NamesOf(page.records), ExportedNames(pages));
  }

  lemma TailSplits(early: seq<Name>, late: seq<Name>, from: nat, mid: nat)
    requires early <= late && from <= mid <= |early|
    ensures late[from..] == early[from..mid] + late[mid..]
    ensures mid == |early| ==> early[from..mid] == early[from..]
  {
  }

  /** What one page and the pages after it export, put together. */
  lemma {:induction false} HoleyStretch(
      s: Slots, t: Slots, offset: nat, next: nat, names: seq<Name>, rest: seq<Name>)
    requires ListsNewRecords(s, t) && offset <= next <= |s.index|
    requires IsSubsequence(names, s.index[offset..next]) && Keys(names) == Keys(s.index[offset..next]) * s.records.Keys
    requires ListedFrom(rest, t, next)
    ensures ListedFrom(names + rest, t, offset)
    ensures AllLiveFrom(rest, t, next) ==> AllLiveFrom(names + rest, t, offset)
  {
    hide Keys, IsSubsequence;
    var stretch, added := s.index[offset..next], t.index[|s.index|..];
    TailSplits(s.index, t.index, offset, next);
    TailSplits(s.index, t.index, next, |s.index|);
    SubsequencesJoin(names, stretch, rest, t.index[next..]);
    KeysOfConcat(stretch, t.index[next..]);
    KeysOfConcat(s.index[next..], added);
    KeysOfConcat(names, rest);
  }

  /**
    Records may be missing for listed names, and anything may happen between
    the pages as long as every read finds the indexes agreeing and counted:
    accepted cursors mean that nothing was taken off the index, the walk
    exports entries of the last index in order (each name once, if none is
    listed twice), and once no cursor is left the keys it exported are exactly
    the listed ones that have a record at the last read.
   */
  lemma {:induction false} HoleyWalkExportsLive(s: Slots, legs: seq<Leg>, pages: seq<ExportPage>)
    requires Walk(s, None, legs, pages) && ExportableReads(s, legs)
    requires PromptlyResumed(Run(s, legs[0].ops), legs[1..])
    ensures Undisturbed(Run(s, legs[0].ops), legs[1..])
    ensures var names, t := ExportedNames(pages), After(s, legs);
            && IsSubsequence(names, t.index)
            && (NoDuplicates(t.index) ==> NoDuplicates(names))
            && (Finished(pages) ==> Keys(names) == Keys(t.index) * t.records.Keys)
  {
    hide Run, ShiftsIn, EncodeCursor, DecodeCursor, PageAt, NamesOf, IsSubsequence, Keys, ListsNewRecords;
    hide PromptlyResumed;
    var first, rest, t := Run(s, legs[0].ops), pages[1..], After(s, legs);
    HoleyWalkFrom(first, 0, legs[0].reader, legs[0].limit, pages[0], legs[1..], rest);
    assert [pages[0]] + rest == pages;
    assert t.index[0..] == t.index;
    SubsequenceElements(ExportedNames(pages), t.index);
    SubsequenceKeys(ExportedNames(pages), t.index);
  }

  lemma {:induction false} SubsequenceKeys(a: seq<Name>, b: seq<Name>)
    requires IsSubsequence(a, b)
    ensures Keys(a) <= Keys(b)
  {
    hide Canon;
    SubsequenceElements(a, b);
    forall k | k in Keys(a)
      ensures k in Keys(b)
    {
      KeysAreCanons(a, k);
      var i :| 0 <= i < |a| && Canon(a[i]) == k;
      assert a[i] in b;
    }
  }
}
