/**
  The two export readers, as what they return. The admin reader slices the
  flat index; the public reader scans the pages for live names and redacts
  unverified records. They share one opaque cursor.
 */
module PageReaders {
  import opened ChunkedIndex
  import opened ExportLeaves
  import opened MachineWords
  import opened MerkleTree
  import opened RegistryState
  import opened Usernames

  const DEFAULT_PAGE_LIMIT := 20
  const MAX_PAGE_LIMIT := 100

  function EffectiveLimit(limit: U32): (l: U32)
    ensures 1 <= limit <= 100 ==> l == limit
    ensures limit == 0 ==> l == 20
    ensures limit > 100 ==> l == 100
  {
    if limit == 0 then DEFAULT_PAGE_LIMIT else Min(limit, MAX_PAGE_LIMIT)
  }

  // ---- cursors ----

  type Cursor = b: seq<Byte> | |b| == 8 witness [0, 0, 0, 0, 0, 0, 0, 0]

  function EncodeCursor(s: Slots, offset: U32): Cursor {
    ToBigEndian(offset) + ToBigEndian(s.generation)
  }

  function DecodeCursor(s: Slots, cursor: Cursor): Result<U32, CallError> {
    if FromBigEndian(cursor[4..8]) != s.generation then Err(InvalidCursor)
    else if FromBigEndian(cursor[0..4]) > s.count then Err(InvalidCursor)
    else Ok(FromBigEndian(cursor[0..4]))
  }

  lemma FromBigEndianInjective(a: seq<Byte>, n: U32)
    requires |a| == 4
    ensures FromBigEndian(a) == n <==> a == ToBigEndian(n)
  {
    if FromBigEndian(a) == n {
      var a0: int, a1: int, a2: int, a3: int := a[0], a[1], a[2], a[3];
      var high, low := a0 * 0x100 + a1, a2 * 0x100 + a3;
      assert n / 0x1_0000 == high && n % 0x1_0000 == low;
    }
  }

  /** The only cursors a state accepts are the ones it would itself issue for an offset within its count. */
  lemma AcceptedCursorsAreIssued(s: Slots, cursor: Cursor, offset: U32)
    ensures DecodeCursor(s, cursor) == Ok(offset) <==> cursor == EncodeCursor(s, offset) && offset <= s.count
  {
    FromBigEndianInjective(cursor[0..4], offset);
    FromBigEndianInjective(cursor[4..8], s.generation);
    assert cursor == cursor[0..4] + cursor[4..8];
    var own := EncodeCursor(s, offset);
    assert own[0..4] == ToBigEndian(offset) && own[4..8] == ToBigEndian(s.generation);
  }

  // ---- pages ----

  datatype ExportPage = ExportPage(
    records: seq<ExportRecord>,
    nextCursor: Option<Cursor>,
    total: U32,
    merkleRoot: Hash,
    hasMore: bool)

  datatype Reader = Admin | Public

  function PublicRecordView(record: Record): Record {
    if record.verified then record
    else record.(stellarAddress := ZERO_ADDRESS, payoutAddress := ZERO_ADDRESS)
  }

  function Redacted(entries: seq<ExportRecord>): (r: seq<ExportRecord>)
    ensures |r| == |entries|
  {
    seq(|entries|, i requires 0 <= i < |entries| => (entries[i].0, PublicRecordView(entries[i].1)))
  }

  function Paged(s: Slots): seq<Name> {
    Flatten(s.chunks, s.chunkCount)
  }

  /** Where a scan from `at` for `want` live names stops: just past the last one, or at the end. */
  function ScanEnd(records: map<Name, Record>, names: seq<Name>, at: nat, want: nat): (end: nat)
    requires want > 0
    ensures end <= |names| && (at < |names| ==> at < end)
    decreases |names| - at
  {
    if at >= |names| then |names|
    else if Canon(names[at]) !in records then ScanEnd(records, names, at + 1, want)
    else if want == 1 then at + 1
    else ScanEnd(records, names, at + 1, want - 1)
  }

  /** The first position a page does not cover. */
  function PageEnd(s: Slots, reader: Reader, offset: U32, limit: U32): nat {
    match reader
    case Admin => Min(offset + EffectiveLimit(limit), |s.index|)
    case Public => ScanEnd(s.records, Paged(s), offset, EffectiveLimit(limit))
  }

  function Slice(names: seq<Name>, from: nat, to: nat): seq<Name> {
    if from <= to <= |names| then names[from..to] else []
  }

  function PageEntries(s: Slots, reader: Reader, offset: U32, limit: U32): seq<ExportRecord> {
    var end := PageEnd(s, reader, offset, limit);
    match reader
    case Admin => LiveEntries(s.records, Slice(s.index, offset, end))
    case Public => Redacted(LiveEntries(s.records, Slice(Paged(s), offset, end)))
  }

  /** The admin reader asks whether the flat index goes on, the public one whether the count does. */
  predicate MoreAfter(s: Slots, reader: Reader, end: nat) {
    match reader
    case Admin => end < |s.index|
    case Public => end < s.count
  }

  function PageAt(s: Slots, reader: Reader, offset: U32, limit: U32): ExportPage {
    if offset >= s.count then ExportPage([], None, s.count, Zero, false)
    else
      var end := PageEnd(s, reader, offset, limit);
      var entries := PageEntries(s, reader, offset, limit);
      var more := MoreAfter(s, reader, end);
      ExportPage(entries, if more then Some(EncodeCursor(s, end)) else None, s.count, PageRoot(entries), more)
  }

  function Read(s: Slots, reader: Reader, cursor: Option<Cursor>, limit: U32): Result<ExportPage, CallError> {
    if !s.initialized then Err(NotInitialized)
    else
      match cursor
      case None => Ok(PageAt(s, reader, 0, limit))
      case Some(c) =>
        match DecodeCursor(s, c)
        case Err(e) => Err(e)
        case Ok(offset) => Ok(PageAt(s, reader, offset, limit))
  }

  function NamesOf(entries: seq<ExportRecord>): (names: seq<Name>)
    ensures |names| == |entries|
  {
    seq(|entries|, i requires 0 <= i < |entries| => entries[i].0)
  }

  /** The listed names that have a record, in order. */
  function LiveNames(records: map<Name, Record>, names: seq<Name>): seq<Name> {
    NamesOf(LiveEntries(records, names))
  }

  // ---- live entries ----

  predicate AllLive(records: map<Name, Record>, names: seq<Name>) {
    forall i :: 0 <= i < |names| ==> Canon(names[i]) in records
  }

  lemma {:induction false} LiveCountIsFullExactly(records: map<Name, Record>, names: seq<Name>)
    ensures |LiveEntries(records, names)| == |names| <==> AllLive(records, names)
    ensures AllLive(records, names) ==> NamesOf(LiveEntries(records, names)) == names
  {
    if names != [] {
      LiveCountIsFullExactly(records, names[..|names| - 1]);
    }
  }

  lemma {:induction false} ScanEndOverLive(records: map<Name, Record>, names: seq<Name>, at: nat, want: nat)
    requires AllLive(records, names) && at <= |names| && want > 0
    ensures ScanEnd(records, names, at, want) == Min(at + want, |names|)
    decreases |names| - at
  {
    if at < |names| && want > 1 {
      ScanEndOverLive(records, names, at + 1, want - 1);
    }
  }

  lemma {:induction false} LiveEntriesConcat(records: map<Name, Record>, a: seq<Name>, b: seq<Name>)
    ensures LiveEntries(records, a + b) == LiveEntries(records, a) + LiveEntries(records, b)
  {
    if b == [] {
      assert a + b == a;
    } else {
      assert (a + b)[..|a + b| - 1] == a + b[..|b| - 1];
      LiveEntriesConcat(records, a, b[..|b| - 1]);
    }
  }

  /** A scan takes the live names of its window, and as many as it may unless the list runs out. */
  lemma {:induction false} ScanTakesWhatItWants(records: map<Name, Record>, names: seq<Name>, at: nat, want: nat)
    requires at <= |names| && want > 0
    ensures var end := ScanEnd(records, names, at, want);
            var taken := LiveEntries(records, names[at..end]);
            && |taken| <= want
            && (|taken| == want || end == |names|)
            && (end < |names| ==> end > at && Canon(names[end - 1]) in records)
    decreases |names| - at
  {
    hide LiveEntries, Canon;
    LiveEntryOfNone(records);
    if at < |names| {
      var live := Canon(names[at]) in records;
      if !live || want > 1 {
        var rest := if live then want - 1 else want;
        var end := ScanEnd(records, names, at + 1, rest);
        assert end == ScanEnd(records, names, at, want);
        ScanTakesWhatItWants(records, names, at + 1, rest);
        assert names[at..end] == [names[at]] + names[at + 1..end];
        LiveEntriesConcat(records, [names[at]], names[at + 1..end]);
        LiveEntryOfOne(records, names[at]);
      } else {
        assert names[at..at + 1] == [names[at]];
        LiveEntryOfOne(records, names[at]);
      }
    }
  }

  lemma {:induction false} LiveEntryOfNone(records: map<Name, Record>)
    ensures LiveEntries(records, []) == []
  {
  }

  lemma {:induction false} LiveEntryOfOne(records: map<Name, Record>, n: Name)
    ensures LiveEntries(records, [n]) == if Canon(n) in records then [(n, records[Canon(n)])] else []
  {
    assert [n][..0] == [];
  }
}
