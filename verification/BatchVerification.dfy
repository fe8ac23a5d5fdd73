/**
  Batch verification: a pass that queues the names to change, a pass that
  changes them, and one write of the verified counter.
 */
module BatchVerification {
  import opened Cardinality
  import opened ChunkedIndex
  import opened ExportLeaves
  import opened MachineWords
  import opened NameKeys
  import opened RegistryConsistency
  import opened RegistryState
  import opened Usernames

  const MAX_WRITE_BATCH := 25

  datatype BatchSummary = BatchSummary(total: U32, successful: U32, failed: U32, successRate: U32)

  // ---- the summary ----

  /** Half-up percentage, clamped at a hundred. */
  function Percentage(verified: U32, total: U32): (p: U32)
    ensures p <= 100 && (total == 0 ==> p == 0) && (verified > total > 0 ==> p == 100)
    ensures total > 0 && verified <= total ==>
              2 * (verified * 100) < (2 * p + 1) * total && (2 * p - 1) * total <= 2 * (verified * 100)
  {
    if total == 0 || verified == 0 then 0
    else if verified >= total then 100
    else
      var p := (verified * 100 + total / 2) / total;
      RoundingBounds(verified * 100, total, p);
      p
  }

  lemma RoundingBounds(x: nat, total: nat, p: nat)
    requires 0 < total && x < 100 * total && p == (x + total / 2) / total
    ensures p <= 100
    ensures 2 * x < (2 * p + 1) * total && (2 * p - 1) * total <= 2 * x
  {
    var r := (x + total / 2) % total;
    assert x + total / 2 == total * p + r;
  }

  function Summarize(total: U32, successful: U32): (summary: BatchSummary)
    ensures summary.total == total && summary.successful == successful
    ensures successful <= total ==> summary.failed == total - successful && summary.successRate <= 100
    ensures 0 < total && successful <= total ==>
              var p := summary.successRate;
              2 * (successful * 100) < (2 * p + 1) * total && (2 * p - 1) * total <= 2 * (successful * 100)
    ensures total == 0 ==> summary.successRate == 0
  {
    BatchSummary(total, successful, SaturatingSub(total, successful), Percentage(successful, total))
  }

  // ---- what a batch queues and what it changes ----

  /** A bound, registered name whose verification is missing or has lapsed under this spelling. */
  predicate Eligible(s: Slots, name: Name, now: U64) {
    && GetRecord(s, name).Some?
    && GetRecord(s, name).value.stellarAddress != ZERO_ADDRESS
    && !(GetRecord(s, name).value.verified && !Expired(s, name, now))
  }

  /** Eligible are exactly the names whose single verification would be admitted. */
  lemma EligibleIsAdmitted(s: Slots, name: Name, now: U64)
    requires s.initialized
    ensures Eligible(s, name, now) <==> Verify(s, name, now).Ok?
  {
  }

  /** First occurrences of the eligible spellings, in order. */
  function Queued(s: Slots, names: seq<Name>, now: U64): (q: seq<Name>)
    ensures |q| <= |names|
    ensures forall n :: n in q <==> n in names && Eligible(s, n, now)
  {
    if names == [] then []
    else
      var front := Queued(s, names[..|names| - 1], now);
      var last := names[|names| - 1];
      if Eligible(s, last, now) && last !in front then front + [last] else front
  }

  lemma {:induction false} QueuedOnce(s: Slots, names: seq<Name>, now: U64)
    ensures NoDuplicates(Queued(s, names, now))
  {
    if names != [] {
      QueuedOnce(s, names[..|names| - 1], now);
    }
  }

  /** The records a batch has something to do for: those that one of its eligible names resolves to. */
  function Served(s: Slots, names: seq<Name>, now: U64): set<Name> {
    set k | k in s.records && exists n :: n in names && Canon(n) == k && Eligible(s, n, now)
  }

  lemma {:induction false} QueueServes(s: Slots, names: seq<Name>, now: U64)
    ensures Keys(Queued(s, names, now)) == Served(s, names, now)
  {
    hide Canon, Keys, Queued;
    var queue := Queued(s, names, now);
    forall k
      ensures k in Keys(queue) <==> k in Served(s, names, now)
    {
      KeysAreCanons(queue, k);
      if i :| 0 <= i < |queue| && Canon(queue[i]) == k {
        assert queue[i] in queue;
      }
      if n :| n in names && Canon(n) == k && Eligible(s, n, now) {
        assert n in queue;
      }
    }
  }

  /** Keys whose record goes from unverified to verified. */
  function Flipped(s: Slots, keys: set<Name>): set<Name> {
    set k | k in keys && k in s.records && !s.records[k].verified
  }

  function EverAfter(s: Slots, flips: nat): Option<U32> {
    if flips == 0 then s.everVerified else Some(Min(EverRead(s) + flips, U32_MAX))
  }

  function TimesOf(queue: seq<Name>, now: U64): map<Name, U64> {
    map n | n in queue :: now
  }

  /** The second pass over some keys, before the verified counter is written. */
  function Marked(s: Slots, queue: seq<Name>, now: U64): Slots {
    var keys := Keys(queue);
    s.(records := map k | k in s.records :: if k in keys then s.records[k].(verified := true) else s.records[k],
       verifiedAt := s.verifiedAt + TimesOf(queue, now),
       everVerified := EverAfter(s, |Flipped(s, keys)|))
  }

  function BatchVerified(s: Slots, queue: seq<Name>, now: U64): Slots {
    Marked(s, queue, now).(verifiedCount := Min(s.verifiedCount + |Flipped(s, Keys(queue))|, U32_MAX))
  }

  /** The whole call, for an admitted caller. */
  function BatchVerify(s: Slots, names: seq<Name>, now: U64): Result<(Slots, BatchSummary), CallError> {
    if !s.initialized then Err(NotInitialized)
    else if !(0 < |names| <= MAX_WRITE_BATCH) then Err(InvalidBatchSize)
    else
      var queue := Queued(s, names, now);
      Ok((BatchVerified(s, queue, now), Summarize(|names|, |queue|)))
  }

  // ---- one step of the second pass ----

  function MarkOne(s: Slots, name: Name, now: U64): Slots
    requires Canon(name) in s.records
  {
    var k := Canon(name);
    var marked := s.(records := s.records[k := s.records[k].(verified := true)],
                     verifiedAt := s.verifiedAt[name := now]);
    if s.records[k].verified then marked else EverBumped(marked)
  }

  lemma FlippedOfAppend(s: Slots, keys: set<Name>, k: Name)
    requires k in s.records
    ensures |Flipped(s, keys + {k})| == |Flipped(s, keys)| + (if k !in keys && !s.records[k].verified then 1 else 0)
  {
    if k !in keys && !s.records[k].verified {
      assert Flipped(s, keys + {k}) == Flipped(s, keys) + {k};
    } else {
      assert Flipped(s, keys + {k}) == Flipped(s, keys);
    }
  }

  /** Marking a queue one name longer is marking the queue, then the name. */
  lemma {:induction false} MarkedStep(s: Slots, queue: seq<Name>, name: Name, now: U64)
    requires Canon(name) in s.records
    ensures Marked(s, queue + [name], now) == MarkOne(Marked(s, queue, now), name, now)
    ensures Marked(s, queue, now).records[Canon(name)].verified
            <==> s.records[Canon(name)].verified || Canon(name) in Keys(queue)
  {
    hide Canon, Keys, Flipped, TimesOf;
    var k, keys := Canon(name), Keys(queue);
    KeysOfAppend(queue, name);
    FlippedOfAppend(s, keys, k);
    MarkedRecordsStep(s, queue, name, now);
    TimesOfAppend(s.verifiedAt, queue, name, now);
  }

  lemma MarkedRecordsStep(s: Slots, queue: seq<Name>, name: Name, now: U64)
    requires Canon(name) in s.records
    ensures Marked(s, queue + [name], now).records ==
            var records := Marked(s, queue, now).records;
            records[Canon(name) := records[Canon(name)].(verified := true)]
  {
    hide Canon, Keys, Flipped, EverAfter;
    KeysOfAppend(queue, name);
  }

  lemma TimesOfAppend(times: map<Name, U64>, queue: seq<Name>, name: Name, now: U64)
    ensures times + TimesOf(queue + [name], now) == (times + TimesOf(queue, now))[name := now]
  {
    assert forall n :: n in queue + [name] <==> n in queue || n == name;
  }

  lemma MarkedNothing(s: Slots, now: U64)
    ensures Marked(s, [], now) == s
  {
    assert Flipped(s, {}) == {};
    assert Marked(s, [], now).records == s.records;
    assert Marked(s, [], now).verifiedAt == s.verifiedAt;
  }

  // ---- what a batch does to the counters ----

  lemma {:induction false} VerifiedAfterBatch(s: Slots, queue: seq<Name>, now: U64)
    ensures VerifiedNames(BatchVerified(s, queue, now).records)
            == VerifiedNames(s.records) + Flipped(s, Keys(queue))
    ensures VerifiedNames(s.records) !! Flipped(s, Keys(queue))
  {
  }

  /**
    Whatever the mix of repeats, spellings, missing, zero-bound and lapsed
    names: the verified counter stays the number of verified records, the
    historical figure grows by the records that flipped (stored or not), and
    only queued keys change, only by their flag.
   */
  lemma BatchCountsExactly(s: Slots, names: seq<Name>, now: U64)
    requires Consistent(s) && BatchVerify(s, names, now).Ok?
    ensures var s' := BatchVerify(s, names, now).value.0;
            var keys := Served(s, names, now);
            var flips := |Flipped(s, keys)|;
            && Consistent(s')
            && s'.verifiedCount == s.verifiedCount + flips == |VerifiedNames(s'.records)|
            && EverRead(s') == Min(EverRead(s) + flips, U32_MAX)
            && s'.records.Keys == s.records.Keys
            && (forall k :: k in s.records ==>
                  s'.records[k] == if k in keys then s.records[k].(verified := true) else s.records[k])
  {
    hide Canon, IsValid, Flatten, WellPaged, NoDuplicates, Keys, Queued, Eligible, VerifiedNames, Flipped, Served;
    QueueServes(s, names, now);
    var queue := Queued(s, names, now);
    var s', flips := BatchVerified(s, queue, now), Flipped(s, Keys(queue));
    VerifiedAfterBatch(s, queue, now);
    assert |VerifiedNames(s'.records)| == |VerifiedNames(s.records)| + |flips|;
    VerifiedFits(s'.records, s.records, s.index, s.count);
  }

  lemma VerifiedFits(records: map<Name, Record>, prior: map<Name, Record>, index: seq<Name>, count: U32)
    requires records.Keys == prior.Keys && count == |index| && NoDuplicates(index)
    requires forall n :: n in index <==> n in prior
    ensures |VerifiedNames(records)| <= count
  {
    DistinctSize(index, records.Keys);
    SubsetSize(VerifiedNames(records), records.Keys);
  }

  // ---- what the summary counts ----

  /** Two spellings of one name, both with something to do: the batch takes them for two successes. */
  ghost predicate NoEligibleVariants(s: Slots, names: seq<Name>, now: U64) {
    forall a, b :: a in names && b in names && a != b && Eligible(s, a, now) && Eligible(s, b, now) ==>
                     Canon(a) != Canon(b)
  }

  lemma {:induction false} QueueIsDistinctExactly(s: Slots, names: seq<Name>, now: U64)
    ensures DistinctUpToCase(Queued(s, names, now)) <==> NoEligibleVariants(s, names, now)
  {
    hide Canon, Eligible, Queued;
    var queue := Queued(s, names, now);
    QueuedOnce(s, names, now);
    if DistinctUpToCase(queue) {
      forall a, b | a in names && b in names && a != b && Eligible(s, a, now) && Eligible(s, b, now)
        ensures Canon(a) != Canon(b)
      {
        assert a in queue && b in queue;
      }
    }
    if i, j :| 0 <= i < j < |queue| && Canon(queue[i]) == Canon(queue[j]) {
      assert queue[i] in queue && queue[j] in queue;
    }
  }

  /**
    The summary's `successful` never falls short of the records the batch
    verified or renewed, and it is their number exactly when no two different
    names in the request, both with something to do, are case variants.
   */
  lemma SuccessfulCountsRecordsExactly(s: Slots, names: seq<Name>, now: U64)
    requires BatchVerify(s, names, now).Ok?
    ensures var successful := BatchVerify(s, names, now).value.1.successful;
            var served := |Served(s, names, now)|;
            successful >= served && (successful == served <==> NoEligibleVariants(s, names, now))
  {
    hide Canon, Eligible, Queued, Keys, Served, BatchVerified;
    QueueServes(s, names, now);
    KeyCountExactly(Queued(s, names, now));
    QueueIsDistinctExactly(s, names, now);
  }

  /** The window never lapses at the instant it starts, but at the end of time, where the sum saturates. */
  predicate LapsesAtOnce(s: Slots, now: U64) {
    s.expiresIn.Some? && s.expiresIn.value != 0 && now == U64_MAX
  }

  lemma {:induction false} EligibleAgainExactly(s: Slots, names: seq<Name>, now: U64, n: Name)
    requires n in names
    ensures Eligible(BatchVerified(s, Queued(s, names, now), now), n, now)
            <==> Eligible(s, n, now) && LapsesAtOnce(s, now)
  {
    hide Canon, Keys, Queued, Flipped;
  }

  lemma MarkingAgain(s: Slots, queue: seq<Name>, again: seq<Name>, now: U64)
    requires forall n :: n in again ==> n in queue
    ensures var s' := BatchVerified(s, queue, now); BatchVerified(s', again, now) == s'
  {
    hide Canon, Keys;
    var s' := BatchVerified(s, queue, now);
    forall k | k in Keys(again)
      ensures k in Keys(queue)
    {
      KeysAreCanons(again, k);
      var i :| 0 <= i < |again| && Canon(again[i]) == k;
      assert again[i] in queue;
    }
    assert Flipped(s', Keys(again)) == {};
    assert Marked(s', again, now).records == s'.records;
    assert Marked(s', again, now).verifiedAt == s'.verifiedAt;
  }

  /**
    Run again at the same instant, a batch changes nothing; and it finds nothing
    to do exactly when it found nothing the first time, or the window it just
    restarted has not lapsed at once.
   */
  lemma BatchIsIdempotent(s: Slots, names: seq<Name>, now: U64)
    requires BatchVerify(s, names, now).Ok?
    ensures var (s', first) := BatchVerify(s, names, now).value;
            var again := BatchVerify(s', names, now);
            && again.Ok? && again.value.0 == s'
            && (again.value.1.successful == 0 <==> first.successful == 0 || !LapsesAtOnce(s, now))
  {
    hide Canon, Keys, Queued, Flipped, Eligible, BatchVerified;
    var queue := Queued(s, names, now);
    var s' := BatchVerified(s, queue, now);
    var again := Queued(s', names, now);
    forall n | n in names
      ensures n in again <==> n in queue && LapsesAtOnce(s, now)
    {
      EligibleAgainExactly(s, names, now, n);
    }
    assert again != [] ==> again[0] in again;
    assert queue != [] ==> queue[0] in queue;
    MarkingAgain(s, queue, again, now);
    StaysInitialized(s, queue, now);
  }

  lemma StaysInitialized(s: Slots, queue: seq<Name>, now: U64)
    ensures BatchVerified(s, queue, now).initialized == s.initialized
  {
  }

  // ---- a batch is its names verified one at a time ----

  /** One verification; a refused one changes nothing. */
  function VerifiedOrSame(s: Slots, name: Name, now: U64): Slots {
    match Verify(s, name, now)
    case Ok(s') => s'
    case Err(_) => s
  }

  function VerifyEach(s: Slots, names: seq<Name>, now: U64): Slots {
    if names == [] then s
    else VerifiedOrSame(VerifyEach(s, names[..|names| - 1], now), names[|names| - 1], now)
  }

  /**
    With the historical counter stored and no case variants with something to
    do, the batch is exactly the single verifications of its names in sequence,
    repeats and refusals included.
   */
  lemma {:induction false} BatchIsSequentialVerification(s: Slots, names: seq<Name>, now: U64)
    requires s.initialized && s.everVerified.Some? && NoEligibleVariants(s, names, now)
    ensures VerifyEach(s, names, now) == BatchVerified(s, Queued(s, names, now), now)
  {
    hide Canon, Keys, Eligible, BatchVerified, VerifiedOrSame, Marked;
    if names == [] {
      NothingMarked(s, now);
    } else {
      var front, last := names[..|names| - 1], names[|names| - 1];
      var queue := Queued(s, front, now);
      BatchIsSequentialVerification(s, front, now);
      if !Eligible(s, last, now) {
        RefusedStill(s, queue, last, now);
      } else if last in queue {
        RepeatChangesNothing(s, queue, last, now);
      } else {
        assert Canon(last) !in Keys(queue) by {
          KeysAreCanons(queue, Canon(last));
          assert forall i :: 0 <= i < |queue| ==> queue[i] in queue;
        }
        SequentialStep(s, queue, last, now);
      }
    }
  }

  lemma NothingMarked(s: Slots, now: U64)
    ensures BatchVerified(s, [], now) == s
  {
    MarkedNothing(s, now);
    assert Flipped(s, {}) == {};
  }

  /** A name with nothing to do before a batch has nothing to do after part of it. */
  lemma RefusedStill(s: Slots, queue: seq<Name>, name: Name, now: U64)
    requires s.initialized && !Eligible(s, name, now) && name !in queue
    ensures VerifiedOrSame(BatchVerified(s, queue, now), name, now) == BatchVerified(s, queue, now)
  {
    hide Canon, Keys, Flipped;
  }

  lemma RepeatChangesNothing(s: Slots, queue: seq<Name>, name: Name, now: U64)
    requires name in queue
    ensures VerifiedOrSame(BatchVerified(s, queue, now), name, now) == BatchVerified(s, queue, now)
  {
    hide Canon, Keys, Flipped;
    var t := BatchVerified(s, queue, now);
    if Canon(name) in t.records {
      assert t.records[Canon(name) := t.records[Canon(name)].(verified := true)] == t.records;
      assert t.verifiedAt[name := now] == t.verifiedAt;
    }
  }

  lemma {:induction false} SequentialStep(s: Slots, front: seq<Name>, last: Name, now: U64)
    requires s.initialized && s.everVerified.Some? && Eligible(s, last, now)
    requires Canon(last) !in Keys(front) && last !in front
    ensures VerifiedOrSame(BatchVerified(s, front, now), last, now) == BatchVerified(s, front + [last], now)
  {
    hide Canon, Keys, Flipped;
    MarkedStep(s, front, last, now);
    KeysOfAppend(front, last);
    FlippedOfAppend(s, Keys(front), Canon(last));
  }
}
