/**
  Batch removal: one pass that drops records and index entries, skipping names
  it cannot find, then one write of each counter. The reference is the same
  names removed one call at a time.
 */
module BatchRemoval {
  import opened BatchVerification
  import opened ChunkedIndex
  import opened ExportLeaves
  import opened MachineWords
  import opened NameKeys
  import opened RegistryConsistency
  import opened RegistryState
  import opened Usernames

  /** The state one removal leads to; a refused one changes nothing. */
  function Dropped(s: Slots, name: Name): Slots {
    match Remove(s, name)
    case Ok(s') => s'
    case Err(_) => s
  }

  /** The state after removing the names one call at a time. */
  function RemoveEach(s: Slots, names: seq<Name>): Slots {
    if names == [] then s
    else Dropped(RemoveEach(s, names[..|names| - 1]), names[|names| - 1])
  }

  /** How many of those calls were not refused. */
  function RemovedIn(s: Slots, names: seq<Name>): (n: nat)
    ensures n <= |names|
  {
    if names == [] then 0
    else
      var front, last := names[..|names| - 1], names[|names| - 1];
      RemovedIn(s, front) + (if Remove(RemoveEach(s, front), last).Ok? then 1 else 0)
  }

  function BatchRemove(s: Slots, names: seq<Name>): Result<(Slots, BatchSummary), CallError> {
    if !s.initialized then Err(NotInitialized)
    else if !(0 < |names| <= MAX_WRITE_BATCH) then Err(InvalidBatchSize)
    else Ok((RemoveEach(s, names), Summarize(|names|, RemovedIn(s, names))))
  }

  lemma RemovalDropsKey(s: Slots, name: Name)
    requires s.initialized
    ensures var s' := Dropped(s, name);
            && s'.initialized && s'.everVerified == s.everVerified
            && s'.records == s.records - {Canon(name)}
            && s'.generation == (s.generation + (if Canon(name) in s.records then 1 else 0)) % 0x1_0000_0000
    ensures Remove(s, name).Ok? <==> Canon(name) in s.records
  {
    hide Canon, Removed, Without;
  }

  lemma {:induction false} RemovingNothing(s: Slots)
    ensures RemoveEach(s, []) == s && RemovedIn(s, []) == 0 && Keys([]) == {}
  {
  }

  lemma {:induction false} RemovalStep(s: Slots, names: seq<Name>, name: Name)
    ensures RemoveEach(s, names + [name]) == Dropped(RemoveEach(s, names), name)
    ensures RemovedIn(s, names + [name]) ==
            RemovedIn(s, names) + (if Remove(RemoveEach(s, names), name).Ok? then 1 else 0)
  {
    assert (names + [name])[..|names|] == names;
  }

  lemma OneKeyMore(keys: set<Name>, k: Name, stored: set<Name>)
    ensures |(keys + {k}) * stored| == |keys * stored| + (if k in stored && k !in keys then 1 else 0)
  {
    if k in stored && k !in keys {
      assert (keys + {k}) * stored == keys * stored + {k};
    } else {
      assert (keys + {k}) * stored == keys * stored;
    }
  }

  lemma DroppedOneByOne(records: map<Name, Record>, keys: set<Name>, k: Name)
    ensures records - (keys + {k}) == records - keys - {k}
  {
  }

  /**
    Whatever the repeats, spellings and strangers among the names: exactly their
    keys are dropped, with one success for each record dropped.
   */
  lemma {:induction false} BatchRemovalDropsExactly(s: Slots, names: seq<Name>)
    requires s.initialized
    ensures RemoveEach(s, names).initialized
    ensures RemoveEach(s, names).records == s.records - Keys(names)
    ensures RemovedIn(s, names) == |Keys(names) * s.records.Keys|
  {
    hide Canon, Keys, Remove, Dropped, RemoveEach, RemovedIn;
    RemovingNothing(s);
    if names != [] {
      var front, last := names[..|names| - 1], names[|names| - 1];
      assert front + [last] == names;
      BatchRemovalDropsExactly(s, front);
      KeysOfAppend(front, last);
      RemovalStep(s, front, last);
      RemovalDropsKey(RemoveEach(s, front), last);
      OneKeyMore(Keys(front), Canon(last), s.records.Keys);
      DroppedOneByOne(s.records, Keys(front), Canon(last));
    }
  }

  /** Each record dropped spends one generation; the historical counter stays as it is stored. */
  lemma {:induction false} BatchRemovalBumps(s: Slots, names: seq<Name>)
    requires s.initialized
    ensures RemoveEach(s, names).generation == (s.generation + RemovedIn(s, names)) % 0x1_0000_0000
    ensures RemoveEach(s, names).initialized && RemoveEach(s, names).everVerified == s.everVerified
  {
    hide Canon, Remove, Dropped, RemoveEach, RemovedIn;
    RemovingNothing(s);
    if names != [] {
      var front, last := names[..|names| - 1], names[|names| - 1];
      assert front + [last] == names;
      BatchRemovalBumps(s, front);
      RemovalStep(s, front, last);
      RemovalDropsKey(RemoveEach(s, front), last);
      var dropped := if Canon(last) in RemoveEach(s, front).records then 1 else 0;
      WrappingAddsUp(s.generation, RemovedIn(s, front), dropped);
    }
  }

  lemma {:induction false} BatchRemovalKeeps(s: Slots, names: seq<Name>)
    requires Consistent(s)
    ensures Consistent(RemoveEach(s, names))
  {
    hide Consistent, Remove;
    if names != [] {
      var front, last := names[..|names| - 1], names[|names| - 1];
      BatchRemovalKeeps(s, front);
      if Remove(RemoveEach(s, front), last).Ok? {
        RemoveKeeps(RemoveEach(s, front), last);
      }
    }
  }
}
