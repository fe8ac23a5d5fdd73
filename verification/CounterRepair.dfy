/** What a repair of drifted counters brings them back to. */
module CounterRepair {
  import opened Cardinality
  import opened ExportLeaves
  import opened MachineWords
  import opened NameKeys
  import opened RegistryState
  import opened Usernames

  /** No record is listed at two positions; names without a record may be listed anywhere. */
  ghost predicate ListedOnce(records: map<Name, Record>, names: seq<Name>) {
    forall i, j :: 0 <= i < j < |names| && Canon(names[i]) in records ==> Canon(names[i]) != Canon(names[j])
  }

  ghost predicate AllListed(records: map<Name, Record>, names: seq<Name>) {
    forall k :: k in records ==> k in Keys(names)
  }

  lemma OneKeyListed(keys: set<Name>, k: Name, stored: set<Name>)
    requires k !in keys * stored
    ensures |(keys + {k}) * stored| == |keys * stored| + (if k in stored then 1 else 0)
  {
    if k in stored {
      assert (keys + {k}) * stored == keys * stored + {k};
    } else {
      assert (keys + {k}) * stored == keys * stored;
    }
  }

  /** The recount finds each listed record once, and each verified one among them once. */
  lemma {:induction false} RecountIsExact(records: map<Name, Record>, names: seq<Name>)
    requires ListedOnce(records, names)
    ensures |LiveEntries(records, names)| == |Keys(names) * records.Keys|
    ensures VerifiedListed(records, names) == |Keys(names) * VerifiedNames(records)|
  {
    if names != [] {
      hide Canon, Keys, VerifiedNames;
      var front, last := names[..|names| - 1], names[|names| - 1];
      assert front + [last] == names;
      RecountIsExact(records, front);
      KeysOfAppend(front, last);
      LastIsNew(records, front, last);
      VerifiedIsRecorded(records, Canon(last));
      OneKeyListed(Keys(front), Canon(last), records.Keys);
      OneKeyListed(Keys(front), Canon(last), VerifiedNames(records));
    } else {
      assert Keys([]) * records.Keys == {};
      assert Keys([]) * VerifiedNames(records) == {};
    }
  }

  lemma {:induction false} LastIsNew(records: map<Name, Record>, front: seq<Name>, last: Name)
    requires ListedOnce(records, front + [last])
    ensures Canon(last) in records ==> Canon(last) !in Keys(front)
  {
    hide Canon, Keys;
    var names := front + [last];
    KeysAreCanons(front, Canon(last));
    assert forall i :: 0 <= i < |front| ==> names[i] == front[i];
    assert names[|front|] == last;
  }

  lemma VerifiedIsRecorded(records: map<Name, Record>, k: Name)
    ensures k in VerifiedNames(records) <==> k in records && records[k].verified
  {
  }

  /**
    Whatever the counters were: when no record is listed twice, an applied
    repair sets the total to the number of listed records and the verified count
    to the verified ones among them, and changes nothing else. The total is then
    the number of all records exactly when every record is listed, and in that
    case the verified count is the number of all verified records.
   */
  lemma RepairRestoresCounters(s: Slots)
    requires s.initialized && ListedOnce(s.records, s.index)
    ensures var r := Repair(s, true);
            && r.Ok? && r.value == s.(count := r.value.count, verifiedCount := r.value.verifiedCount)
            && r.value.count == |Keys(s.index) * s.records.Keys|
            && r.value.verifiedCount == |Keys(s.index) * VerifiedNames(s.records)|
            && (r.value.count == |s.records| <==> AllListed(s.records, s.index))
            && (AllListed(s.records, s.index) ==> r.value.verifiedCount == |VerifiedNames(s.records)|)
  {
    hide Canon, Keys, LiveEntries, VerifiedListed;
    RecountIsExact(s.records, s.index);
    var listed := Keys(s.index) * s.records.Keys;
    SubsetSize(listed, s.records.Keys);
    assert |s.records| == |s.records.Keys|;
    if AllListed(s.records, s.index) {
      assert listed == s.records.Keys;
      assert Keys(s.index) * VerifiedNames(s.records) == VerifiedNames(s.records);
    } else {
      var k :| k in s.records && k !in Keys(s.index);
      assert k !in listed;
    }
  }

  /** A dry run never changes anything. */
  lemma DryRunKeeps(s: Slots)
    requires s.initialized
    ensures Repair(s, false) == Ok(s)
  {
  }
}
