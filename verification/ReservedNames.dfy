/** The reserved username list: a stored vector that behaves as a set of canonical keys. */
module ReservedNames {
  import opened MachineWords
  import opened NameKeys
  import opened Usernames

  const MAX_RESERVED := 200

  datatype ReserveError = AlreadyReserved | ReservedListFull | NotReserved

  ghost predicate AllValid(list: seq<Name>) {
    forall i :: 0 <= i < |list| ==> IsValid(list[i])
  }

  /** The list without the entry at a position. */
  function Cut(list: seq<Name>, at: nat): seq<Name>
    requires at < |list|
  {
    list[..at] + list[at + 1..]
  }

  /** Cutting out one entry of a distinct list takes its key away, and no other. */
  lemma {:induction false} CutDropsKey(list: seq<Name>, at: nat)
    requires DistinctUpToCase(list) && AllValid(list) && at < |list|
    ensures DistinctUpToCase(Cut(list, at)) && AllValid(Cut(list, at))
    ensures Keys(Cut(list, at)) == Keys(list) - {Canon(list[at])}
    ensures Canon(list[at]) in Keys(list)
  {
    hide Canon, Keys, IsValid;
    var rest, k := Cut(list, at), Canon(list[at]);
    assert forall i :: 0 <= i < |rest| ==> rest[i] == list[if i < at then i else i + 1];
    assert forall i :: 0 <= i < |list| && i != at ==> list[i] == rest[if i < at then i else i - 1];
    KeysAreCanons(list, k);
    forall x
      ensures x in Keys(rest) <==> x in Keys(list) && x != k
    {
      KeysAreCanons(rest, x);
      KeysAreCanons(list, x);
    }
  }

  /** Before `i`, only the entry at `at` (or none yet) folds to the key. */
  ghost predicate OnlyAt(entries: seq<Name>, i: nat, target: Name, found: bool, at: nat) {
    && i <= |entries| && (found ==> at < i && Canon(entries[at]) == target)
    && (forall j :: 0 <= j < i && !(found && j == at) ==> Canon(entries[j]) != target)
  }

  lemma OnlyAtStep(entries: seq<Name>, i: nat, target: Name, found: bool, at: nat)
    requires OnlyAt(entries, i, target, found, at) && DistinctUpToCase(entries) && i < |entries|
    ensures if Canon(entries[i]) == target then !found && OnlyAt(entries, i + 1, target, true, i)
            else OnlyAt(entries, i + 1, target, found, at)
  {
  }

  lemma NothingBefore(entries: seq<Name>, target: Name)
    ensures OnlyAt(entries, 0, target, false, 0)
  {
  }

  lemma FoundIsTarget(entries: seq<Name>, target: Name, at: nat)
    requires OnlyAt(entries, |entries|, target, true, at)
    ensures at < |entries| && Canon(entries[at]) == target
  {
  }

  lemma {:induction false} NotAmongKeys(entries: seq<Name>, target: Name)
    requires OnlyAt(entries, |entries|, target, false, 0)
    ensures target !in Keys(entries)
  {
    KeysAreCanons(entries, target);
  }

  class ReservedList {
    var list: seq<Name>

    constructor ()
      ensures Valid() && Keys(list) == {}
    {
      list := [];
    }

    /** Entries are valid names (checked on entry), distinct up to case, and within the cap. */
    ghost predicate Valid()
      reads this
    {
      && AllValid(list)
      && DistinctUpToCase(list)
      && |list| <= MAX_RESERVED
    }

    /** Membership is by key, for any byte string asked about. */
    method IsReserved(username: Name) returns (reserved: bool)
      requires Valid()
      ensures reserved <==> Canon(username) in Keys(list)
    {
      hide Canon, IsValid, EqIgnoreCase, Keys, DistinctUpToCase;
      KeysAreCanons(list, Canon(username));
      for i := 0 to |list|
        invariant forall j :: 0 <= j < i ==> Canon(list[j]) != Canon(username)
      {
        EqIgnoreCaseAgainstValid(list[i], username);
        var same := EqIgnoreAsciiCase(list[i], username);
        if same {
          return true;
        }
      }
      return false;
    }

    method AddToReserved(username: Name) returns (r: Result<bool, ReserveError>)
      requires Valid() && IsValid(username)
      modifies this
      ensures Valid()
      ensures r == Err(AlreadyReserved) <==> Canon(username) in old(Keys(list))
      ensures r == Err(ReservedListFull) <==>
              Canon(username) !in old(Keys(list)) && |old(Keys(list))| == 200
      ensures r.Ok? ==> Keys(list) == old(Keys(list)) + {Canon(username)} && list == old(list) + [username]
      ensures r.Err? ==> list == old(list)
    {
      hide Canon, IsValid, Keys, DistinctUpToCase;
      KeyCountExactly(list);
      var reserved := IsReserved(username);
      if reserved {
        return Err(AlreadyReserved);
      }
      if |list| >= MAX_RESERVED {
        return Err(ReservedListFull);
      }
      KeysOfAppend(list, username);
      DistinctOfAppend(list, username);
      list := list + [username];
      return Ok(true);
    }

    method RemoveFromReserved(username: Name) returns (r: Result<bool, ReserveError>)
      requires Valid()
      modifies this
      ensures Valid()
      ensures r.Ok? <==> Canon(username) in old(Keys(list))
      ensures r.Err? ==> r == Err(NotReserved) && list == old(list)
      ensures r.Ok? ==> exists i :: 0 <= i < |old(list)|
                          && Canon(old(list)[i]) == Canon(username) && list == Cut(old(list), i)
      ensures Keys(list) == old(Keys(list)) - {Canon(username)}
    {
      hide Canon, IsValid, EqIgnoreCase, Keys, DistinctUpToCase, OnlyAt;
      var entries, target := list, Canon(username);
      var remaining: seq<Name> := [];
      var found := false;
      ghost var at := 0;
      NothingBefore(entries, target);
      for i := 0 to |entries|
        invariant list == entries && OnlyAt(entries, i, target, found, at)
        invariant found ==> at < i && remaining == entries[..at] + entries[at + 1..i]
        invariant !found ==> at == 0 && remaining == entries[..i]
      {
        var entry := entries[i];
        OnlyAtStep(entries, i, target, found, at);
        EqIgnoreCaseAgainstValid(entry, username);
        var same := EqIgnoreAsciiCase(entry, username);
        if same {
          found, at := true, i;
        } else {
          remaining := remaining + [entry];
        }
      }
      if !found {
        NotAmongKeys(entries, target);
        return Err(NotReserved);
      }
      FoundIsTarget(entries, target, at);
      assert remaining == Cut(entries, at);
      CutDropsKey(entries, at);
      list := remaining;
      return Ok(true);
    }
  }
}
