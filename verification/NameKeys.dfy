/** The set of storage keys a list of names stands for. */
module NameKeys {
  import opened Usernames

  function Keys(list: seq<Name>): (keys: set<Name>)
    ensures forall n :: n in list ==> Canon(n) in keys
    ensures |keys| <= |list|
  {
    if list == [] then {} else Keys(list[..|list| - 1]) + {Canon(list[|list| - 1])}
  }

  /** No two entries fold to the same key. */
  ghost predicate DistinctUpToCase(list: seq<Name>) {
    forall i, j :: 0 <= i < j < |list| ==> Canon(list[i]) != Canon(list[j])
  }

  lemma {:induction false} KeysAreCanons(list: seq<Name>, k: Name)
    ensures k in Keys(list) <==> exists i :: 0 <= i < |list| && Canon(list[i]) == k
  {
    if list != [] {
      var front := list[..|list| - 1];
      KeysAreCanons(front, k);
      assert forall i :: 0 <= i < |front| ==> front[i] == list[i];
    }
  }

  lemma {:induction false} KeysOfAppend(list: seq<Name>, name: Name)
    ensures Keys(list + [name]) == Keys(list) + {Canon(name)}
  {
    assert (list + [name])[..|list|] == list;
  }

  lemma {:induction false} DistinctOfAppend(list: seq<Name>, name: Name)
    ensures DistinctUpToCase(list + [name]) <==> DistinctUpToCase(list) && Canon(name) !in Keys(list)
  {
    hide Canon, Keys;
    var all := list + [name];
    KeysAreCanons(list, Canon(name));
    assert forall i :: 0 <= i < |list| ==> all[i] == list[i];
    if i :| 0 <= i < |list| && Canon(list[i]) == Canon(name) {
      assert Canon(all[i]) == Canon(all[|list|]);
    }
    if i, j :| 0 <= i < j < |list| && Canon(list[i]) == Canon(list[j]) {
      assert Canon(all[i]) == Canon(all[j]);
    }
  }

  /** A list stands for as many keys as it has entries exactly when no two entries are case variants. */
  lemma {:induction false} KeyCountExactly(list: seq<Name>)
    ensures |Keys(list)| == |list| <==> DistinctUpToCase(list)
  {
    if list != [] {
      hide Canon, Keys, DistinctUpToCase;
      var front, last := list[..|list| - 1], list[|list| - 1];
      assert front + [last] == list;
      KeyCountExactly(front);
      DistinctOfAppend(front, last);
      KeysOfAppend(front, last);
    }
  }
}
