/**
  The capped verifier allowlist, whose lapsed members are pruned lazily, and
  the plain map from address to expiry it must be indistinguishable from.
 */
module VerifierAllowlist {
  import opened ByteStrings
  import opened MachineWords

  const MAX_VERIFIERS := 10

  datatype Entry = Entry(address: Address, expiresAt: U64, addedAt: U64)

  datatype ListError = ExpiryInPast | ListFull | NotListed

  /** Zero never expires. */
  predicate LiveAt(expiresAt: U64, now: U64) {
    expiresAt == 0 || now < expiresAt
  }

  function Pruned(list: seq<Entry>, now: U64): (kept: seq<Entry>)
    ensures |kept| <= |list|
    ensures forall e :: e in kept <==> e in list && LiveAt(e.expiresAt, now)
  {
    if list == [] then []
    else
      var kept, last := Pruned(list[..|list| - 1], now), list[|list| - 1];
      if LiveAt(last.expiresAt, now) then kept + [last] else kept
  }

  /** Position of an address, or the length when it is not listed. */
  function Find(list: seq<Entry>, a: Address): (i: nat)
    ensures i <= |list|
    ensures i < |list| ==> list[i].address == a
    ensures forall j :: 0 <= j < i ==> list[j].address != a
  {
    if list == [] then 0
    else
      var i := Find(list[..|list| - 1], a);
      if i < |list| - 1 then i
      else if list[|list| - 1].address == a then |list| - 1 else |list|
  }

  predicate IsActive(list: seq<Entry>, a: Address, now: U64) {
    var i := Find(list, a);
    i < |list| && LiveAt(list[i].expiresAt, now)
  }

  ghost predicate DistinctAddresses(list: seq<Entry>) {
    forall i, j :: 0 <= i < j < |list| ==> list[i].address != list[j].address
  }

  function Without(list: seq<Entry>, a: Address): (r: seq<Entry>)
    ensures forall e :: e in r <==> e in list && e.address != a
  {
    if list == [] then []
    else
      var front, last := Without(list[..|list| - 1], a), list[|list| - 1];
      if last.address == a then front else front + [last]
  }

  // ---- what the helpers do to the stored vector ----

  function Added(list: seq<Entry>, a: Address, expiresAt: U64, now: U64): Result<seq<Entry>, ListError> {
    if expiresAt != 0 && expiresAt <= now then Err(ExpiryInPast)
    else
      var kept := Pruned(list, now);
      var i := Find(kept, a);
      if i < |kept| then Ok(kept[i := Entry(a, expiresAt, now)])
      else if |kept| >= MAX_VERIFIERS then Err(ListFull)
      else Ok(kept + [Entry(a, expiresAt, now)])
  }

  function Dropped(list: seq<Entry>, a: Address, now: U64): Result<seq<Entry>, ListError> {
    if Find(list, a) == |list| then Err(NotListed) else Ok(Without(Pruned(list, now), a))
  }

  lemma AddedDistinct(list: seq<Entry>, a: Address, expiresAt: U64, now: U64)
    requires DistinctAddresses(list)
    ensures Added(list, a, expiresAt, now).Ok? ==> DistinctAddresses(Added(list, a, expiresAt, now).value)
  {
    hide Pruned, Find;
    PrunedDistinct(list, now);
  }

  /**
    An accepted addition leaves one entry of the address, with that expiry and
    the instant it was made; the others stay in place, the lapsed ones gone.
   */
  lemma {:induction false} AdditionOutcome(list: seq<Entry>, a: Address, expiresAt: U64, now: U64)
    requires DistinctAddresses(list) && Added(list, a, expiresAt, now).Ok?
    ensures var next := Added(list, a, expiresAt, now).value;
            && Entry(a, expiresAt, now) in next
            && |Pruned(list, now)| <= |next| <= |Pruned(list, now)| + 1
            && (forall k :: 0 <= k < |Pruned(list, now)| ==> next[k].address == Pruned(list, now)[k].address)
            && (forall e :: e in next && e.address == a ==> e == Entry(a, expiresAt, now))
            && (forall e :: e in next && e.address != a <==>
                  e in list && e.address != a && (e.expiresAt == 0 || now < e.expiresAt))
  {
    hide Pruned, Find;
    PrunedDistinct(list, now);
    var kept, i := Pruned(list, now), Find(Pruned(list, now), a);
    if i < |kept| {
      var next := kept[i := Entry(a, expiresAt, now)];
      assert next[i] == Entry(a, expiresAt, now);
      forall e | e in kept && e.address != a
        ensures e in next
      {
        var k :| 0 <= k < |kept| && kept[k] == e;
        assert next[k] == e;
      }
    } else {
      forall e | e in kept
        ensures e.address != a
      {
        var k :| 0 <= k < |kept| && kept[k] == e;
      }
    }
  }

  /** A removal is refused exactly for an address with no entry, lapsed or not, and leaves the others' live entries. */
  lemma DropOutcome(list: seq<Entry>, a: Address, now: U64)
    ensures Dropped(list, a, now) == Err(NotListed) <==> forall e :: e in list ==> e.address != a
    ensures Dropped(list, a, now).Ok? <==> exists e :: e in list && e.address == a
    ensures Dropped(list, a, now).Ok? ==>
              forall e :: e in Dropped(list, a, now).value <==>
                            e in list && e.address != a && (e.expiresAt == 0 || now < e.expiresAt)
  {
    hide Pruned, Without, Find;
    if Find(list, a) < |list| {
      assert list[Find(list, a)] in list;
    }
  }

  // ---- the stored machine ----

  class AllowlistStore {
    /** Missing until the first member is added; present, even if empty, ever after. */
    var stored: Option<seq<Entry>>

    function List(): seq<Entry>
      reads this
    {
      match stored
      case None => []
      case Some(list) => list
    }

    ghost predicate Valid()
      reads this
    {
      DistinctAddresses(List())
    }

    constructor ()
      ensures Valid() && stored == None
    {
      stored := None;
    }

    predicate VerifierAllowlistActive()
      reads this
    {
      stored.Some?
    }

    method PruneExpiredVerifiers(now: U64) returns (removed: nat)
      modifies this
      ensures List() == Pruned(old(List()), now) && removed == |old(List())| - |List()|
      ensures VerifierAllowlistActive() == old(VerifierAllowlistActive())
    {
      hide Pruned;
      var list := List();
      var kept: seq<Entry> := [];
      removed := 0;
      PrunedNone(now);
      for k := 0 to |list|
        invariant stored == old(stored)
        invariant kept == Pruned(list[..k], now) && removed + |kept| == k
      {
        assert list[..k + 1] == list[..k] + [list[k]];
        PrunedOfAppend(list[..k], list[k], now);
        if list[k].expiresAt != 0 && now >= list[k].expiresAt {
          removed := removed + 1;
        } else {
          kept := kept + [list[k]];
        }
      }
      assert list[..|list|] == list;
      if removed > 0 {
        stored := Some(kept);
      } else {
        PrunedAll(list, now);
      }
    }

    method IsActiveVerifier(a: Address, now: U64) returns (active: bool)
      ensures active == IsActive(List(), a, now)
    {
      var list := List();
      for k := 0 to |list|
        invariant forall j :: 0 <= j < k ==> list[j].address != a
      {
        if list[k].address == a {
          return LiveAt(list[k].expiresAt, now);
        }
      }
      return false;
    }

    method ActiveVerifierCount(now: U64) returns (n: nat)
      ensures n == |Pruned(List(), now)|
    {
      var list := List();
      n := 0;
      for k := 0 to |list|
        invariant n == |Pruned(list[..k], now)|
      {
        assert list[..k + 1][..k] == list[..k];
        if list[k].expiresAt == 0 || now < list[k].expiresAt {
          n := n + 1;
        }
      }
      assert list[..|list|] == list;
    }

    /** A full list is found out only after pruning; the host rolls that back with the error. */
    method AddVerifier(a: Address, expiresAt: U64, now: U64) returns (r: Result<bool, ListError>)
      requires Valid()
      modifies this
      ensures Valid()
      ensures match Added(old(List()), a, expiresAt, now)
              case Ok(list) => r == Ok(true) && stored == Some(list)
              case Err(e) => r == Err(e) && List() == if e == ListFull then Pruned(old(List()), now) else old(List())
    {
      if expiresAt != 0 && expiresAt <= now {
        return Err(ExpiryInPast);
      }
      hide Pruned, Find, DistinctAddresses;
      PrunedDistinct(List(), now);
      AddedDistinct(List(), a, expiresAt, now);
      var _ := PruneExpiredVerifiers(now);
      var list, entry := List(), Entry(a, expiresAt, now);
      var next, refreshed := RefreshIn(list, entry);
      if !refreshed {
        if |next| >= MAX_VERIFIERS {
          return Err(ListFull);
        }
        next := next + [entry];
      }
      stored := Some(next);
      return Ok(true);
    }

    /** Copies the list, replacing the entry of the same address if there is one. */
    static method RefreshIn(list: seq<Entry>, entry: Entry) returns (next: seq<Entry>, refreshed: bool)
      requires DistinctAddresses(list)
      ensures refreshed <==> Find(list, entry.address) < |list|
      ensures next == if refreshed then list[Find(list, entry.address) := entry] else list
    {
      hide Find;
      next, refreshed := [], false;
      ghost var i := Find(list, entry.address);
      for k := 0 to |list|
        invariant |next| == k && refreshed == (i < k)
        invariant forall j :: 0 <= j < k ==> next[j] == if j == i then entry else list[j]
      {
        if list[k].address == entry.address {
          next := next + [entry];
          refreshed := true;
        } else {
          next := next + [list[k]];
        }
      }
    }

    method RemoveVerifier(a: Address, now: U64) returns (r: Result<bool, ListError>)
      requires Valid()
      modifies this
      ensures Valid()
      ensures match Dropped(old(List()), a, now)
              case Ok(list) => r == Ok(true) && stored == Some(list)
              case Err(e) => r == Err(e) && stored == old(stored)
    {
      hide Pruned, Without, Find;
      var list := List();
      var next: seq<Entry> := [];
      var found := false;
      PrunedNone(now);
      WithoutNone(a);
      for k := 0 to |list|
        invariant stored == old(stored)
        invariant next == Without(Pruned(list[..k], now), a)
        invariant found <==> Find(list, a) < k
      {
        assert list[..k + 1] == list[..k] + [list[k]];
        PrunedOfAppend(list[..k], list[k], now);
        WithoutOfAppend(Pruned(list[..k], now), list[k], a);
        if list[k].address == a {
          found := true;
        } else if list[k].expiresAt != 0 && now >= list[k].expiresAt {
        } else {
          next := next + [list[k]];
        }
      }
      assert list[..|list|] == list;
      if !found {
        return Err(NotListed);
      }
      PrunedDistinct(list, now);
      WithoutDistinct(Pruned(list, now), a);
      stored := Some(next);
      return Ok(true);
    }
  }

  lemma {:induction false} PrunedNone(now: U64)
    ensures Pruned([], now) == []
  {
  }

  lemma {:induction false} WithoutNone(a: Address)
    ensures Without([], a) == []
  {
  }

  lemma {:induction false} PrunedOfAppend(list: seq<Entry>, e: Entry, now: U64)
    ensures Pruned(list + [e], now) == if LiveAt(e.expiresAt, now) then Pruned(list, now) + [e] else Pruned(list, now)
  {
    assert (list + [e])[..|list|] == list;
  }

  lemma {:induction false} WithoutOfAppend(list: seq<Entry>, e: Entry, a: Address)
    ensures Without(list + [e], a) == if e.address == a then Without(list, a) else Without(list, a) + [e]
  {
    assert (list + [e])[..|list|] == list;
  }

  lemma {:induction false} PrunedAll(list: seq<Entry>, now: U64)
    requires |Pruned(list, now)| == |list|
    ensures Pruned(list, now) == list
  {
    if list != [] {
      PrunedAll(list[..|list| - 1], now);
    }
  }

  lemma {:induction false} PrunedDistinct(list: seq<Entry>, now: U64)
    requires DistinctAddresses(list)
    ensures DistinctAddresses(Pruned(list, now))
  {
    if list != [] {
      var front := list[..|list| - 1];
      PrunedDistinct(front, now);
      assert forall e :: e in Pruned(front, now) ==> e in front && e.address != list[|list| - 1].address;
    }
  }

  lemma {:induction false} WithoutDistinct(list: seq<Entry>, a: Address)
    requires DistinctAddresses(list)
    ensures DistinctAddresses(Without(list, a))
  {
    if list != [] {
      var front := list[..|list| - 1];
      WithoutDistinct(front, a);
      assert forall e :: e in Without(front, a) ==> e in front && e.address != list[|list| - 1].address;
    }
  }
}
