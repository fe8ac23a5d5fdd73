/** Runs of the verifier allowlist against the plain map from address to expiry. */
module VerifierAllowlistRuns {
  import opened ByteStrings
  import opened MachineWords
  import opened VerifierAllowlist

  datatype Call =
    | Add(who: Address, expiresAt: U64, at: U64)
    | Drop(who: Address, at: U64)
    | Prune(at: U64)

  /** A refused call is rolled back by the host. */
  function Step(list: seq<Entry>, c: Call): seq<Entry> {
    match c
    case Add(who, expiresAt, at) => (match Added(list, who, expiresAt, at) case Ok(l) => l case Err(_) => list)
    case Drop(who, at) => (match Dropped(list, who, at) case Ok(l) => l case Err(_) => list)
    case Prune(at) => Pruned(list, at)
  }

  function Run(calls: seq<Call>): seq<Entry> {
    if calls == [] then [] else Step(Run(calls[..|calls| - 1]), calls[|calls| - 1])
  }

  // ---- the ideal: nothing is ever pruned ----

  type Expiries = map<Address, U64>

  /** A member is active before its expiry, and always with an expiry of zero. */
  predicate Active(m: Expiries, a: Address, now: U64) {
    a in m && (m[a] == 0 || now < m[a])
  }

  function ActiveMembers(m: Expiries, now: U64): set<Address> {
    set a | a in m && Active(m, a, now)
  }

  function IdealStep(m: Expiries, c: Call): Expiries {
    match c
    case Add(who, expiresAt, at) =>
      if expiresAt != 0 && expiresAt <= at then m
      else if !Active(m, who, at) && |ActiveMembers(m, at)| >= 10 then m
      else m[who := expiresAt]
    case Drop(who, at) => m - {who}
    case Prune(_) => m
  }

  function IdealRun(calls: seq<Call>): Expiries {
    if calls == [] then map[] else IdealStep(IdealRun(calls[..|calls| - 1]), calls[|calls| - 1])
  }

  // ---- the vector stands for the map from `now` on ----

  ghost predicate StandsFor(list: seq<Entry>, m: Expiries, now: U64) {
    && DistinctAddresses(list) && |list| <= 10
    && (forall i :: 0 <= i < |list| && LiveAt(list[i].expiresAt, now) ==>
          list[i].address in m && m[list[i].address] == list[i].expiresAt)
    && (forall a :: a in m && LiveAt(m[a], now) ==>
          Find(list, a) < |list| && list[Find(list, a)].expiresAt == m[a])
  }

  /** Once it stands for the map, the vector answers as the map does, now and at every later time. */
  lemma AnswersAgree(list: seq<Entry>, m: Expiries, now: U64, a: Address, later: U64)
    requires StandsFor(list, m, now) && now <= later
    ensures StandsFor(list, m, later)
    ensures IsActive(list, a, later) <==> Active(m, a, later)
  {
  }

  lemma {:induction false} FindIsUnique(list: seq<Entry>, i: nat)
    requires DistinctAddresses(list) && i < |list|
    ensures Find(list, list[i].address) == i
  {
  }

  lemma {:induction false} AddressCount(list: seq<Entry>, addresses: set<Address>)
    requires DistinctAddresses(list)
    requires forall a :: a in addresses <==> Find(list, a) < |list|
    ensures |addresses| == |list|
  {
    if list == [] {
      assert addresses == {};
    } else {
      var front, last := list[..|list| - 1], list[|list| - 1];
      FindIsUnique(list, |list| - 1);
      AddressCount(front, addresses - {last.address});
    }
  }

  /** After pruning, the stored entries are the active members one for one. */
  lemma {:induction false} PrunedCountsActive(list: seq<Entry>, m: Expiries, now: U64)
    requires StandsFor(list, m, now)
    ensures StandsFor(Pruned(list, now), m, now)
    ensures |Pruned(list, now)| == |ActiveMembers(m, now)|
    ensures forall a :: Find(Pruned(list, now), a) < |Pruned(list, now)| <==> Active(m, a, now)
  {
    var kept := Pruned(list, now);
    PrunedDistinct(list, now);
    forall a
      ensures Find(kept, a) < |kept| <==> Active(m, a, now)
      ensures Active(m, a, now) ==> kept[Find(kept, a)].expiresAt == m[a]
    {
      PrunedHolds(list, m, now, a);
    }
    AddressCount(kept, ActiveMembers(m, now));
  }

  lemma {:induction false} PrunedHolds(list: seq<Entry>, m: Expiries, now: U64, a: Address)
    requires StandsFor(list, m, now)
    ensures var kept := Pruned(list, now);
            && (Find(kept, a) < |kept| <==> Active(m, a, now))
            && (Active(m, a, now) ==> kept[Find(kept, a)].expiresAt == m[a])
  {
    var kept := Pruned(list, now);
    if Find(kept, a) < |kept| {
      var e := kept[Find(kept, a)];
      assert e in kept && e in list && LiveAt(e.expiresAt, now);
    }
    if Active(m, a, now) {
      var e := list[Find(list, a)];
      assert e in list && e in kept;
      var k :| 0 <= k < |kept| && kept[k] == e;
      PrunedDistinct(list, now);
      FindIsUnique(kept, k);
    }
  }

  /** A valid add is refused as full exactly when ten members are active and the address is not one of them. */
  lemma FullExactlyWhenTenActive(list: seq<Entry>, m: Expiries, who: Address, expiresAt: U64, now: U64)
    requires StandsFor(list, m, now)
    ensures Added(list, who, expiresAt, now) == Err(ListFull)
            <==> (expiresAt == 0 || expiresAt > now)
                 && |ActiveMembers(m, now)| == 10 && !Active(m, who, now)
  {
    PrunedCountsActive(list, m, now);
  }

  lemma {:induction false} RefreshStands(kept: seq<Entry>, m: Expiries, entry: Entry, now: U64)
    requires StandsFor(kept, m, now) && Find(kept, entry.address) < |kept|
    ensures StandsFor(kept[Find(kept, entry.address) := entry], m[entry.address := entry.expiresAt], now)
  {
    hide Find;
    var i, m' := Find(kept, entry.address), m[entry.address := entry.expiresAt];
    var next := kept[i := entry];
    forall a | a in m' && LiveAt(m'[a], now)
      ensures Find(next, a) < |next| && next[Find(next, a)].expiresAt == m'[a]
    {
      FindIsUnique(next, if a == entry.address then i else Find(kept, a));
    }
  }

  lemma {:induction false} AppendStands(kept: seq<Entry>, m: Expiries, entry: Entry, now: U64)
    requires StandsFor(kept, m, now) && Find(kept, entry.address) == |kept| < MAX_VERIFIERS
    ensures StandsFor(kept + [entry], m[entry.address := entry.expiresAt], now)
  {
    hide Find;
    var m', next := m[entry.address := entry.expiresAt], kept + [entry];
    assert DistinctAddresses(next);
    forall a | a in m' && LiveAt(m'[a], now)
      ensures Find(next, a) < |next| && next[Find(next, a)].expiresAt == m'[a]
    {
      FindIsUnique(next, if a == entry.address then |kept| else Find(kept, a));
    }
  }

  lemma AddStands(list: seq<Entry>, m: Expiries, who: Address, expiresAt: U64, at: U64)
    requires StandsFor(list, m, at)
    ensures StandsFor(Step(list, Add(who, expiresAt, at)), IdealStep(m, Add(who, expiresAt, at)), at)
  {
    hide Pruned, Find, StandsFor;
    PrunedCountsActive(list, m, at);
    if Added(list, who, expiresAt, at).Ok? {
      var kept, entry := Pruned(list, at), Entry(who, expiresAt, at);
      if Find(kept, who) < |kept| {
        RefreshStands(kept, m, entry, at);
      } else {
        AppendStands(kept, m, entry, at);
      }
    } else {
      FullExactlyWhenTenActive(list, m, who, expiresAt, at);
    }
  }

  lemma DropStands(list: seq<Entry>, m: Expiries, who: Address, at: U64)
    requires StandsFor(list, m, at)
    ensures StandsFor(Step(list, Drop(who, at)), IdealStep(m, Drop(who, at)), at)
  {
    hide Pruned, Find, Without;
    if Dropped(list, who, at).Ok? {
      var kept := Pruned(list, at);
      var next := Without(kept, who);
      PrunedCountsActive(list, m, at);
      WithoutDistinct(kept, who);
      WithoutIsShorter(kept, who);
      assert forall i :: 0 <= i < |next| ==> next[i] in next;
      forall a | a in m - {who} && LiveAt(m[a], at)
        ensures Find(next, a) < |next| && next[Find(next, a)].expiresAt == m[a]
      {
        var e := kept[Find(kept, a)];
        assert e in kept && e in next;
        var k :| 0 <= k < |next| && next[k] == e;
        FindIsUnique(next, k);
      }
    }
  }

  lemma {:induction false} WithoutIsShorter(list: seq<Entry>, a: Address)
    ensures |Without(list, a)| <= |list|
  {
    if list != [] {
      WithoutIsShorter(list[..|list| - 1], a);
    }
  }

  /** A removal is refused only for an inactive address, and after a prune for exactly those. */
  lemma {:induction false} RemovalRefusedExactly(list: seq<Entry>, m: Expiries, who: Address, now: U64)
    requires StandsFor(list, m, now)
    ensures Dropped(list, who, now).Err? ==> !Active(m, who, now)
    ensures Dropped(Pruned(list, now), who, now).Err? <==> !Active(m, who, now)
  {
    PrunedCountsActive(list, m, now);
  }

  predicate ClockOnlyAdvances(calls: seq<Call>) {
    forall i, j :: 0 <= i < j < |calls| ==> calls[i].at <= calls[j].at
  }

  /**
    Over any sequence of calls with a clock that does not go back, the pruned
    vector answers every question from then on as the unpruned map would.
   */
  lemma {:induction false} RunStandsForIdeal(calls: seq<Call>, now: U64)
    requires ClockOnlyAdvances(calls) && (forall i :: 0 <= i < |calls| ==> calls[i].at <= now)
    ensures StandsFor(Run(calls), IdealRun(calls), now)
    ensures forall a, later: U64 :: now <= later ==>
              (IsActive(Run(calls), a, later) <==> Active(IdealRun(calls), a, later))
  {
    hide StandsFor, Step, IdealStep, IsActive, Active;
    if calls == [] {
      EmptyStands(now);
    } else {
      var front, last := calls[..|calls| - 1], calls[|calls| - 1];
      var list, m := Run(front), IdealRun(front);
      RunStandsForIdeal(front, last.at);
      StepStands(list, m, last);
      AnswersAgree(Step(list, last), IdealStep(m, last), last.at, Address([]), now);
    }
    forall a, later: U64 | now <= later
      ensures IsActive(Run(calls), a, later) <==> Active(IdealRun(calls), a, later)
    {
      AnswersAgree(Run(calls), IdealRun(calls), now, a, later);
    }
  }

  lemma EmptyStands(now: U64)
    ensures StandsFor([], map[], now)
  {
  }

  lemma StepStands(list: seq<Entry>, m: Expiries, c: Call)
    requires StandsFor(list, m, c.at)
    ensures StandsFor(Step(list, c), IdealStep(m, c), c.at)
  {
    match c
    case Add(who, expiresAt, at) => AddStands(list, m, who, expiresAt, at);
    case Drop(who, at) => DropStands(list, m, who, at);
    case Prune(at) => PrunedCountsActive(list, m, at);
  }
}
