/**
  What each call does, said by what is read afterwards: which record every
  spelling of a name resolves to, which calls are admitted and with which
  error the others are refused, and which slots a call leaves alone.
 */
module RegistryOutcomes {
  import opened BatchRemoval
  import opened BatchVerification
  import opened ByteStrings
  import opened ChunkedIndex
  import opened ExportLeaves
  import opened MachineWords
  import opened RegistryState
  import opened Usernames

  /** A fresh registry has nobody, and neither clock nor window. */
  lemma FreshIsEmpty(name: Name, now: U64)
    ensures GetRecord(FreshSlots, name).None? && FreshSlots.index == [] && FreshSlots.count == 0
    ensures EverRead(FreshSlots) == 0 && FreshSlots.everVerified.Some? && FreshSlots.generation == 0
    ensures name !in FreshSlots.verifiedAt && FreshSlots.expiresIn.None? && !Expired(FreshSlots, name, now)
  {
  }

  // ---- what a name resolves to ----

  /** The old record under every spelling of the new name, addresses and bot flag kept, verification and date not. */
  lemma RenameOutcome(s: Slots, from: Name, to: Name, now: U64, spelling: Name)
    requires Rename(s, from, to, now).Ok?
    ensures var t, old' := Rename(s, from, to, now).value, GetRecord(s, from).value;
            && (Canon(spelling) == Canon(from) ==> GetRecord(t, spelling).None?)
            && (Canon(spelling) == Canon(to) != Canon(from) ==>
                  var r := GetRecord(t, spelling);
                  && r.Some? && !r.value.verified
                  && r.value.stellarAddress == old'.stellarAddress && r.value.payoutAddress == old'.payoutAddress
                  && r.value.isBot == old'.isBot && r.value.registeredAt == Truncate(now))
  {
  }

  /** A rotation moves the identity address and nothing else that is paid to or flagged, and drops verification. */
  lemma RotationOutcome(
      s: Slots, name: Name, pending: Option<Rotation>, now: U64, spelling: Name)
    requires Rotate(s, name, pending, now).Ok? && Canon(spelling) == Canon(name)
    ensures var r, old' := GetRecord(Rotate(s, name, pending, now).value, spelling), GetRecord(s, name).value;
            && r.Some? && !r.value.verified
            && r.value.stellarAddress == pending.value.newAddress && r.value.payoutAddress == old'.payoutAddress
            && r.value.isBot == old'.isBot && r.value.registeredAt == Truncate(now)
  {
  }

  lemma VerifyOutcome(s: Slots, name: Name, now: U64, spelling: Name)
    requires Verify(s, name, now).Ok? && Canon(spelling) == Canon(name)
    ensures var t, old' := Verify(s, name, now).value, GetRecord(s, name).value;
            && GetRecord(t, spelling) == Some(old'.(verified := true))
            && name in t.verifiedAt && t.verifiedAt[name] == now
  {
  }

  lemma RevokeOutcome(s: Slots, name: Name, spelling: Name)
    requires Revoke(s, name).Ok? && Canon(spelling) == Canon(name)
    ensures var t, old' := Revoke(s, name).value, GetRecord(s, name).value;
            GetRecord(t, spelling) == Some(old'.(verified := false)) && name !in t.verifiedAt
  {
  }

  lemma MarkBotOutcome(s: Slots, name: Name, isBot: bool, spelling: Name)
    requires MarkBot(s, name, isBot).Ok? && Canon(spelling) == Canon(name)
    ensures var r, old' := GetRecord(MarkBot(s, name, isBot).value, spelling), GetRecord(s, name).value;
            && r.Some? && r.value.isBot == isBot
            && r.value.stellarAddress == old'.stellarAddress && r.value.payoutAddress == old'.payoutAddress
            && r.value.registeredAt == old'.registeredAt && r.value.verified == old'.verified
  {
  }

  lemma RemovalOutcome(s: Slots, name: Name, spelling: Name)
    requires Remove(s, name).Ok? && Canon(spelling) == Canon(name)
    ensures GetRecord(Remove(s, name).value, spelling).None? && Canon(name) !in Remove(s, name).value.index
  {
  }

  /** The window that was set is the one read from then on: no later setting is accepted, and clocks run by it. */
  lemma ConfigureOutcome(s: Slots, window: U64, other: U64, name: Name, now: U64)
    requires Configure(s, window).Ok?
    ensures var t := Configure(s, window).value;
            && Configure(t, other) == Err(AlreadyInitialized)
            && (Expired(t, name, now) <==>
                  window > 0 && name in s.verifiedAt && now >= Min(s.verifiedAt[name] + window, U64_MAX))
  {
  }

  /** Without a window, or with one of zero, no verification ever lapses. */
  lemma NoWindowNoExpiry(s: Slots, name: Name, now: U64)
    requires s.expiresIn == None || s.expiresIn == Some(0)
    ensures !Expired(s, name, now)
  {
  }

  // ---- which calls are admitted ----

  /** A full host vector, or a page count about to overflow, is what stops an append. */
  lemma CanAppendExactly(s: Slots, name: Name)
    ensures CanAppend(s) <==>
            |s.index| + 1 <= 0xFFFF_FFFF && Appended(s.chunks, s.chunkCount, name).1 <= 0xFFFF_FFFF
  {
  }

  lemma RegisterAdmission(s: Slots, name: Name, owner: Address, now: U64)
    ensures var r := Register(s, name, owner, now);
            && (r == Err(NotInitialized) <==> !s.initialized)
            && (r == Err(InvalidUsername) <==> s.initialized && !IsValid(name))
            && (r == Err(ZeroAddress) <==> s.initialized && IsValid(name) && owner == ZERO_ADDRESS)
            && (r.Ok? <==> s.initialized && IsValid(name) && owner != ZERO_ADDRESS
                           && (GetRecord(s, name).Some? || CanAppend(s)))
  {
    hide IsValid, Canon, Appended;
  }

  lemma RemoveAdmission(s: Slots, name: Name)
    ensures var r := Remove(s, name);
            && (r == Err(NotInitialized) <==> !s.initialized)
            && (r == Err(NotRegistered) <==> s.initialized && GetRecord(s, name).None?)
            && (r.Ok? <==> s.initialized && GetRecord(s, name).Some?)
  {
  }

  lemma RenameAdmission(s: Slots, from: Name, to: Name, now: U64)
    ensures var r, known := Rename(s, from, to, now), s.initialized && GetRecord(s, from).Some?;
            var sensible := IsValid(to) && to != from;
            && (r == Err(NotInitialized) <==> !s.initialized)
            && (r == Err(NotRegistered) <==> s.initialized && GetRecord(s, from).None?)
            && (r == Err(InvalidUsername) <==> known && !sensible)
            && (r == Err(UsernameTaken) <==> known && sensible && to in s.records)
            && (r.Ok? <==> known && sensible && to !in s.records && CanAppend(s))
  {
    hide IsValid, Canon, Appended, Removed, Without;
  }

  lemma VerifyAdmission(s: Slots, name: Name, now: U64)
    ensures var r, known := Verify(s, name, now), s.initialized && GetRecord(s, name).Some?;
            var bound := known && GetRecord(s, name).value.stellarAddress != ZERO_ADDRESS;
            var active := known && GetRecord(s, name).value.verified && !Expired(s, name, now);
            && (r == Err(NotInitialized) <==> !s.initialized)
            && (r == Err(NotRegistered) <==> s.initialized && GetRecord(s, name).None?)
            && (r == Err(ZeroAddress) <==> known && !bound)
            && (r == Err(AlreadyVerified) <==> bound && active)
            && (r.Ok? <==> bound && !active)
  {
  }

  lemma RevokeAdmission(s: Slots, name: Name)
    ensures var r, known := Revoke(s, name), s.initialized && GetRecord(s, name).Some?;
            && (r == Err(NotInitialized) <==> !s.initialized)
            && (r == Err(NotRegistered) <==> s.initialized && GetRecord(s, name).None?)
            && (r == Err(NotVerified) <==> known && !GetRecord(s, name).value.verified)
            && (r.Ok? <==> known && GetRecord(s, name).value.verified)
  {
  }

  lemma RotateAdmission(s: Slots, name: Name, pending: Option<Rotation>, now: U64)
    ensures var r, known := Rotate(s, name, pending, now), s.initialized && GetRecord(s, name).Some?;
            && (r == Err(NotInitialized) <==> !s.initialized)
            && (r == Err(NotRegistered) <==> s.initialized && GetRecord(s, name).None?)
            && (r == Err(NoRotationPending) <==> known && pending.None?)
            && (r == Err(RotationNotReady) <==> known && pending.Some? && now < pending.value.executableAt)
            && (r.Ok? <==> known && pending.Some? && now >= pending.value.executableAt)
  {
  }

  lemma MarkBotAdmission(s: Slots, name: Name, isBot: bool)
    ensures var r := MarkBot(s, name, isBot);
            && (r == Err(NotInitialized) <==> !s.initialized)
            && (r == Err(NotRegistered) <==> s.initialized && GetRecord(s, name).None?)
            && (r.Ok? <==> s.initialized && GetRecord(s, name).Some?)
  {
  }

  lemma ChallengeAdmission(s: Slots, name: Name, resolveAfter: Option<U64>, now: U64)
    ensures var r, due := ResolveChallenge(s, name, resolveAfter, now), resolveAfter.Some? && now >= resolveAfter.value;
            && (r == Err(NotInitialized) <==> !s.initialized)
            && (r == Err(NoChallengeActive) <==> s.initialized && resolveAfter.None?)
            && (r == Err(ChallengeNotResolvable) <==> s.initialized && resolveAfter.Some? && now < resolveAfter.value)
            && (r == Err(NotRegistered) <==> s.initialized && due && GetRecord(s, name).None?)
            && (r.Ok? <==> s.initialized && due && GetRecord(s, name).Some?)
            && (r.Ok? ==> r == Remove(s, name))
  {
  }

  lemma ConfigureAdmission(s: Slots, window: U64)
    ensures var r := Configure(s, window);
            && (r == Err(NotInitialized) <==> !s.initialized)
            && (r == Err(AlreadyInitialized) <==> s.initialized && s.expiresIn.Some?)
            && (r.Ok? <==> s.initialized && s.expiresIn.None?)
  {
  }

  lemma BatchAdmission(s: Slots, names: seq<Name>, now: U64)
    ensures var v, r, sized := BatchVerify(s, names, now), BatchRemove(s, names), 1 <= |names| <= 25;
            && (v == Err(NotInitialized) <==> !s.initialized) && (r == Err(NotInitialized) <==> !s.initialized)
            && (v == Err(InvalidBatchSize) <==> s.initialized && !sized)
            && (r == Err(InvalidBatchSize) <==> s.initialized && !sized)
            && (v.Ok? <==> s.initialized && sized) && (r.Ok? <==> s.initialized && sized)
  {
  }

  /** Both batches report how many names were asked for, how many succeeded and failed, and the rounded rate. */
  lemma {:induction false} BatchReports(s: Slots, names: seq<Name>, now: U64)
    requires s.initialized && 1 <= |names| <= 25
    ensures var v, r := BatchVerify(s, names, now).value.1, BatchRemove(s, names).value.1;
            && v.total == r.total == |names|
            && v.successful == |Queued(s, names, now)| && r.successful == RemovedIn(s, names)
            && v.failed == |names| - v.successful && r.failed == |names| - r.successful
            && 2 * (100 * v.successful) < (2 * v.successRate + 1) * |names|
            && (2 * v.successRate - 1) * |names| <= 2 * (100 * v.successful)
            && 2 * (100 * r.successful) < (2 * r.successRate + 1) * |names|
            && (2 * r.successRate - 1) * |names| <= 2 * (100 * r.successful)
  {
    hide Summarize, Percentage, Queued, RemovedIn, RemoveEach, BatchVerified;
  }

  lemma MaintenanceAdmission(s: Slots, apply: bool)
    ensures Compact(s) == Err(NotInitialized) <==> !s.initialized
    ensures Repair(s, apply) == Err(NotInitialized) <==> !s.initialized
    ensures Compact(s).Ok? <==> s.initialized
    ensures Repair(s, apply).Ok? <==> s.initialized
  {
  }
}
