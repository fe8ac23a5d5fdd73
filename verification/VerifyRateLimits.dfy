/** The per-verifier, per-ledger cap on verify and revoke units. */
module VerifyRateLimits {
  import opened ByteStrings
  import opened MachineWords

  const DEFAULT_VERIFIES_PER_LEDGER: U32 := 20

  /** The ledger of an address's last accepted charge, and what it has spent there. */
  datatype Spend = Spend(ledger: U32, units: U32)

  type Spends = map<Address, Spend>

  datatype Charge = Charge(who: Address, units: U32, ledger: U32)

  /** Units already spent in `ledger`: a counter from another ledger has rolled over. */
  function SpentIn(spends: Spends, who: Address, ledger: U32): U32 {
    if who in spends && spends[who].ledger == ledger then spends[who].units else 0
  }

  predicate Fits(limit: U32, spends: Spends, c: Charge) {
    limit == 0 || SaturatingAdd(SpentIn(spends, c.who, c.ledger), c.units) <= limit
  }

  function Charged(limit: U32, spends: Spends, c: Charge): Spends {
    if limit == 0 || !Fits(limit, spends, c) then spends
    else spends[c.who := Spend(c.ledger, SaturatingAdd(SpentIn(spends, c.who, c.ledger), c.units))]
  }

  class RateLimiter {
    var configured: Option<U32>
    var spends: Spends

    constructor ()
      ensures configured == None && spends == map[] && Limit() == 20
    {
      configured, spends := None, map[];
    }

    function Limit(): U32
      reads this
    {
      match configured
      case None => DEFAULT_VERIFIES_PER_LEDGER
      case Some(limit) => limit
    }

    method SetVerifyLimit(limit: U32)
      modifies this`configured
      ensures Limit() == limit
    {
      configured := Some(limit);
    }

    method ChargeVerifyRate(verifier: Address, units: U32, ledger: U32) returns (ok: bool)
      modifies this`spends
      ensures ok == Fits(Limit(), old(spends), Charge(verifier, units, ledger))
      ensures spends == Charged(Limit(), old(spends), Charge(verifier, units, ledger))
      ensures !ok ==> spends == old(spends)
    {
      var limit := Limit();
      if limit == 0 {
        return true;
      }
      var seqNo: U32, spent: U32 := 0, 0;
      if verifier in spends {
        seqNo, spent := spends[verifier].ledger, spends[verifier].units;
      }
      var spentThisLedger := if seqNo == ledger then spent else 0;
      var next := SaturatingAdd(spentThisLedger, units);
      if next > limit {
        return false;
      }
      spends := spends[verifier := Spend(ledger, next)];
      return true;
    }

    method VerifyUnitsSpent(verifier: Address, ledger: U32) returns (units: U32)
      ensures units == SpentIn(spends, verifier, ledger)
    {
      if verifier in spends && spends[verifier].ledger == ledger {
        return spends[verifier].units;
      }
      return 0;
    }
  }

  /** A limit of zero accepts every charge and keeps no account of it. */
  lemma ZeroIsUnlimited(spends: Spends, c: Charge)
    ensures Fits(0, spends, c) && Charged(0, spends, c) == spends
  {
  }

  /** Otherwise an accepted charge is added to its address's spend of that ledger, and a refused one to nothing. */
  lemma ChargeOutcome(limit: U32, spends: Spends, c: Charge, other: Address, ledger: U32)
    requires limit > 0
    ensures var after := Charged(limit, spends, c);
            && (Fits(limit, spends, c) <==> Min(SpentIn(spends, c.who, c.ledger) + c.units, U32_MAX) <= limit)
            && (Fits(limit, spends, c) ==>
                  SpentIn(after, c.who, c.ledger) == Min(SpentIn(spends, c.who, c.ledger) + c.units, U32_MAX))
            && (other != c.who || !Fits(limit, spends, c) ==>
                  SpentIn(after, other, ledger) == SpentIn(spends, other, ledger))
  {
  }

  // ---- runs of charges under one limit ----

  function Run(limit: U32, calls: seq<Charge>): Spends {
    if calls == [] then map[]
    else
      var n := |calls| - 1;
      Charged(limit, Run(limit, calls[..n]), calls[n])
  }

  /** Ground truth: the units of every accepted charge of `who` in `ledger`, counted from the history. */
  function AcceptedUnits(limit: U32, calls: seq<Charge>, who: Address, ledger: U32): nat {
    if calls == [] then 0
    else
      var n := |calls| - 1;
      var last := calls[n];
      AcceptedUnits(limit, calls[..n], who, ledger)
      + (if last.who == who && last.ledger == ledger && Fits(limit, Run(limit, calls[..n]), last)
         then last.units else 0)
  }

  predicate LedgersOnlyAdvance(calls: seq<Charge>) {
    forall i, j :: 0 <= i < j < |calls| ==> calls[i].ledger <= calls[j].ledger
  }

  lemma {:induction false} NothingAcceptedInUnreachedLedger(limit: U32, calls: seq<Charge>, who: Address, ledger: U32)
    requires forall i :: 0 <= i < |calls| ==> calls[i].ledger < ledger
    ensures AcceptedUnits(limit, calls, who, ledger) == 0
  {
    if calls != [] {
      NothingAcceptedInUnreachedLedger(limit, calls[..|calls| - 1], who, ledger);
    }
  }

  /** The stored counter is the ledger's accepted total, and no ledger's total passes the limit. */
  lemma {:induction false} StoredSpendIsAcceptedTotal(limit: U32, calls: seq<Charge>, who: Address, ledger: U32)
    requires 0 < limit < U32_MAX && LedgersOnlyAdvance(calls)
    ensures AcceptedUnits(limit, calls, who, ledger) <= limit
    ensures (forall i :: 0 <= i < |calls| ==> calls[i].ledger <= ledger) ==>
              SpentIn(Run(limit, calls), who, ledger) == AcceptedUnits(limit, calls, who, ledger)
  {
    if calls != [] {
      var n := |calls| - 1;
      StoredSpendIsAcceptedTotal(limit, calls[..n], who, ledger);
      if calls[n].ledger < ledger {
        NothingAcceptedInUnreachedLedger(limit, calls[..n], who, ledger);
      }
    }
  }

  /** A charge is accepted exactly when it keeps its ledger's accepted total within the limit. */
  lemma {:induction false} AcceptedExactlyWithinCap(limit: U32, calls: seq<Charge>, c: Charge)
    requires 0 < limit < U32_MAX && LedgersOnlyAdvance(calls + [c])
    ensures Fits(limit, Run(limit, calls), c) <==> AcceptedUnits(limit, calls, c.who, c.ledger) + c.units <= limit
  {
    var all := calls + [c];
    assert forall i :: 0 <= i < |calls| ==> all[i] == calls[i] && all[i].ledger <= all[|calls|].ledger;
    assert LedgersOnlyAdvance(calls);
    StoredSpendIsAcceptedTotal(limit, calls, c.who, c.ledger);
  }

  ghost predicate CapHolds(limit: U32) {
    forall calls, who, ledger {:induction false} ::
      LedgersOnlyAdvance(calls) ==> AcceptedUnits(limit, calls, who, ledger) <= limit
  }

  /** The cap binds for every limit but the two that disable it: zero, and the saturation point. */
  lemma CapHoldsExactly(limit: U32)
    ensures CapHolds(limit) <==> 0 < limit < U32_MAX
  {
    if 0 < limit < U32_MAX {
      forall calls, who, ledger | LedgersOnlyAdvance(calls)
        ensures AcceptedUnits(limit, calls, who, ledger) <= limit
      {
        StoredSpendIsAcceptedTotal(limit, calls, who, ledger);
      }
    } else {
      var who := Address([]);
      var c := Charge(who, U32_MAX, 7);
      assert [c, c][..1] == [c] && [c][..0] == [];
      assert Fits(limit, map[], c) && Fits(limit, Run(limit, [c]), c);
      assert AcceptedUnits(limit, [c], who, 7) == U32_MAX;
      assert AcceptedUnits(limit, [c, c], who, 7) == 2 * U32_MAX;
    }
  }

  /** The charges one address made. */
  function ChargesOf(calls: seq<Charge>, who: Address): seq<Charge> {
    if calls == [] then []
    else
      var n := |calls| - 1;
      ChargesOf(calls[..n], who) + (if calls[n].who == who then [calls[n]] else [])
  }

  /** Addresses do not share a budget: what one has stored and had accepted is what its own charges alone would give. */
  lemma {:induction false} ChargesAreIndependent(limit: U32, calls: seq<Charge>, who: Address, ledger: U32)
    ensures var all, own := Run(limit, calls), Run(limit, ChargesOf(calls, who));
            (who in all <==> who in own) && (who in all ==> all[who] == own[who])
    ensures AcceptedUnits(limit, calls, who, ledger) == AcceptedUnits(limit, ChargesOf(calls, who), who, ledger)
  {
    if calls != [] {
      var n := |calls| - 1;
      var own := ChargesOf(calls[..n], who);
      ChargesAreIndependent(limit, calls[..n], who, ledger);
      assert (own + [calls[n]])[..|own|] == own;
      assert ChargesOf(calls, who) == if calls[n].who == who then own + [calls[n]] else own;
    }
  }
}
