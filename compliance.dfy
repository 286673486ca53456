/** ComplianceService: banking a year's surplus, applying banked surplus to
    a deficit year and the adjusted CB, over an in-memory ledger standing in
    for the bank_entries and bank_entries_applied tables. */
module Compliance {
  import opened Outcomes
  import opened BankLedger

  /** One bank_entries_applied row: banked surplus applied to a deficit year. */
  datatype AppliedEntry = AppliedEntry(shipId: ShipId, year: int, amount: real)

  /** Sum of the amounts applied to `ship` in `year`, folded from the front
      as the service's reduce does. */
  function AppliedTotal(applied: seq<AppliedEntry>, ship: ShipId, year: int): real
  {
    if applied == [] then 0.0
    else (if applied[0].shipId == ship && applied[0].year == year then applied[0].amount else 0.0)
         + AppliedTotal(applied[1..], ship, year)
  }

  /** Recording one application adds its amount to its own ship and year
      and to no other. */
  lemma {:induction false} AppliedTotalAppend(applied: seq<AppliedEntry>, a: AppliedEntry, ship: ShipId, year: int)
    ensures AppliedTotal(applied + [a], ship, year)
         == AppliedTotal(applied, ship, year) + (if a.shipId == ship && a.year == year then a.amount else 0.0)
  {
    if applied == [] {
      assert [a][1..] == [];
    } else {
      assert (applied + [a])[1..] == applied[1..] + [a];
      AppliedTotalAppend(applied[1..], a, ship, year);
    }
  }

  /** Applied amounts are positive, so the total per ship and year is too. */
  lemma {:induction false} AppliedTotalNonNegative(applied: seq<AppliedEntry>, ship: ShipId, year: int)
    ensures (forall i :: 0 <= i < |applied| ==> applied[i].amount > 0.0) ==>
      AppliedTotal(applied, ship, year) >= 0.0
  {
    if applied != [] {
      AppliedTotalNonNegative(applied[1..], ship, year);
    }
  }

  class ComplianceService {
    /** The CB of each ship and year that has routes (getOrComputeCB); a
        ship-year without routes has no entry. */
    const routeCB: map<(ShipId, int), real>
    /** bank_entries per ship, in the order the repository query returns. */
    var bank: map<ShipId, seq<BankEntry>>
    /** bank_entries_applied, in insertion order. */
    var applied: seq<AppliedEntry>

    ghost predicate Valid()
      reads this
    {
      && (forall s :: s in bank ==> WellFormed(bank[s]))
      && (forall i :: 0 <= i < |applied| ==> applied[i].amount > 0.0)
    }

    constructor (routeCB: map<(ShipId, int), real>)
      ensures Valid()
      ensures this.routeCB == routeCB && bank == map[] && applied == []
    {
      this.routeCB := routeCB;
      bank := map[];
      applied := [];
    }

    /** The stored entries of `ship` (none before its first banking). */
    function Entries(ship: ShipId): (es: seq<BankEntry>)
      reads this
      ensures Valid() ==> WellFormed(es)
    {
      if ship in bank then bank[ship] else []
    }

    /** getOrComputeCB: the ship-year's CB, or the "no routes" error. */
    function ComputeCB(ship: ShipId, year: int): (r: Result<real>)
      ensures r.Success? <==> (ship, year) in routeCB
      ensures r.Success? ==> r.value == routeCB[(ship, year)]
      ensures r.Failure? ==> r.error == NoRoutes(ship, year)
    {
      if (ship, year) in routeCB then Success(routeCB[(ship, year)]) else Failure(NoRoutes(ship, year))
    }

    /** getBankRecords: the entries the query returns, oldest first, adding
        up to what can still be applied. */
    function GetBankRecords(ship: ShipId): (rs: seq<BankEntry>)
      reads this
      ensures forall i :: 0 <= i < |rs| ==> rs[i].amount > 0.0
      ensures forall e :: e in rs <==> e in Entries(ship) && e.amount > 0.0
      ensures Available(rs) == Available(Entries(ship))
      ensures Valid() ==> YearOrdered(rs)
      ensures multiset(rs) <= multiset(Entries(ship))
      ensures forall e: BankEntry :: e.amount > 0.0 ==> multiset(rs)[e] == multiset(Entries(ship))[e]
    {
      PositiveMultiset(Entries(ship));
      PositiveTotal(Entries(ship));
      PositiveOrdered(Entries(ship));
      Positive(Entries(ship))
    }

    /** getAdjustedCB: the raw CB raised by every amount applied to that
        ship and year; never below the raw CB. */
    function GetAdjustedCB(ship: ShipId, year: int): (r: Result<real>)
      reads this
      ensures r.Failure? <==> ComputeCB(ship, year).Failure?
      ensures r.Failure? ==> r.error == NoRoutes(ship, year)
      ensures r.Success? ==> r.value == ComputeCB(ship, year).value + AppliedTotal(applied, ship, year)
      ensures r.Success? && Valid() ==> r.value >= ComputeCB(ship, year).value
    {
      AppliedTotalNonNegative(applied, ship, year);
      match ComputeCB(ship, year)
      case Failure(e) => Failure(e)
      case Success(cb) => Success(cb + AppliedTotal(applied, ship, year))
    }

    /** bankSurplus: a positive CB becomes one new bank entry in its year's
        place; otherwise nothing is stored. */
    method BankSurplus(ship: ShipId, year: int) returns (r: Outcome)
      requires Valid()
      modifies this
      ensures Valid()
      ensures applied == old(applied)
      ensures ComputeCB(ship, year).Failure? ==> r == Fail(NoRoutes(ship, year)) && bank == old(bank)
      ensures ComputeCB(ship, year).Success? && ComputeCB(ship, year).value <= 0.0 ==>
        r == Fail(NoSurplus) && bank == old(bank)
      ensures r.Pass? <==> ComputeCB(ship, year).Success? && ComputeCB(ship, year).value > 0.0
      ensures r.Pass? ==>
        && bank == old(bank)[ship := InsertByYear(old(Entries(ship)), BankEntry(year, ComputeCB(ship, year).value))]
        && Available(Entries(ship)) == old(Available(Entries(ship))) + ComputeCB(ship, year).value
    {
      var cb := ComputeCB(ship, year);
      if cb.Failure? {
        return Fail(cb.error);
      }
      if cb.value <= 0.0 {
        return Fail(NoSurplus);
      }
      var entry := BankEntry(year, cb.value);
      InsertWellFormed(Entries(ship), entry);
      InsertTotal(Entries(ship), entry);
      bank := bank[ship := InsertByYear(Entries(ship), entry)];
      r := Pass;
    }

    /** The deduction loop of applyBankedSurplus: walk the ship's entries
        oldest first, stop once nothing remains to deduct and take
        min(entry, remaining) from each entry the query returns. */
    method DeductFifo(ship: ShipId, amount: real)
      requires ship in bank
      modifies this
      ensures bank == old(bank)[ship := Drain(old(bank[ship]), amount)]
      ensures applied == old(applied)
    {
      ghost var start := bank[ship];
      var entries := bank[ship];
      var remaining := amount;
      var i := 0;
      while i < |entries|
        invariant |entries| == |start| && 0 <= i <= |start|
        invariant bank == old(bank)[ship := entries] && applied == old(applied)
        invariant entries[i..] == start[i..]
        invariant entries[..i] + Drain(start[i..], remaining) == Drain(start, amount)
      {
        if remaining <= 0.0 {
          break;
        }
        ghost var prev, before := entries, remaining;
        var entry := entries[i];
        assert entry == start[i] by { assert entries[i..][0] == start[i..][0]; }
        if entry.amount > 0.0 {
          var deduct := Min(entry.amount, remaining);
          entries := entries[i := entry.(amount := entry.amount - deduct)];
          bank := bank[ship := entries];
          remaining := remaining - deduct;
        } else {
          // the query does not return this entry: it is left alone
          assert entries == prev[i := Deducted(entry, before)];
        }
        DrainStep(prev, start, i, before, amount, entries, remaining);
        i := i + 1;
      }
      assert entries == entries[..i] + entries[i..];
    }

    /** applyBankedSurplus: three checks, in order and first failure wins,
        then the FIFO deduction of `amount` from the ship's entries and one
        applied record. Nothing changes on failure. */
    method ApplyBankedSurplus(ship: ShipId, deficitYear: int, amount: real) returns (r: Outcome)
      requires Valid()
      modifies this
      ensures Valid()
      ensures amount <= 0.0 ==> r == Fail(InvalidAmount)
      ensures amount > 0.0 && ComputeCB(ship, deficitYear).Failure? ==> r == Fail(NoRoutes(ship, deficitYear))
      ensures amount > 0.0 && ComputeCB(ship, deficitYear).Success? && ComputeCB(ship, deficitYear).value >= 0.0 ==>
        r == Fail(NotADeficit)
      ensures amount > 0.0 && ComputeCB(ship, deficitYear).Success? && ComputeCB(ship, deficitYear).value < 0.0
              && amount > old(Available(Entries(ship))) ==>
        r == Fail(InsufficientFunds(old(Available(Entries(ship))), amount))
      ensures r.Pass? <==> amount > 0.0 && ComputeCB(ship, deficitYear).Success?
                           && ComputeCB(ship, deficitYear).value < 0.0 && amount <= old(Available(Entries(ship)))
      ensures r.Fail? ==> bank == old(bank) && applied == old(applied)
      ensures r.Pass? ==>
        && bank == old(bank)[ship := Drain(old(Entries(ship)), amount)]
        && applied == old(applied) + [AppliedEntry(ship, deficitYear, amount)]
        && Available(Entries(ship)) == old(Available(Entries(ship))) - amount
        && GetAdjustedCB(ship, deficitYear).value == old(GetAdjustedCB(ship, deficitYear).value) + amount
    {
      if amount <= 0.0 {
        return Fail(InvalidAmount);
      }
      var deficit := ComputeCB(ship, deficitYear);
      if deficit.Failure? {
        return Fail(deficit.error);
      }
      if deficit.value >= 0.0 {
        return Fail(NotADeficit);
      }
      var totalAvailable := Available(Entries(ship));
      if amount > totalAvailable {
        return Fail(InsufficientFunds(totalAvailable, amount));
      }
      assert ship in bank;  // the check above saw a positive total
      ghost var start := Entries(ship);
      DeductFifo(ship, amount);
      DrainTotal(start, amount);
      DrainWellFormed(start, amount);
      AppliedTotalAppend(applied, AppliedEntry(ship, deficitYear, amount), ship, deficitYear);
      applied := applied + [AppliedEntry(ship, deficitYear, amount)];
      r := Pass;
    }
  }

  /** One step of the deduction loop: taking entry `i` into the finished
      prefix keeps the loop's picture of the final store. */
  lemma {:induction false} DrainStep(cur: seq<BankEntry>, start: seq<BankEntry>, i: int, remaining: real, amount: real,
                                     next: seq<BankEntry>, left: real)
    requires |cur| == |start| && 0 <= i < |start| && remaining > 0.0
    requires cur[i..] == start[i..]
    requires cur[..i] + Drain(start[i..], remaining) == Drain(start, amount)
    requires next == cur[i := Deducted(start[i], remaining)]
    requires left == remaining - Taken(start[i], remaining)
    ensures |next| == |start|
    ensures next[i + 1..] == start[i + 1..]
    ensures next[..i + 1] + Drain(start[i + 1..], left) == Drain(start, amount)
  {
    var tail := start[i..];
    var h := Deducted(start[i], remaining);
    assert tail[0] == start[i] && tail[1..] == start[i + 1..];
    assert Drain(tail, remaining) == [h] + Drain(start[i + 1..], left);
    assert next[..i + 1] == cur[..i] + [h];
    assert next[i + 1..] == cur[i + 1..];
    assert cur[i + 1..] == tail[1..];
  }
}
