/** Concrete runs of the two services, each pinned down by the services'
    contracts alone. */
module Scenarios {
  import opened Outcomes
  import opened PoolOrder
  import opened Pooling
  import opened BankLedger
  import opened Compliance

  /** Two deficit ships: the pool total is negative, so nothing is
      allocated and nothing is committed. */
  method AllDeficitsRejected() returns (r: Result<seq<PoolMember>>, committed: seq<PoolRecord>)
    ensures r == Failure(PoolInfeasible)
    ensures committed == []
  {
    var service := new PoolingService();
    var members := [MemberInput("A", -100.0), MemberInput("B", -50.0)];
    assert TotalBefore(members) == -150.0 by {
      assert members[..1] == [members[0]];
    }
    r := service.CreatePool(2025, members);
    committed := service.pools;
  }

  /** One surplus of 100 and one deficit of -50: the deficit is brought to
      zero and the surplus keeps 50, deficit listed first. */
  method OneSurplusOneDeficit() returns (r: Result<seq<PoolMember>>)
    ensures r == Success([PoolMember("D", -50.0, 0.0), PoolMember("S", 100.0, 50.0)])
  {
    var service := new PoolingService();
    var members := [MemberInput("S", 100.0), MemberInput("D", -50.0)];
    TwoShipOrder(members);
    r := service.CreatePool(2025, members);
    var ps := r.value;
    TwoShipOutcome(members, ps);
  }

  /** The sweep visits the deficit first, then the surplus. */
  lemma {:induction false} TwoShipOrder(members: seq<MemberInput>)
    requires members == [MemberInput("S", 100.0), MemberInput("D", -50.0)]
    ensures |Deficits(members)| == 1
    ensures Ordered(members) == [members[1], members[0]]
    ensures TotalBefore(members) == 50.0
  {
    TwoShipPartition(members[0], members[1]);
    SortOne(members[1], false);
    SortOne(members[0], true);
    assert members[..1] == [members[0]];
  }

  /** A surplus followed by a deficit splits into one of each. */
  lemma {:induction false} TwoShipPartition(s: MemberInput, d: MemberInput)
    requires s.cbBefore >= 0.0 && d.cbBefore < 0.0
    ensures Deficits([s, d]) == [d] && Surpluses([s, d]) == [s]
  {
    assert [s, d][1..] == [d] && [d][1..] == [];
    assert Deficits([d]) == [d] + Deficits([]);
    assert Surpluses([d]) == Surpluses([]);
    assert Deficits([s, d]) == Deficits([d]);
    assert Surpluses([s, d]) == [s] + Surpluses([d]);
  }

  /** Sorting a single member leaves it alone. */
  lemma {:induction false} SortOne(m: MemberInput, descending: bool)
    ensures SortBy([m], descending) == [m]
  {
    assert [m][1..] == [];
  }

  /** What createPool promises fixes both balances of the two-ship pool. */
  lemma {:induction false} TwoShipOutcome(members: seq<MemberInput>, ps: seq<PoolMember>)
    requires members == [MemberInput("S", 100.0), MemberInput("D", -50.0)]
    requires |Deficits(members)| == 1 && Ordered(members) == [members[1], members[0]]
    requires Carries(ps, Ordered(members)) && TotalAfter(ps) == 50.0
    requires |Deficits(members)| <= |ps| && AllSettled(ps[..|Deficits(members)|])
    ensures ps == [PoolMember("D", -50.0, 0.0), PoolMember("S", 100.0, 50.0)]
  {
    assert |ps| == 2 && ps[..1][0] == ps[0];
    assert ps[0].cbAfter == 0.0;
    assert ps[1..][0] == ps[1] && ps[1..][1..] == [];
    assert TotalAfter(ps[1..][1..]) == 0.0;
    assert TotalAfter(ps[1..]) == ps[1].cbAfter;
  }

  /** Surpluses 100 and 20 against deficits -50 and -80 add up to -10, so
      createPool rejects the pool before any allocation. */
  method ShortPoolRejected() returns (r: Result<seq<PoolMember>>)
    ensures r == Failure(PoolInfeasible)
  {
    var service := new PoolingService();
    var members := [MemberInput("S1", 100.0), MemberInput("D1", -50.0), MemberInput("S2", 20.0), MemberInput("D2", -80.0)];
    assert TotalBefore(members) == -10.0 by {
      assert members[..3][..2] == [members[0], members[1]];
      assert members[..3][..2][..1] == [members[0]];
    }
    r := service.CreatePool(2025, members);
  }

  /** A surplus member driven to -10 by a faulty allocation is caught by the
      validation and the pool is not committed. */
  method FaultyAllocationCaught() returns (r: Result<seq<PoolMember>>, committed: seq<PoolRecord>)
    ensures r == Failure(SurplusNegative("S1"))
    ensures committed == []
  {
    var service := new PoolingService();
    var finalMembers := [PoolMember("S1", 100.0, -10.0), PoolMember("D1", -50.0, -50.0)];
    r := service.ValidateAndCommit(2025, finalMembers);
    assert !Admissible(finalMembers[0]);
    assert forall i :: FirstViolationAt(finalMembers, i) ==> i == 0;
    committed := service.pools;
  }

  /** The ship's CB per year: surpluses of 30 in 2023 and 50 in 2024, a
      deficit of -100 in 2025. */
  const FifoCBs: map<(ShipId, int), real> :=
    map[("S", 2023) := 30.0, ("S", 2024) := 50.0, ("S", 2025) := -100.0]

  /** Banking 2023 on a fresh ledger stores that one entry. */
  method BankFirstYear() returns (ledger: ComplianceService)
    ensures fresh(ledger) && ledger.Valid() && ledger.routeCB == FifoCBs
    ensures ledger.Entries("S") == [BankEntry(2023, 30.0)]
    ensures ledger.applied == []
  {
    ledger := new ComplianceService(FifoCBs);
    assert ledger.ComputeCB("S", 2023) == Success(30.0);
    var r := ledger.BankSurplus("S", 2023);
    InsertNewestAppends([], BankEntry(2023, 30.0));
  }

  /** Banking 2023 and then 2024 stores both, oldest first. */
  method BankTwoYears() returns (ledger: ComplianceService)
    ensures fresh(ledger) && ledger.Valid() && ledger.routeCB == FifoCBs
    ensures ledger.Entries("S") == [BankEntry(2023, 30.0), BankEntry(2024, 50.0)]
    ensures ledger.applied == []
  {
    ledger := BankFirstYear();
    assert ledger.ComputeCB("S", 2024) == Success(50.0);
    var r := ledger.BankSurplus("S", 2024);
    InsertNewestAppends([BankEntry(2023, 30.0)], BankEntry(2024, 50.0));
  }

  /** 30 banked for 2023 and 50 for 2024; applying 40 to the 2025 deficit
      empties the 2023 entry, leaves 40 of the 2024 one and records one
      application of 40. */
  method FifoApplication() returns (entries: seq<BankEntry>, applied: seq<AppliedEntry>, adjusted: Result<real>)
    ensures entries == [BankEntry(2023, 0.0), BankEntry(2024, 40.0)]
    ensures applied == [AppliedEntry("S", 2025, 40.0)]
    ensures adjusted == Success(-60.0)
  {
    var ledger := BankTwoYears();
    var es := ledger.Entries("S");
    assert Available(es) == 80.0 by {
      var last := [BankEntry(2024, 50.0)];
      assert es[1..] == last && last[1..] == [];
      assert Available(last) == 50.0;
    }
    var r3 := ledger.ApplyBankedSurplus("S", 2025, 40.0);
    DrainExample();
    entries := ledger.Entries("S");
    applied := ledger.applied;
    assert [AppliedEntry("S", 2025, 40.0)][1..] == [];
    adjusted := ledger.GetAdjustedCB("S", 2025);
  }

  /** Asking for 100 when 80 is banked fails with both figures and changes
      nothing. */
  method OverdrawRejected() returns (r: Outcome, entries: seq<BankEntry>)
    ensures r == Fail(InsufficientFunds(80.0, 100.0))
    ensures entries == [BankEntry(2024, 80.0)]
  {
    var cbs := map[("S", 2024) := 80.0, ("S", 2025) := -200.0];
    var ledger := new ComplianceService(cbs);
    var banked := ledger.BankSurplus("S", 2024);
    InsertNewestAppends([], BankEntry(2024, 80.0));
    assert Available([BankEntry(2024, 80.0)]) == 80.0 by {
      assert [BankEntry(2024, 80.0)][1..] == [];
    }
    r := ledger.ApplyBankedSurplus("S", 2025, 100.0);
    entries := ledger.Entries("S");
  }

  /** Banking a year whose CB is -5 fails and stores nothing. */
  method DeficitNotBanked() returns (r: Outcome, entries: seq<BankEntry>)
    ensures r == Fail(NoSurplus)
    ensures entries == []
  {
    var ledger := new ComplianceService(map[("S", 2024) := -5.0]);
    r := ledger.BankSurplus("S", 2024);
    entries := ledger.Entries("S");
  }
}
