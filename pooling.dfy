/** PoolingService: the feasibility gate, the greedy surplus-to-deficit
    transfer, the post-allocation checks and the single commit. */
module Pooling {

  import opened Outcomes
  import opened PoolOrder

  /** A pool member after allocation. */
  datatype PoolMember = PoolMember(shipId: ShipId, cbBefore: real, cbAfter: real)

  /** A pool as handed to the repository in one transaction. */
  datatype PoolRecord = PoolRecord(year: int, members: seq<PoolMember>)

  function TotalAfter(ps: seq<PoolMember>): real
  {
    if ps == [] then 0.0 else ps[0].cbAfter + TotalAfter(ps[1..])
  }

  /** `ps` holds the members of `ms`, in the same order, with their ship
      and starting balance intact. */
  predicate Carries(ps: seq<PoolMember>, ms: seq<MemberInput>)
  {
    && |ps| == |ms|
    && forall i :: 0 <= i < |ps| ==> ps[i].shipId == ms[i].shipId && ps[i].cbBefore == ms[i].cbBefore
  }

  /** A deficit member ends no worse off and not above zero. */
  predicate DeficitBounds(ps: seq<PoolMember>)
  {
    forall i :: 0 <= i < |ps| ==> ps[i].cbBefore <= ps[i].cbAfter <= 0.0
  }

  /** A surplus member ends not below zero and not above where it started. */
  predicate SurplusBounds(ps: seq<PoolMember>)
  {
    forall i :: 0 <= i < |ps| ==> 0.0 <= ps[i].cbAfter <= ps[i].cbBefore
  }

  /** Greedy shape: everything before position `c` is settled at exactly 0,
      everything after it is untouched; only member `c` may be partial. */
  predicate DrawnUpTo(ps: seq<PoolMember>, c: int)
  {
    && 0 <= c <= |ps|
    && (forall j :: 0 <= j < c ==> ps[j].cbAfter == 0.0)
    && (forall j :: c < j < |ps| ==> ps[j].cbAfter == ps[j].cbBefore)
  }

  predicate AllSettled(ps: seq<PoolMember>)
  {
    forall i :: 0 <= i < |ps| ==> ps[i].cbAfter == 0.0
  }

  // ----- sums -----

  lemma {:induction false} TotalAfterAppend(a: seq<PoolMember>, b: seq<PoolMember>)
    ensures TotalAfter(a + b) == TotalAfter(a) + TotalAfter(b)
  {
    if a == [] {
      assert a + b == b;
    } else {
      var ab := a + b;
      assert ab[0] == a[0];
      assert ab[1..] == a[1..] + b;
      TotalAfterAppend(a[1..], b);
    }
  }

  /** Replacing one member changes the total by exactly the change of its
      balance. */
  lemma {:induction false} TotalAfterUpdate(ps: seq<PoolMember>, i: int, m: PoolMember)
    requires 0 <= i < |ps|
    ensures TotalAfter(ps[i := m]) == TotalAfter(ps) - ps[i].cbAfter + m.cbAfter
  {
    if i > 0 {
      TotalAfterUpdate(ps[1..], i - 1, m);
      assert ps[i := m][1..] == ps[1..][i - 1 := m];
    } else {
      assert ps[i := m][1..] == ps[1..];
    }
  }

  /** Before any transfer, the after-total is the before-total. */
  lemma {:induction false} TotalAfterFresh(ps: seq<PoolMember>, ms: seq<MemberInput>)
    requires Carries(ps, ms)
    requires forall i :: 0 <= i < |ps| ==> ps[i].cbAfter == ps[i].cbBefore
    ensures TotalAfter(ps) == TotalBefore(ms)
  {
    if ps != [] {
      TotalAfterFresh(ps[1..], ms[1..]);
    }
  }

  /** Balances that are all at most zero add up to at most zero, and to
      zero only when every one of them is zero. */
  lemma {:induction false} NonPositiveTotal(ps: seq<PoolMember>)
    requires forall i :: 0 <= i < |ps| ==> ps[i].cbAfter <= 0.0
    ensures TotalAfter(ps) <= 0.0
    ensures TotalAfter(ps) == 0.0 ==> AllSettled(ps)
  {
    if ps != [] {
      NonPositiveTotal(ps[1..]);
      assert forall i :: 1 <= i < |ps| ==> ps[i] == ps[1..][i - 1];
    }
  }

  lemma {:induction false} SettledTotal(ps: seq<PoolMember>)
    requires AllSettled(ps)
    ensures TotalAfter(ps) == 0.0
  {
    if ps != [] {
      SettledTotal(ps[1..]);
    }
  }

  /** When the pool total is not negative and the sweep stopped because
      either side ran out, it was the deficits that ran out: every deficit
      ship is brought exactly to zero. */
  lemma {:induction false} SettledWhenFeasible(ds: seq<PoolMember>, ss: seq<PoolMember>)
    requires DeficitBounds(ds) && SurplusBounds(ss)
    requires AllSettled(ds) || AllSettled(ss)
    requires TotalAfter(ds) + TotalAfter(ss) >= 0.0
    ensures AllSettled(ds)
  {
    if !AllSettled(ds) {
      SettledTotal(ss);
      NonPositiveTotal(ds);
    }
  }

  lemma {:induction false} CarriesAppend(a: seq<PoolMember>, b: seq<PoolMember>, x: seq<MemberInput>, y: seq<MemberInput>)
    requires Carries(a, x) && Carries(b, y)
    ensures Carries(a + b, x + y)
  {
    forall i | |a| <= i < |a| + |b|
      ensures (a + b)[i].shipId == (x + y)[i].shipId && (a + b)[i].cbBefore == (x + y)[i].cbBefore
    {
      assert (a + b)[i] == b[i - |a|] && (x + y)[i] == y[i - |a|];
    }
  }

  // ----- allocateSurplus -----

  /** `ps` with `amount` added to the balance of member `i`. */
  function Moved(ps: seq<PoolMember>, i: int, amount: real): seq<PoolMember>
    requires 0 <= i < |ps|
  {
    ps[i := ps[i].(cbAfter := ps[i].cbAfter + amount)]
  }

  /** One transfer of `t`, at most what deficit `d` still needs and at most
      what donor `si` has left, keeps every invariant of the sweep and the
      pool total. */
  lemma {:induction false} TransferKeeps(ds: seq<PoolMember>, ss: seq<PoolMember>, d: int, si: int, t: real,
                      dIn: seq<MemberInput>, sIn: seq<MemberInput>)
    requires Carries(ds, dIn) && Carries(ss, sIn)
    requires DeficitBounds(ds) && SurplusBounds(ss)
    requires 0 <= d < |ds| && 0 <= si < |ss| && DrawnUpTo(ss, si)
    requires 0.0 < t <= -ds[d].cbAfter && t <= ss[si].cbAfter
    ensures var ds', ss' := Moved(ds, d, t), Moved(ss, si, -t);
      && Carries(ds', dIn) && Carries(ss', sIn)
      && DeficitBounds(ds') && SurplusBounds(ss')
      && DrawnUpTo(ss', si)
      && TotalAfter(ds') + TotalAfter(ss') == TotalAfter(ds) + TotalAfter(ss)
  {
    TotalAfterUpdate(ds, d, ds[d].(cbAfter := ds[d].cbAfter + t));
    TotalAfterUpdate(ss, si, ss[si].(cbAfter := ss[si].cbAfter - t));
  }

  /** A drained donor at the cursor can be stepped over. */
  lemma {:induction false} CursorAdvanceKeeps(ss: seq<PoolMember>, si: int)
    requires SurplusBounds(ss) && DrawnUpTo(ss, si)
    requires 0 <= si < |ss| && ss[si].cbAfter <= 0.0
    ensures DrawnUpTo(ss, si + 1)
  {
  }

  /** The inner sweep of allocateSurplus for deficit `d`: draw from the
      donors from `cursor` on, stepping over drained ones, until the deficit
      is covered or the donors run out. Returns the new cursor. */
  method CoverDeficit(deficits: array<PoolMember>, surpluses: array<PoolMember>, d: int, cursor: int,
                      ghost dIn: seq<MemberInput>, ghost sIn: seq<MemberInput>)
    returns (next: int)
    requires deficits != surpluses
    requires 0 <= d < deficits.Length && 0 <= cursor <= surpluses.Length
    requires Carries(deficits[..], dIn) && Carries(surpluses[..], sIn)
    requires DeficitBounds(deficits[..]) && SurplusBounds(surpluses[..])
    requires DrawnUpTo(surpluses[..], cursor)
    modifies deficits, surpluses
    ensures cursor <= next <= surpluses.Length
    ensures Carries(deficits[..], dIn) && Carries(surpluses[..], sIn)
    ensures DeficitBounds(deficits[..]) && SurplusBounds(surpluses[..])
    ensures DrawnUpTo(surpluses[..], next)
    ensures forall i :: 0 <= i < deficits.Length && i != d ==> deficits[i] == old(deficits[i])
    ensures deficits[d].cbAfter == 0.0 || next == surpluses.Length
    ensures cursor == surpluses.Length ==> deficits[d] == old(deficits[d])
    ensures TotalAfter(deficits[..]) + TotalAfter(surpluses[..])
         == old(TotalAfter(deficits[..]) + TotalAfter(surpluses[..]))
  {
    ghost var total := TotalAfter(deficits[..]) + TotalAfter(surpluses[..]);
    next := cursor;
    var deficitAmount := -deficits[d].cbAfter;
    while deficitAmount > 0.0 && next < surpluses.Length
      invariant cursor <= next <= surpluses.Length
      invariant Carries(deficits[..], dIn) && Carries(surpluses[..], sIn)
      invariant DeficitBounds(deficits[..]) && SurplusBounds(surpluses[..])
      invariant deficitAmount == -deficits[d].cbAfter
      invariant forall i :: 0 <= i < deficits.Length && i != d ==> deficits[i] == old(deficits[i])
      invariant cursor == surpluses.Length ==> deficits[d] == old(deficits[d])
      invariant DrawnUpTo(surpluses[..], next)
      invariant TotalAfter(deficits[..]) + TotalAfter(surpluses[..]) == total
      decreases surpluses.Length - next,
        (if next < surpluses.Length && surpluses[next].cbAfter > 0.0 then 1 else 0),
        (if deficitAmount > 0.0 then 1 else 0)
    {
      var surplusAvailable := surpluses[next].cbAfter;
      if surplusAvailable <= 0.0 {
        // this donor is drained: move the cursor on
        CursorAdvanceKeeps(surpluses[..], next);
        next := next + 1;
        continue;
      }
      var transferAmount := Min(deficitAmount, surplusAvailable);
      ghost var ds0, ss0 := deficits[..], surpluses[..];
      TransferKeeps(ds0, ss0, d, next, transferAmount, dIn, sIn);
      deficits[d] := deficits[d].(cbAfter := deficits[d].cbAfter + transferAmount);
      surpluses[next] := surpluses[next].(cbAfter := surpluses[next].cbAfter - transferAmount);
      deficitAmount := deficitAmount - transferAmount;
      assert deficits[..] == Moved(ds0, d, transferAmount);
      assert surpluses[..] == Moved(ss0, next, -transferAmount);
    }
  }

  /** A fresh array of pool members for `ms`, each balance starting at its
      cb_before. */
  method Seed(ms: seq<MemberInput>) returns (a: array<PoolMember>)
    ensures fresh(a)
    ensures Carries(a[..], ms)
    ensures forall i :: 0 <= i < a.Length ==> a[i].cbAfter == a[i].cbBefore
    ensures TotalAfter(a[..]) == TotalBefore(ms)
  {
    a := new PoolMember[|ms|](i requires 0 <= i < |ms| =>
      PoolMember(ms[i].shipId, ms[i].cbBefore, ms[i].cbBefore));
    TotalAfterFresh(a[..], ms);
  }

  /** Seeded groups meet the sweep's bounds and start with nothing drawn. */
  lemma {:induction false} SeedBounds(members: seq<MemberInput>, ds: seq<PoolMember>, ss: seq<PoolMember>)
    requires Carries(ds, SortedDeficits(members)) && Carries(ss, SortedSurpluses(members))
    requires forall i :: 0 <= i < |ds| ==> ds[i].cbAfter == ds[i].cbBefore
    requires forall i :: 0 <= i < |ss| ==> ss[i].cbAfter == ss[i].cbBefore
    ensures DeficitBounds(ds) && SurplusBounds(ss)
    ensures DrawnUpTo(ds, 0) && DrawnUpTo(ss, 0)
  {
    SortedGroups(members);
  }

  /** The greedy sweep. Works on copies of the sorted deficit and surplus
      groups (balances start at cb_before), walks the deficits in order and,
      for each, draws from the surplus at the cursor until the deficit is
      covered or the surpluses run out, moving the cursor past drained
      donors. Returns `[...deficits, ...surpluses]`. */
  method AllocateSurplus(members: seq<MemberInput>) returns (result: seq<PoolMember>)
    ensures Carries(result, Ordered(members))
    ensures TotalAfter(result) == TotalBefore(members)
    ensures |Deficits(members)| <= |result|
    ensures var k := |Deficits(members)|;
      && DeficitBounds(result[..k])
      && SurplusBounds(result[k..])
      && (exists c :: DrawnUpTo(result[..k], c))
      && (exists c :: DrawnUpTo(result[k..], c))
      && (AllSettled(result[..k]) || AllSettled(result[k..]))
    ensures TotalBefore(members) >= 0.0 ==> AllSettled(result[..|Deficits(members)|])
  {
    var dIn, sIn := SortedDeficits(members), SortedSurpluses(members);
    var deficits := Seed(dIn);
    var surpluses := Seed(sIn);
    SeedBounds(members, deficits[..], surpluses[..]);
    ghost var total := TotalBefore(dIn) + TotalBefore(sIn);

    var surplusIndex := 0;
    ghost var covered := 0;  // deficits[..covered] are settled at zero

    for d := 0 to deficits.Length
      invariant 0 <= surplusIndex <= surpluses.Length
      invariant Carries(deficits[..], dIn) && Carries(surpluses[..], sIn)
      invariant DeficitBounds(deficits[..]) && SurplusBounds(surpluses[..])
      invariant covered <= d
      invariant DrawnUpTo(deficits[..], covered)
      invariant forall i :: d <= i < deficits.Length ==> deficits[i].cbAfter == deficits[i].cbBefore
      invariant covered < d ==> surplusIndex == surpluses.Length
      invariant DrawnUpTo(surpluses[..], surplusIndex)
      invariant TotalAfter(deficits[..]) + TotalAfter(surpluses[..]) == total
    {
      surplusIndex := CoverDeficit(deficits, surpluses, d, surplusIndex, dIn, sIn);
      if covered == d && deficits[d].cbAfter == 0.0 {
        covered := d + 1;
      }
    }

    result := deficits[..] + surpluses[..];
    SweepOutcome(members, deficits[..], surpluses[..], covered, surplusIndex);
  }

  /** What the sweep's loop invariants give about `[...deficits, ...surpluses]`
      once every deficit has been visited. */
  lemma {:induction false} SweepOutcome(members: seq<MemberInput>, ds: seq<PoolMember>, ss: seq<PoolMember>, covered: int, cursor: int)
    requires Carries(ds, SortedDeficits(members)) && Carries(ss, SortedSurpluses(members))
    requires DeficitBounds(ds) && SurplusBounds(ss)
    requires DrawnUpTo(ds, covered) && DrawnUpTo(ss, cursor)
    requires covered < |ds| ==> cursor == |ss|
    requires TotalAfter(ds) + TotalAfter(ss) == TotalBefore(SortedDeficits(members)) + TotalBefore(SortedSurpluses(members))
    ensures var result := ds + ss;
      && Carries(result, Ordered(members))
      && TotalAfter(result) == TotalBefore(members)
      && |Deficits(members)| <= |result|
      && var k := |Deficits(members)|;
      && DeficitBounds(result[..k])
      && SurplusBounds(result[k..])
      && (exists c :: DrawnUpTo(result[..k], c))
      && (exists c :: DrawnUpTo(result[k..], c))
      && (AllSettled(result[..k]) || AllSettled(result[k..]))
      && (TotalBefore(members) >= 0.0 ==> AllSettled(result[..k]))
  {
    var dIn, sIn := SortedDeficits(members), SortedSurpluses(members);
    SortedGroups(members);
    var result := ds + ss;
    var k := |dIn|;
    assert result[..k] == ds && result[k..] == ss;
    CarriesAppend(ds, ss, dIn, sIn);
    TotalAfterAppend(ds, ss);
    OrderedPermutation(members);
    TotalBeforeAppend(dIn, sIn);
    assert DrawnUpTo(result[..k], covered);
    assert DrawnUpTo(result[k..], cursor);
    if covered < k {
      assert AllSettled(result[k..]);
    } else {
      assert AllSettled(result[..k]);
    }
    if TotalBefore(members) >= 0.0 {
      SettledWhenFeasible(result[..k], result[k..]);
    }
  }

  // ----- post-allocation validation -----

  predicate WorseOff(m: PoolMember) { m.cbBefore < 0.0 && m.cbAfter < m.cbBefore }

  predicate DrivenNegative(m: PoolMember) { m.cbBefore > 0.0 && m.cbAfter < 0.0 }

  predicate Admissible(m: PoolMember) { !WorseOff(m) && !DrivenNegative(m) }

  /** The error the first inadmissible member raises. */
  function Violation(m: PoolMember): (e: Error)
    requires !Admissible(m)
    ensures e == DeficitWorseOff(m.shipId) || e == SurplusNegative(m.shipId)
    ensures e.DeficitWorseOff? <==> WorseOff(m)
  {
    if WorseOff(m) then DeficitWorseOff(m.shipId) else SurplusNegative(m.shipId)
  }

  predicate FirstViolationAt(ps: seq<PoolMember>, i: int)
  {
    && 0 <= i < |ps|
    && !Admissible(ps[i])
    && forall j :: 0 <= j < i ==> Admissible(ps[j])
  }

  /** The validation loop: passes iff every member is admissible, and
      otherwise reports the first offending member, deficit check first. */
  method ValidateAllocation(finalMembers: seq<PoolMember>) returns (r: Outcome)
    ensures r.Pass? <==> forall i :: 0 <= i < |finalMembers| ==> Admissible(finalMembers[i])
    ensures r.Fail? ==> exists i :: FirstViolationAt(finalMembers, i) && r.error == Violation(finalMembers[i])
  {
    for i := 0 to |finalMembers|
      invariant forall j :: 0 <= j < i ==> Admissible(finalMembers[j])
    {
      var member := finalMembers[i];
      if member.cbBefore < 0.0 && member.cbAfter < member.cbBefore {
        assert FirstViolationAt(finalMembers, i);
        return Fail(DeficitWorseOff(member.shipId));
      }
      if member.cbBefore > 0.0 && member.cbAfter < 0.0 {
        assert FirstViolationAt(finalMembers, i);
        return Fail(SurplusNegative(member.shipId));
      }
    }
    return Pass;
  }

  /** The allocator's output always passes the validation. */
  lemma {:induction false} AllocationAdmissible(ps: seq<PoolMember>, k: int)
    requires 0 <= k <= |ps|
    requires DeficitBounds(ps[..k]) && SurplusBounds(ps[k..])
    requires forall i :: 0 <= i < k ==> ps[i].cbBefore < 0.0
    ensures forall i :: 0 <= i < |ps| ==> Admissible(ps[i])
  {
    forall i | 0 <= i < |ps| ensures Admissible(ps[i]) {
      if i < k {
        assert ps[..k][i] == ps[i];
      } else {
        assert ps[k..][i - k] == ps[i];
      }
    }
  }

  /** The service together with the pools its repository has committed. */
  class PoolingService {
    var pools: seq<PoolRecord>

    constructor ()
      ensures pools == []
    {
      pools := [];
    }

    /** Lines 25-37 of createPool: validate the allocation, then commit it
        in one repository call; a failed check commits nothing. */
    method ValidateAndCommit(year: int, finalMembers: seq<PoolMember>) returns (r: Result<seq<PoolMember>>)
      modifies this
      ensures r.Success? <==> forall i :: 0 <= i < |finalMembers| ==> Admissible(finalMembers[i])
      ensures r.Success? ==> r.value == finalMembers && pools == old(pools) + [PoolRecord(year, finalMembers)]
      ensures r.Failure? ==> pools == old(pools)
      ensures r.Failure? ==> exists i :: FirstViolationAt(finalMembers, i) && r.error == Violation(finalMembers[i])
    {
      var check := ValidateAllocation(finalMembers);
      if check.Fail? {
        return Failure(check.error);
      }
      pools := pools + [PoolRecord(year, finalMembers)];
      return Success(finalMembers);
    }

    /** createPool: reject a negative pool total before doing anything,
        otherwise allocate, validate and commit exactly once. */
    method CreatePool(year: int, members: seq<MemberInput>) returns (r: Result<seq<PoolMember>>)
      modifies this
      ensures r.Failure? <==> TotalBefore(members) < 0.0
      ensures r.Failure? ==> r.error == PoolInfeasible && pools == old(pools)
      ensures r.Success? ==> pools == old(pools) + [PoolRecord(year, r.value)]
      ensures r.Success? ==>
        && Carries(r.value, Ordered(members))
        && TotalAfter(r.value) == TotalBefore(members)
        && |Deficits(members)| <= |r.value|
        && AllSettled(r.value[..|Deficits(members)|])
        && SurplusBounds(r.value[|Deficits(members)|..])
        && (exists c :: DrawnUpTo(r.value[|Deficits(members)|..], c))
    {
      var totalPoolCB := TotalBefore(members);
      if totalPoolCB < 0.0 {
        return Failure(PoolInfeasible);
      }
      var finalMembers := AllocateSurplus(members);
      OrderedDeficitsFirst(members);
      AllocationAdmissible(finalMembers, |Deficits(members)|);
      r := ValidateAndCommit(year, finalMembers);
    }
  }
}
