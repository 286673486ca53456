/** The order in which the pool allocator visits members: deficits
    (cb_before < 0) most negative first, then surpluses (cb_before >= 0)
    largest first. Both sorts are stable, as Array.prototype.sort is. */
module PoolOrder {

  import opened Outcomes

  /** One entry of a createPool request. */
  datatype MemberInput = MemberInput(shipId: ShipId, cbBefore: real)

  /** Sum of cb_before: the `reduce` in createPool. */
  function TotalBefore(ms: seq<MemberInput>): real
  {
    if ms == [] then 0.0 else ms[0].cbBefore + TotalBefore(ms[1..])
  }

  lemma {:induction false} TotalBeforeAppend(a: seq<MemberInput>, b: seq<MemberInput>)
    ensures TotalBefore(a + b) == TotalBefore(a) + TotalBefore(b)
  {
    if a == [] {
      assert a + b == b;
    } else {
      var ab := a + b;
      assert ab[0] == a[0];
      assert ab[1..] == a[1..] + b;
      TotalBeforeAppend(a[1..], b);
      assert TotalBefore(ab) == ab[0].cbBefore + TotalBefore(ab[1..]);
    }
  }

  // ----- partition -----

  function Deficits(ms: seq<MemberInput>): (ds: seq<MemberInput>)
    ensures forall i :: 0 <= i < |ds| ==> ds[i].cbBefore < 0.0
  {
    if ms == [] then []
    else (if ms[0].cbBefore < 0.0 then [ms[0]] else []) + Deficits(ms[1..])
  }

  function Surpluses(ms: seq<MemberInput>): (ss: seq<MemberInput>)
    ensures forall i :: 0 <= i < |ss| ==> ss[i].cbBefore >= 0.0
  {
    if ms == [] then []
    else (if ms[0].cbBefore >= 0.0 then [ms[0]] else []) + Surpluses(ms[1..])
  }

  lemma {:induction false} PartitionMultiset(ms: seq<MemberInput>)
    ensures multiset(Deficits(ms)) + multiset(Surpluses(ms)) == multiset(ms)
  {
    if ms != [] {
      var m, rest := ms[0], ms[1..];
      PartitionMultiset(rest);
      assert multiset(ms) == multiset{m} + multiset(rest) by {
        assert ms == [m] + rest;
      }
      if m.cbBefore < 0.0 {
        assert Deficits(ms) == [m] + Deficits(rest);
        assert Surpluses(ms) == Surpluses(rest);
      } else {
        assert Deficits(ms) == Deficits(rest);
        assert Surpluses(ms) == [m] + Surpluses(rest);
      }
    }
  }

  lemma {:induction false} PartitionTotal(ms: seq<MemberInput>)
    ensures TotalBefore(Deficits(ms)) + TotalBefore(Surpluses(ms)) == TotalBefore(ms)
  {
    if ms != [] {
      var m, rest := ms[0], ms[1..];
      PartitionTotal(rest);
      assert ms == [m] + rest;
      assert TotalBefore(ms) == m.cbBefore + TotalBefore(rest);
      if m.cbBefore < 0.0 {
        assert Deficits(ms) == [m] + Deficits(rest);
        assert Surpluses(ms) == Surpluses(rest);
        TotalBeforeAppend([m], Deficits(rest));
      } else {
        assert Deficits(ms) == Deficits(rest);
        assert Surpluses(ms) == [m] + Surpluses(rest);
        TotalBeforeAppend([m], Surpluses(rest));
      }
    }
  }

  // ----- stable insertion sort on a rank -----

  /** The sort key: cb_before for ascending order, its negation for
      descending order. */
  function Rank(m: MemberInput, descending: bool): real
  {
    if descending then -m.cbBefore else m.cbBefore
  }

  predicate SortedBy(s: seq<MemberInput>, descending: bool)
  {
    forall i, j :: 0 <= i < j < |s| ==> Rank(s[i], descending) <= Rank(s[j], descending)
  }

  /** Inserts `x` before the first element that does not rank below it, so
      that `x` stays ahead of the elements it ties with. */
  function Insert(x: MemberInput, s: seq<MemberInput>, descending: bool): (r: seq<MemberInput>)
    ensures |r| == |s| + 1
    ensures r[0] == x || (s != [] && r[0] == s[0])
  {
    if s == [] then [x]
    else if Rank(x, descending) <= Rank(s[0], descending) then [x] + s
    else [s[0]] + Insert(x, s[1..], descending)
  }

  lemma {:induction false} InsertSorted(x: MemberInput, s: seq<MemberInput>, descending: bool)
    requires SortedBy(s, descending)
    ensures SortedBy(Insert(x, s, descending), descending)
  {
    if s != [] && Rank(x, descending) > Rank(s[0], descending) {
      var tail := Insert(x, s[1..], descending);
      InsertSorted(x, s[1..], descending);
      var r := [s[0]] + tail;
      assert Rank(s[0], descending) <= Rank(tail[0], descending);
      forall i, j | 0 <= i < j < |r| ensures Rank(r[i], descending) <= Rank(r[j], descending) {
        if i > 0 {
          assert r[i] == tail[i - 1] && r[j] == tail[j - 1];
        } else if j > 1 {
          assert r[j] == tail[j - 1];
          assert Rank(tail[0], descending) <= Rank(tail[j - 1], descending);
        }
      }
    }
  }

  lemma {:induction false} InsertMultiset(x: MemberInput, s: seq<MemberInput>, descending: bool)
    ensures multiset(Insert(x, s, descending)) == multiset(s) + multiset{x}
  {
    if s == [] {
      assert Insert(x, s, descending) == [x];
    } else if Rank(x, descending) <= Rank(s[0], descending) {
      assert Insert(x, s, descending) == [x] + s;
    } else {
      var tail := Insert(x, s[1..], descending);
      InsertMultiset(x, s[1..], descending);
      assert multiset(Insert(x, s, descending)) == multiset{s[0]} + multiset(tail) by {
        assert Insert(x, s, descending) == [s[0]] + tail;
      }
      assert multiset(s) == multiset{s[0]} + multiset(s[1..]) by {
        assert s == [s[0]] + s[1..];
      }
    }
  }

  lemma {:induction false} InsertTotal(x: MemberInput, s: seq<MemberInput>, descending: bool)
    ensures TotalBefore(Insert(x, s, descending)) == x.cbBefore + TotalBefore(s)
  {
    if s == [] {
      assert TotalBefore([x]) == x.cbBefore + TotalBefore([]);
    } else if Rank(x, descending) <= Rank(s[0], descending) {
      assert ([x] + s)[1..] == s;
    } else {
      var tail := Insert(x, s[1..], descending);
      InsertTotal(x, s[1..], descending);
      assert ([s[0]] + tail)[1..] == tail;
    }
  }

  /** Insertion sort: stable, as the comparator-based sort of the source. */
  function SortBy(s: seq<MemberInput>, descending: bool): (r: seq<MemberInput>)
    ensures SortedBy(r, descending)
    ensures multiset(r) == multiset(s)
    ensures TotalBefore(r) == TotalBefore(s)
  {
    if s == [] then []
    else
      var rest := SortBy(s[1..], descending);
      InsertSorted(s[0], rest, descending);
      InsertMultiset(s[0], rest, descending);
      InsertTotal(s[0], rest, descending);
      assert multiset(s) == multiset{s[0]} + multiset(s[1..]) by {
        assert s == [s[0]] + s[1..];
      }
      Insert(s[0], rest, descending)
  }

  /** The elements of `s` whose rank is `v`, in their order in `s`. */
  function Tied(s: seq<MemberInput>, v: real, descending: bool): seq<MemberInput>
  {
    if s == [] then []
    else (if Rank(s[0], descending) == v then [s[0]] else []) + Tied(s[1..], v, descending)
  }

  lemma {:induction false} InsertTied(x: MemberInput, s: seq<MemberInput>, v: real, descending: bool)
    ensures Tied(Insert(x, s, descending), v, descending)
         == (if Rank(x, descending) == v then [x] else []) + Tied(s, v, descending)
  {
    var hx := if Rank(x, descending) == v then [x] else [];
    if s == [] {
      assert Insert(x, s, descending) == [x];
      assert Tied([x], v, descending) == hx + Tied([], v, descending);
    } else if Rank(x, descending) <= Rank(s[0], descending) {
      var r := [x] + s;
      assert Insert(x, s, descending) == r;
      assert r[1..] == s;
      assert Tied(r, v, descending) == hx + Tied(s, v, descending);
    } else {
      var tail := Insert(x, s[1..], descending);
      var r := [s[0]] + tail;
      var h0 := if Rank(s[0], descending) == v then [s[0]] else [];
      assert Insert(x, s, descending) == r;
      assert r[1..] == tail;
      InsertTied(x, s[1..], v, descending);
      assert Tied(r, v, descending) == h0 + Tied(tail, v, descending);
      assert Tied(s, v, descending) == h0 + Tied(s[1..], v, descending);
      assert h0 == [] || hx == [];
    }
  }

  /** Stability: members with equal cb_before keep their input order. */
  lemma {:induction false} SortStable(s: seq<MemberInput>, v: real, descending: bool)
    ensures Tied(SortBy(s, descending), v, descending) == Tied(s, v, descending)
  {
    if s != [] {
      SortStable(s[1..], v, descending);
      InsertTied(s[0], SortBy(s[1..], descending), v, descending);
    }
  }

  // ----- the combined order returned by allocateSurplus -----

  function SortedDeficits(ms: seq<MemberInput>): seq<MemberInput>
  {
    SortBy(Deficits(ms), false)
  }

  function SortedSurpluses(ms: seq<MemberInput>): seq<MemberInput>
  {
    SortBy(Surpluses(ms), true)
  }

  /** `[...deficits, ...surpluses]`. */
  function Ordered(ms: seq<MemberInput>): seq<MemberInput>
  {
    SortedDeficits(ms) + SortedSurpluses(ms)
  }

  /** The deficit filter keeps the input order of the members that share a
      negative cb_before. */
  lemma {:induction false} DeficitsTied(ms: seq<MemberInput>, v: real)
    requires v < 0.0
    ensures Tied(Deficits(ms), v, false) == Tied(ms, v, false)
  {
    if ms != [] {
      var m, rest := ms[0], ms[1..];
      DeficitsTied(rest, v);
      if m.cbBefore < 0.0 {
        var d := [m] + Deficits(rest);
        assert Deficits(ms) == d;
        assert d[0] == m && d[1..] == Deficits(rest);
      } else {
        assert Deficits(ms) == Deficits(rest);
      }
    }
  }

  /** The surplus filter keeps the input order of the members that share a
      non-negative cb_before (rank `v` is minus that cb_before). */
  lemma {:induction false} SurplusesTied(ms: seq<MemberInput>, v: real)
    requires v <= 0.0
    ensures Tied(Surpluses(ms), v, true) == Tied(ms, v, true)
  {
    if ms != [] {
      var m, rest := ms[0], ms[1..];
      SurplusesTied(rest, v);
      if m.cbBefore >= 0.0 {
        var s := [m] + Surpluses(rest);
        assert Surpluses(ms) == s;
        assert s[0] == m && s[1..] == Surpluses(rest);
      } else {
        assert Surpluses(ms) == Surpluses(rest);
      }
    }
  }

  /** Deficits with equal cb_before `c` keep the request's order in the
      sorted deficit group. */
  lemma {:induction false} DeficitsStable(ms: seq<MemberInput>, c: real)
    requires c < 0.0
    ensures Tied(SortedDeficits(ms), c, false) == Tied(ms, c, false)
  {
    var ds := Deficits(ms);
    SortStable(ds, c, false);
    DeficitsTied(ms, c);
  }

  /** Surpluses with equal cb_before keep the request's order in the sorted
      surplus group; `v`, their descending rank, is minus that cb_before. */
  lemma {:induction false} SurplusesStable(ms: seq<MemberInput>, v: real)
    requires v <= 0.0
    ensures Tied(SortedSurpluses(ms), v, true) == Tied(ms, v, true)
  {
    var ss := Surpluses(ms);
    SortStable(ss, v, true);
    SurplusesTied(ms, v);
  }

  /** The allocator's order is a permutation of the request with the same
      total. */
  lemma {:induction false} OrderedPermutation(ms: seq<MemberInput>)
    ensures multiset(Ordered(ms)) == multiset(ms)
    ensures TotalBefore(Ordered(ms)) == TotalBefore(ms)
  {
    PartitionMultiset(ms);
    PartitionTotal(ms);
    TotalBeforeAppend(SortedDeficits(ms), SortedSurpluses(ms));
  }

  /** Every member of a sorted group belongs to that group. */
  lemma {:induction false} SortedGroups(ms: seq<MemberInput>)
    ensures |SortedDeficits(ms)| == |Deficits(ms)|
    ensures forall i :: 0 <= i < |SortedDeficits(ms)| ==> SortedDeficits(ms)[i].cbBefore < 0.0
    ensures forall i :: 0 <= i < |SortedSurpluses(ms)| ==> SortedSurpluses(ms)[i].cbBefore >= 0.0
    ensures forall i, j :: 0 <= i < j < |SortedDeficits(ms)| ==>
      SortedDeficits(ms)[i].cbBefore <= SortedDeficits(ms)[j].cbBefore
    ensures forall i, j :: 0 <= i < j < |SortedSurpluses(ms)| ==>
      SortedSurpluses(ms)[i].cbBefore >= SortedSurpluses(ms)[j].cbBefore
  {
    var d, s := SortedDeficits(ms), SortedSurpluses(ms);
    assert |d| == |Deficits(ms)| by {
      assert |multiset(d)| == |multiset(Deficits(ms))|;
    }
    forall i | 0 <= i < |d| ensures d[i].cbBefore < 0.0 {
      assert d[i] in multiset(Deficits(ms));
    }
    forall i | 0 <= i < |s| ensures s[i].cbBefore >= 0.0 {
      assert s[i] in multiset(Surpluses(ms));
    }
    forall i, j | 0 <= i < j < |d| ensures d[i].cbBefore <= d[j].cbBefore {
      assert Rank(d[i], false) <= Rank(d[j], false);
    }
    forall i, j | 0 <= i < j < |s| ensures s[i].cbBefore >= s[j].cbBefore {
      assert Rank(s[i], true) <= Rank(s[j], true);
    }
  }

  /** The first |Deficits| entries of the order are the deficits, in
      ascending cb_before (most negative first). */
  lemma {:induction false} OrderedDeficitsFirst(ms: seq<MemberInput>)
    ensures var o, k := Ordered(ms), |Deficits(ms)|;
      && k <= |o|
      && (forall i :: 0 <= i < k ==> o[i].cbBefore < 0.0)
      && (forall i, j :: 0 <= i < j < k ==> o[i].cbBefore <= o[j].cbBefore)
  {
    var d, s := SortedDeficits(ms), SortedSurpluses(ms);
    var o := d + s;
    SortedGroups(ms);
    assert forall i :: 0 <= i < |d| ==> o[i] == d[i];
  }

  lemma {:induction false} ShiftedTail(d: seq<MemberInput>, s: seq<MemberInput>)
    requires forall i :: 0 <= i < |s| ==> s[i].cbBefore >= 0.0
    requires forall i, j :: 0 <= i < j < |s| ==> s[i].cbBefore >= s[j].cbBefore
    ensures forall i :: |d| <= i < |d + s| ==> (d + s)[i].cbBefore >= 0.0
    ensures forall i, j :: |d| <= i < j < |d + s| ==> (d + s)[i].cbBefore >= (d + s)[j].cbBefore
  {
    var o := d + s;
    forall i | |d| <= i < |o| ensures o[i] == s[i - |d|] { }
  }

  /** After them come the surpluses, in descending cb_before (largest
      first). */
  lemma {:induction false} OrderedSurplusesAfter(ms: seq<MemberInput>)
    ensures var o, k := Ordered(ms), |Deficits(ms)|;
      && k <= |o|
      && (forall i :: k <= i < |o| ==> o[i].cbBefore >= 0.0)
      && (forall i, j :: k <= i < j < |o| ==> o[i].cbBefore >= o[j].cbBefore)
  {
    SortedGroups(ms);
    ShiftedTail(SortedDeficits(ms), SortedSurpluses(ms));
  }
}
