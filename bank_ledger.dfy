/** The banked-surplus store of one ship, as the repository's query sees it:
    entries in year-ascending order, only those with a positive amount
    visible. `Drain` is the FIFO deduction applyBankedSurplus performs over
    that view and `InsertByYear` the place a newly banked entry takes in it. */
module BankLedger {
  import opened Outcomes

  /** One bank_entries row: the year the surplus was generated and what is
      left of it. */
  datatype BankEntry = BankEntry(year: int, amount: real)

  /** The view's ordering: oldest year first. */
  predicate YearOrdered(es: seq<BankEntry>)
  {
    forall i, j :: 0 <= i < j < |es| ==> es[i].year <= es[j].year
  }

  predicate NonNegative(es: seq<BankEntry>)
  {
    forall i :: 0 <= i < |es| ==> es[i].amount >= 0.0
  }

  /** The invariant of every stored ship ledger. */
  predicate WellFormed(es: seq<BankEntry>)
  {
    YearOrdered(es) && NonNegative(es)
  }

  /** What an entry contributes to the visible total: the query filters
      out entries whose amount is not positive. */
  function Visible(e: BankEntry): (v: real)
    ensures v >= 0.0
    ensures v == 0.0 <==> e.amount <= 0.0
  {
    if e.amount > 0.0 then e.amount else 0.0
  }

  /** Total banked surplus the query returns (the sum of visible entries). */
  function Available(es: seq<BankEntry>): (total: real)
    ensures total >= 0.0
  {
    if es == [] then 0.0 else Visible(es[0]) + Available(es[1..])
  }

  /** The entries the query returns: the positive ones, in stored order. */
  function Positive(es: seq<BankEntry>): (vs: seq<BankEntry>)
    ensures |vs| <= |es|
    ensures forall i :: 0 <= i < |vs| ==> vs[i].amount > 0.0
    ensures forall e :: e in vs <==> e in es && e.amount > 0.0
  {
    if es == [] then []
    else (if es[0].amount > 0.0 then [es[0]] else []) + Positive(es[1..])
  }

  /** The query returns each positive entry as many times as it is stored
      and nothing else: the stored entries minus the non-positive ones. */
  lemma {:induction false} PositiveMultiset(es: seq<BankEntry>)
    ensures multiset(Positive(es)) <= multiset(es)
    ensures forall e: BankEntry :: e.amount > 0.0 ==> multiset(Positive(es))[e] == multiset(es)[e]
  {
    if es != [] {
      var h, rest := es[0], es[1..];
      PositiveMultiset(rest);
      assert multiset(es) == multiset{h} + multiset(rest) by {
        assert es == [h] + rest;
      }
      if h.amount > 0.0 {
        assert multiset(Positive(es)) == multiset{h} + multiset(Positive(rest)) by {
          assert Positive(es) == [h] + Positive(rest);
        }
      } else {
        assert Positive(es) == Positive(rest);
      }
    }
  }

  lemma {:induction false} PositiveTotal(es: seq<BankEntry>)
    ensures Available(Positive(es)) == Available(es)
  {
    if es != [] {
      PositiveTotal(es[1..]);
      AvailableAppend(if es[0].amount > 0.0 then [es[0]] else [], Positive(es[1..]));
    }
  }

  lemma {:induction false} PositiveOrdered(es: seq<BankEntry>)
    ensures YearOrdered(es) ==> YearOrdered(Positive(es))
  {
    if es != [] && YearOrdered(es) {
      PositiveOrdered(es[1..]);
      var rest := Positive(es[1..]);
      forall j | 0 <= j < |rest| ensures es[0].year <= rest[j].year {
        assert rest[j] in es[1..];
      }
    }
  }

  lemma {:induction false} AvailableAppend(a: seq<BankEntry>, b: seq<BankEntry>)
    ensures Available(a + b) == Available(a) + Available(b)
  {
    if a == [] {
      assert a + b == b;
    } else {
      assert (a + b)[1..] == a[1..] + b;
      AvailableAppend(a[1..], b);
    }
  }

  // ----- FIFO deduction -----

  /** What the deduction loop takes from one entry while `remaining` is
      still owed: min(entry, remaining) from an entry the query returns,
      nothing from one it filters out. */
  function Taken(e: BankEntry, remaining: real): (t: real)
    ensures remaining > 0.0 ==> 0.0 <= t <= remaining
    ensures t <= e.amount || t == 0.0
    ensures t == 0.0 <==> e.amount <= 0.0 || remaining == 0.0
  {
    if e.amount > 0.0 then Min(e.amount, remaining) else 0.0
  }

  /** The entry after the deduction loop has visited it with `remaining`
      still owed: same year, never more, never below zero when it started
      at zero or above. */
  function Deducted(e: BankEntry, remaining: real): (d: BankEntry)
    ensures d.year == e.year
    ensures remaining > 0.0 ==> d.amount <= e.amount
    ensures remaining > 0.0 && e.amount >= 0.0 ==> d.amount >= 0.0
  {
    e.(amount := e.amount - Taken(e, remaining))
  }

  /** The deduction loop of applyBankedSurplus over the stored entries:
      stop once nothing remains to deduct, otherwise take what `Taken` says
      from the next entry and carry on with the rest. */
  function Drain(es: seq<BankEntry>, remaining: real): (out: seq<BankEntry>)
    ensures |out| == |es|
  {
    if es == [] || remaining <= 0.0 then es
    else [Deducted(es[0], remaining)] + Drain(es[1..], remaining - Taken(es[0], remaining))
  }

  /** Entry by entry, a deduction keeps the year, never raises the amount
      and never takes a non-negative amount below zero. */
  lemma {:induction false} DrainEntries(es: seq<BankEntry>, r: real)
    ensures forall i :: 0 <= i < |es| ==> Drain(es, r)[i].year == es[i].year
    ensures forall i :: 0 <= i < |es| ==> Drain(es, r)[i].amount <= es[i].amount
    ensures forall i :: 0 <= i < |es| && es[i].amount >= 0.0 ==> Drain(es, r)[i].amount >= 0.0
  {
    if es != [] && r > 0.0 {
      var rest := Drain(es[1..], r - Taken(es[0], r));
      DrainEntries(es[1..], r - Taken(es[0], r));
      forall i | 1 <= i < |es| ensures Drain(es, r)[i] == rest[i - 1] && es[i] == es[1..][i - 1] { }
    }
  }

  /** Deducting an amount the view can cover lowers the visible total by
      exactly that amount. */
  lemma {:induction false} DrainTotal(es: seq<BankEntry>, r: real)
    requires 0.0 <= r <= Available(es)
    ensures Available(Drain(es, r)) == Available(es) - r
  {
    if es != [] && r > 0.0 {
      var t := Taken(es[0], r);
      DrainTotal(es[1..], r - t);
      assert Drain(es, r)[1..] == Drain(es[1..], r - t);
    }
  }

  /** FIFO shape: there is a last entry touched, every visible entry before
      it is emptied, it is reduced (possibly to zero) and everything after it
      is untouched. */
  predicate DrainedUpTo(es: seq<BankEntry>, out: seq<BankEntry>, k: int)
    requires |out| == |es|
  {
    && 0 <= k <= |es|
    && (forall i :: 0 <= i < k ==> out[i].amount == 0.0 || (es[i].amount <= 0.0 && out[i] == es[i]))
    && (forall i :: k < i < |es| ==> out[i] == es[i])
  }

  /** Extending a FIFO shape by one emptied or skipped entry in front. */
  lemma {:induction false} DrainedUpToCons(es: seq<BankEntry>, out: seq<BankEntry>, k: int)
    requires |es| == |out| > 0
    requires DrainedUpTo(es[1..], out[1..], k)
    requires out[0].amount == 0.0 || (es[0].amount <= 0.0 && out[0] == es[0])
    ensures DrainedUpTo(es, out, k + 1)
  {
    forall i | 0 < i < k + 1 ensures out[i].amount == 0.0 || (es[i].amount <= 0.0 && out[i] == es[i]) {
      assert out[i] == out[1..][i - 1] && es[i] == es[1..][i - 1];
    }
    forall i | k + 1 < i < |es| ensures out[i] == es[i] {
      assert out[i] == out[1..][i - 1] && es[i] == es[1..][i - 1];
    }
  }

  lemma {:induction false} DrainFifo(es: seq<BankEntry>, r: real)
    ensures exists k :: DrainedUpTo(es, Drain(es, r), k)
  {
    var out := Drain(es, r);
    if es == [] || r <= 0.0 {
      assert DrainedUpTo(es, out, 0);
    } else {
      var t := Taken(es[0], r);
      var rest := Drain(es[1..], r - t);
      assert out[1..] == rest;
      if es[0].amount > 0.0 && t == r {
        // the remainder is used up on this entry: nothing after it changes
        assert rest == es[1..];
        assert DrainedUpTo(es, out, 0);
      } else {
        DrainFifo(es[1..], r - t);
        var k :| DrainedUpTo(es[1..], rest, k);
        DrainedUpToCons(es, out, k);
      }
    }
  }

  /** The stored order, and with it the view's FIFO order, survives a
      deduction. */
  lemma {:induction false} DrainOrdered(es: seq<BankEntry>, r: real)
    requires YearOrdered(es)
    ensures YearOrdered(Drain(es, r))
  {
    var out := Drain(es, r);
    DrainEntries(es, r);
    forall i, j | 0 <= i < j < |out| ensures out[i].year <= out[j].year {
      assert out[i].year == es[i].year && out[j].year == es[j].year;
    }
  }

  lemma {:induction false} DrainWellFormed(es: seq<BankEntry>, r: real)
    requires WellFormed(es)
    ensures WellFormed(Drain(es, r))
  {
    DrainOrdered(es, r);
    DrainEntries(es, r);
  }

  /** Worked example: 30 banked in 2023 and 50 in 2024, applying 40 empties
      the 2023 entry and leaves 40 of the 2024 one. */
  lemma {:induction false} DrainExample()
    ensures Drain([BankEntry(2023, 30.0), BankEntry(2024, 50.0)], 40.0)
         == [BankEntry(2023, 0.0), BankEntry(2024, 40.0)]
  {
    var es := [BankEntry(2023, 30.0), BankEntry(2024, 50.0)];
    assert es[1..] == [BankEntry(2024, 50.0)];
    assert es[1..][1..] == [];
  }

  // ----- banking a new entry -----

  /** Where a new entry for `year` goes in the year-ascending view: after
      every entry of the same or an earlier year. */
  function InsertPos(es: seq<BankEntry>, year: int): (p: nat)
    ensures p <= |es|
  {
    if es == [] || year < es[0].year then 0 else 1 + InsertPos(es[1..], year)
  }

  /** The store after banking `e`: the existing entries untouched, `e` in
      its year's place. */
  function InsertByYear(es: seq<BankEntry>, e: BankEntry): (r: seq<BankEntry>)
    ensures |r| == |es| + 1
    ensures multiset(r) == multiset(es) + multiset{e}
  {
    var p := InsertPos(es, e.year);
    assert es == es[..p] + es[p..];
    es[..p] + [e] + es[p..]
  }

  lemma {:induction false} InsertPosBound(es: seq<BankEntry>, year: int)
    requires YearOrdered(es)
    ensures forall i :: 0 <= i < InsertPos(es, year) ==> es[i].year <= year
    ensures forall i :: InsertPos(es, year) <= i < |es| ==> year < es[i].year
  {
    if es != [] && es[0].year <= year {
      InsertPosBound(es[1..], year);
      forall i | 1 <= i < |es| ensures es[i].year == es[1..][i - 1].year { }
    }
  }

  /** Where each entry of the banked store comes from. */
  lemma {:induction false} InsertAt(es: seq<BankEntry>, e: BankEntry, k: int)
    requires 0 <= k <= |es|
    ensures k < InsertPos(es, e.year) ==> InsertByYear(es, e)[k] == es[k]
    ensures k == InsertPos(es, e.year) ==> InsertByYear(es, e)[k] == e
    ensures k > InsertPos(es, e.year) ==> InsertByYear(es, e)[k] == es[k - 1]
  {
  }

  /** Banking keeps the store in the view's order. */
  lemma {:induction false} InsertOrdered(es: seq<BankEntry>, e: BankEntry)
    requires YearOrdered(es)
    ensures YearOrdered(InsertByYear(es, e))
  {
    var p := InsertPos(es, e.year);
    InsertPosBound(es, e.year);
    var r := InsertByYear(es, e);
    forall i, j | 0 <= i < j < |r| ensures r[i].year <= r[j].year {
      InsertAt(es, e, i);
      InsertAt(es, e, j);
    }
  }

  lemma {:induction false} InsertWellFormed(es: seq<BankEntry>, e: BankEntry)
    requires WellFormed(es) && e.amount >= 0.0
    ensures WellFormed(InsertByYear(es, e))
  {
    InsertOrdered(es, e);
    var r := InsertByYear(es, e);
    var p := InsertPos(es, e.year);
    forall i | 0 <= i < |r| ensures r[i].amount >= 0.0 {
      InsertAt(es, e, i);
    }
  }

  /** Banking the newest year is a plain append. */
  lemma {:induction false} InsertNewestAppends(es: seq<BankEntry>, e: BankEntry)
    requires forall i :: 0 <= i < |es| ==> es[i].year <= e.year
    ensures InsertByYear(es, e) == es + [e]
  {
    InsertPosAll(es, e.year);
  }

  lemma {:induction false} InsertPosAll(es: seq<BankEntry>, year: int)
    requires forall i :: 0 <= i < |es| ==> es[i].year <= year
    ensures InsertPos(es, year) == |es|
  {
    if es != [] {
      assert es[0].year <= year;
      InsertPosAll(es[1..], year);
    }
  }

  /** Banking a positive amount raises the visible total by exactly it. */
  lemma {:induction false} InsertTotal(es: seq<BankEntry>, e: BankEntry)
    requires e.amount > 0.0
    ensures Available(InsertByYear(es, e)) == Available(es) + e.amount
  {
    var p := InsertPos(es, e.year);
    AvailableAppend(es[..p] + [e], es[p..]);
    AvailableAppend(es[..p], [e]);
    AvailableAppend(es[..p], es[p..]);
    assert es[..p] + es[p..] == es;
    assert Available([e]) == e.amount by {
      assert [e][1..] == [];
    }
  }
}
