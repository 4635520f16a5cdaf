/** The fundamental records the fine selection stage receives, the eight financial-health
    predicates it filters them by, and the stable sort by EV/EBITDA it ranks survivors with
    (main.py:67-81). */
module Fundamentals {
  import opened Sequences

  type Symbol = string

  /** One instrument's fundamental snapshot: the fields SelectFine reads. The platform's
      floating-point values are modelled as reals. */
  datatype Record = Record(
    symbol: Symbol,
    country: string,          // CompanyReference.CountryId
    marketCap: real,          // MarketCap
    peRatio: real,            // ValuationRatios.PERatio
    evToEbitda: real,         // ValuationRatios.EVToEBITDA
    quickRatio1Y: real,       // OperationRatios.QuickRatio.OneYear
    netDebt12M: real,         // BalanceSheet.NetDebt.TwelveMonths
    ebitda12M: real,          // IncomeStatement.EBITDA.TwelveMonths
    revenueGrowth3Y: real,    // OperationRatios.RevenueGrowth.ThreeYears
    netIncomeGrowth3Y: real,  // OperationRatios.NetIncomeGrowth.ThreeYears
    sectorCode: int)          // AssetClassification.MorningstarSectorCode

  predicate InListedCountry(x: Record)
  {
    x.country == "USA" || x.country == "GBR" || x.country == "DEU" || x.country == "FRA"
  }

  /** The conjunction of the eight fundamental predicates of the fine filter. */
  predicate Qualifies(x: Record)
  {
    && InListedCountry(x)
    && x.marketCap > 2000000000.0
    && x.peRatio <= 25.0
    && x.peRatio > 0.0
    && x.evToEbitda <= 25.0
    && x.evToEbitda > 0.0
    && x.quickRatio1Y >= 1.0
    && x.netDebt12M < 3.5 * x.ebitda12M
    && x.revenueGrowth3Y > 0.07
    && x.netIncomeGrowth3Y > 0.0
  }

  /** The filter comprehension: the qualifying records, in input order. */
  function FilterFine(fine: seq<Record>): seq<Record>
    decreases |fine|
  {
    if fine == [] then []
    else
      var x := fine[|fine| - 1];
      FilterFine(fine[..|fine| - 1]) + (if Qualifies(x) then [x] else [])
  }

  /** The survivors are exactly the input records that pass all eight predicates. */
  lemma {:induction false} FilterFineMembers(fine: seq<Record>)
    ensures forall x :: x in FilterFine(fine) <==> x in fine && Qualifies(x)
    decreases |fine|
  {
    if fine != [] {
      var init := fine[..|fine| - 1];
      assert fine == init + [fine[|fine| - 1]];
      FilterFineMembers(init);
    }
  }

  /** The filter keeps the survivors in their input order. */
  lemma {:induction false} FilterFineSubseq(fine: seq<Record>)
    ensures Subseq(FilterFine(fine), fine)
    decreases |fine|
  {
    if fine != [] {
      var init := fine[..|fine| - 1];
      var x := fine[|fine| - 1];
      assert fine == init + [x];
      FilterFineSubseq(init);
      if Qualifies(x) {
        SubseqKeep(FilterFine(init), init, x);
      } else {
        assert FilterFine(init) + [] == FilterFine(init);
        SubseqDrop(FilterFine(init), init, x);
      }
    }
  }

  /** Non-decreasing in EV/EBITDA. */
  ghost predicate Sorted(s: seq<Record>)
  {
    forall i, j :: 0 <= i < j < |s| ==> s[i].evToEbitda <= s[j].evToEbitda
  }

  /** The records of `s` whose EV/EBITDA equals `k`, in their order in `s`: the equivalence
      classes a stable sort must not reorder. */
  function WithKey(s: seq<Record>, k: real): seq<Record>
    decreases |s|
  {
    if s == [] then []
    else
      var x := s[|s| - 1];
      WithKey(s[..|s| - 1], k) + (if x.evToEbitda == k then [x] else [])
  }

  /** Inserts `x` into `t` after every trailing record whose EV/EBITDA exceeds x's. On a
      sorted `t` that places `x` after all its ties, which come earlier in the input. */
  function InsertByEv(t: seq<Record>, x: Record): seq<Record>
    decreases |t|
  {
    if t == [] || t[|t| - 1].evToEbitda <= x.evToEbitda then t + [x]
    else InsertByEv(t[..|t| - 1], x) + [t[|t| - 1]]
  }

  /** Inserting adds exactly `x` to the records of `t`. */
  lemma {:induction false} InsertByEvPermutes(t: seq<Record>, x: Record)
    ensures multiset(InsertByEv(t, x)) == multiset(t) + multiset{x}
    ensures |InsertByEv(t, x)| == |t| + 1
    decreases |t|
  {
    if t != [] && t[|t| - 1].evToEbitda > x.evToEbitda {
      var init := t[..|t| - 1];
      assert t == init + [t[|t| - 1]];
      InsertByEvPermutes(init, x);
    }
  }

  /** Inserting keeps every EV/EBITDA below a bound that the inputs are below. */
  lemma {:induction false} InsertByEvBounded(t: seq<Record>, x: Record, bound: real)
    requires forall i :: 0 <= i < |t| ==> t[i].evToEbitda <= bound
    requires x.evToEbitda <= bound
    ensures forall i :: 0 <= i < |InsertByEv(t, x)| ==> InsertByEv(t, x)[i].evToEbitda <= bound
    decreases |t|
  {
    if t != [] && t[|t| - 1].evToEbitda > x.evToEbitda {
      InsertByEvBounded(t[..|t| - 1], x, bound);
    }
  }

  /** Inserting into a sorted sequence keeps it sorted. */
  lemma {:induction false} InsertByEvSorted(t: seq<Record>, x: Record)
    requires Sorted(t)
    ensures Sorted(InsertByEv(t, x))
    decreases |t|
  {
    if t != [] && t[|t| - 1].evToEbitda > x.evToEbitda {
      var init := t[..|t| - 1];
      var y := t[|t| - 1];
      InsertByEvSorted(init, x);
      InsertByEvBounded(init, x, y.evToEbitda);
      var u := InsertByEv(init, x);
      var r := u + [y];
      assert InsertByEv(t, x) == r;
      forall i, j | 0 <= i < j < |r|
        ensures r[i].evToEbitda <= r[j].evToEbitda
      {
        assert r[i] == u[i];
        if j < |u| {
          assert r[j] == u[j];
        }
      }
    }
  }

  /** Python's `sorted` with key EV/EBITDA, written as an insertion sort: a stable sort. */
  function SortByEv(s: seq<Record>): seq<Record>
    decreases |s|
  {
    if s == [] then [] else InsertByEv(SortByEv(s[..|s| - 1]), s[|s| - 1])
  }

  /** The sort orders by EV/EBITDA and is a permutation of its input. */
  lemma {:induction false} SortByEvPermutes(s: seq<Record>)
    ensures Sorted(SortByEv(s))
    ensures multiset(SortByEv(s)) == multiset(s)
    ensures |SortByEv(s)| == |s|
    decreases |s|
  {
    if s != [] {
      var init := s[..|s| - 1];
      assert s == init + [s[|s| - 1]];
      SortByEvPermutes(init);
      InsertByEvPermutes(SortByEv(init), s[|s| - 1]);
      InsertByEvSorted(SortByEv(init), s[|s| - 1]);
    }
  }

  lemma WithKeySnoc(s: seq<Record>, x: Record, k: real)
    ensures WithKey(s + [x], k) == WithKey(s, k) + (if x.evToEbitda == k then [x] else [])
  {
    assert (s + [x])[..|s|] == s;
  }

  /** Inserting `x` adds it at the end of its own tie class and leaves every other tie
      class as it was. */
  lemma {:induction false} InsertByEvWithKey(t: seq<Record>, x: Record, k: real)
    ensures WithKey(InsertByEv(t, x), k) == WithKey(t, k) + (if x.evToEbitda == k then [x] else [])
    decreases |t|
  {
    if t == [] || t[|t| - 1].evToEbitda <= x.evToEbitda {
      WithKeySnoc(t, x, k);
    } else {
      var init := t[..|t| - 1];
      var y := t[|t| - 1];
      assert t == init + [y];
      var u := InsertByEv(init, x);
      assert InsertByEv(t, x) == u + [y];
      InsertByEvWithKey(init, x, k);
      WithKeySnoc(u, y, k);
      WithKeySnoc(init, y, k);
      if x.evToEbitda == k {
        assert y.evToEbitda != k;
        assert WithKey(u + [y], k) == WithKey(init, k) + [x];
        assert WithKey(t, k) == WithKey(init, k);
      } else {
        assert WithKey(u, k) == WithKey(init, k);
      }
    }
  }

  /** Stability: sorting keeps the records of each EV/EBITDA value in their input order. */
  lemma {:induction false} SortByEvStable(s: seq<Record>, k: real)
    ensures WithKey(SortByEv(s), k) == WithKey(s, k)
    decreases |s|
  {
    if s != [] {
      var init := s[..|s| - 1];
      assert s == init + [s[|s| - 1]];
      SortByEvStable(init, k);
      InsertByEvWithKey(SortByEv(init), s[|s| - 1], k);
    }
  }

  /** A subsequence keeps, within every tie class, a subsequence of that class. */
  lemma {:induction false} SubseqWithKey(a: seq<Record>, b: seq<Record>, k: real)
    requires Subseq(a, b)
    ensures Subseq(WithKey(a, k), WithKey(b, k))
    decreases |b|
  {
    if a != [] {
      var binit := b[..|b| - 1];
      var y := b[|b| - 1];
      assert b == binit + [y];
      WithKeySnoc(binit, y, k);
      var wb := WithKey(binit, k);
      if a[|a| - 1] == y && Subseq(a[..|a| - 1], binit) {
        var ainit := a[..|a| - 1];
        assert a == ainit + [y];
        SubseqWithKey(ainit, binit, k);
        WithKeySnoc(ainit, y, k);
        var wa := WithKey(ainit, k);
        if y.evToEbitda == k {
          SubseqKeep(wa, wb, y);
          assert WithKey(a, k) == wa + [y] && WithKey(b, k) == wb + [y];
        } else {
          assert WithKey(a, k) == wa && WithKey(b, k) == wb;
        }
      } else {
        SubseqWithKey(a, binit, k);
        if y.evToEbitda == k {
          SubseqDrop(WithKey(a, k), wb, y);
          assert WithKey(b, k) == wb + [y];
        } else {
          assert WithKey(b, k) == wb;
        }
      }
    }
  }

  /** Dropping records from a sorted sequence leaves it sorted. */
  lemma {:induction false} SubseqSorted(a: seq<Record>, b: seq<Record>)
    requires Subseq(a, b) && Sorted(b)
    ensures Sorted(a)
    decreases |b|
  {
    if a != [] {
      var binit := b[..|b| - 1];
      assert b == binit + [b[|b| - 1]];
      if a[|a| - 1] == b[|b| - 1] && Subseq(a[..|a| - 1], binit) {
        var ainit := a[..|a| - 1];
        assert a == ainit + [a[|a| - 1]];
        SubseqSorted(ainit, binit);
        SubseqIn(ainit, binit);
        forall i, j | 0 <= i < j < |a|
          ensures a[i].evToEbitda <= a[j].evToEbitda
        {
          if j == |a| - 1 {
            assert a[i] in binit;
          } else {
            assert a[i] == ainit[i] && a[j] == ainit[j];
          }
        }
      } else {
        SubseqSorted(a, binit);
      }
    }
  }
}
