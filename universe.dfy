/** The universe selection model (main.py:47-109): a coarse stage that runs at most once
    per calendar year and keeps the instruments that have fundamental data, and a fine
    stage that filters, ranks and greedily picks at most twenty symbols with at most seven
    per sector. */
module Universe {
  import opened Sequences
  import opened PeriodGate
  import opened Fundamentals
  import opened Selection

  /** One instrument of the coarse universe: only the two fields SelectCoarse reads. */
  datatype CoarseRecord = CoarseRecord(symbol: Symbol, hasFundamentalData: bool)

  /** What the coarse stage hands back to the platform: the sentinel that tells it to keep
      the current universe, or the symbols to continue with. */
  datatype CoarseResult = Unchanged | Symbols(symbols: seq<Symbol>)

  /** The symbols of the coarse records that carry fundamental data, in input order. */
  function CoarseSymbols(coarse: seq<CoarseRecord>): (r: seq<Symbol>)
    ensures |r| <= |coarse|
    ensures forall s :: s in r <==> exists x :: x in coarse && x.hasFundamentalData && x.symbol == s
    decreases |coarse|
  {
    if coarse == [] then []
    else
      var init := coarse[..|coarse| - 1];
      var x := coarse[|coarse| - 1];
      assert coarse == init + [x];
      CoarseSymbols(init) + (if x.hasFundamentalData then [x.symbol] else [])
  }

  /** Input order is kept: the symbols for a concatenation are those of the first part
      followed by those of the second. */
  lemma {:induction false} CoarseSymbolsAppend(a: seq<CoarseRecord>, b: seq<CoarseRecord>)
    ensures CoarseSymbols(a + b) == CoarseSymbols(a) + CoarseSymbols(b)
    decreases |b|
  {
    if b != [] {
      var binit := b[..|b| - 1];
      var y := b[|b| - 1];
      assert b == binit + [y];
      assert a + b == (a + binit) + [y];
      CoarseSymbolsAppend(a, binit);
      assert (a + b)[..|a + b| - 1] == a + binit;
    } else {
      assert a + b == a;
    }
  }

  class RobsFundamentalUniverseSelectionModel {
    /** The calendar year in which the coarse stage last ran, Never before the first run. */
    var lastPeriod: int
    /** The year of every SelectCoarse call so far, in call order. */
    ghost var coarseYears: seq<int>

    ghost predicate Valid()
      reads this
    {
      lastPeriod == LastOr(Gated(coarseYears), Never)
    }

    constructor ()
      ensures Valid() && coarseYears == [] && lastPeriod == Never
    {
      lastPeriod := Never;
      coarseYears := [];
    }

    /** The coarse stage: in a year it already ran in, the sentinel, without looking at
        the input; otherwise it records the year and returns the symbols that have
        fundamental data. It runs exactly at the calls that open the yearly gate. */
    method SelectCoarse(year: int, coarse: seq<CoarseRecord>) returns (result: CoarseResult)
      requires Valid()
      modifies this
      ensures Valid() && coarseYears == old(coarseYears) + [year]
      ensures year == old(lastPeriod) ==> result == Unchanged && lastPeriod == old(lastPeriod)
      ensures year != old(lastPeriod) ==> result == Symbols(CoarseSymbols(coarse)) && lastPeriod == year
      ensures result.Symbols? <==> Gated(coarseYears) == Gated(old(coarseYears)) + [year]
    {
      GatedStep(coarseYears, year);
      coarseYears := coarseYears + [year];
      if year == lastPeriod {
        return Unchanged;
      }
      lastPeriod := year;
      return Symbols(CoarseSymbols(coarse));
    }

    /** The fine stage: filter, sort by EV/EBITDA, then walk the sorted records keeping a
        per-sector count, stopping at twenty symbols and skipping records whose sector
        already has more than six. */
    method SelectFine(fine: seq<Record>) returns (finalSelection: seq<Symbol>)
      ensures finalSelection == SymbolsOf(FineSelection(fine))
      ensures |finalSelection| <= MaxSelection
    {
      var sortedFine := SortByEv(FilterFine(fine));
      var sectorCodeToCount: map<int, int> := map[];
      ghost var accepted: seq<Record> := [];  // the records whose symbols were appended
      finalSelection := [];
      for i := 0 to |sortedFine|
        invariant accepted == Greedy(sortedFine[..i])
        invariant finalSelection == SymbolsOf(accepted)
        invariant sectorCodeToCount == SectorCounts(accepted)
      {
        if |finalSelection| == MaxSelection {
          GreedySaturated(sortedFine, i);
          assert accepted == Greedy(sortedFine);
          break;
        }
        var co := sortedFine[i];
        GreedyPrefixStep(sortedFine, i);
        var sectorCode := co.sectorCode;
        // skip if the sector already has too many accepted companies
        var count := if sectorCode in sectorCodeToCount then sectorCodeToCount[sectorCode] else 0;
        SectorCountsGet(accepted, sectorCode);
        if count > SectorSkipThreshold {
          continue;
        }
        var newCount := count + 1;
        SectorCountsSnoc(accepted, co);
        sectorCodeToCount := sectorCodeToCount[sectorCode := newCount];
        SymbolsOfSnoc(accepted, co);
        finalSelection := finalSelection + [co.symbol];
        accepted := accepted + [co];
      }
      assert sortedFine[..|sortedFine|] == sortedFine;
      assert accepted == Greedy(sortedFine);
    }
  }
}
