# Alpha Legion strategy: universe selection and yearly rebalancing

A Dafny model of the decision logic in `main.py`, a trading strategy written against an
algorithmic-trading framework. The model covers:

- **Fine universe selection** (`RobsFundamentalUniverseSelectionModel.SelectFine`):
  - filter the fundamental records by eight financial-health predicates;
  - sort the survivors by EV/EBITDA with Python's stable `sorted`;
  - walk them greedily with a per-sector count dictionary, stopping at twenty symbols and skipping a record whose sector already has more than six.
- **Coarse universe selection** (`SelectCoarse`): at most once per calendar year it returns the symbols that have fundamental data. Otherwise it returns the `Universe.Unchanged` sentinel.
- **Portfolio construction** (`PeriodBasedSectorLimitedPortfolioConstructionModel`): forwards universe changes to its equal-weighting parent at most once per year. It also recomputes targets at most once per year and returns the cached list in between.
- **The algorithm's data handler** (`AlphaLegionAlgorithm.OnData`): its once-per-month plotting gate.

Modules:

- `Fundamentals` (fundamentals.dfy): the `Record` datatype and the filter predicate. It also holds the stable sort, written as an insertion sort, with its ordering, permutation and stability lemmas.
- `Selection` (fine_selection.dfy): the greedy walk as the specification function `Greedy`, with `FineSelection = Greedy ∘ SortByEv ∘ FilterFine`. It also models the sector-count dictionary as `SectorCounts`. The lemmas give the caps, soundness, order, stability and greedy maximality.
- `Universe` (universe.dfy): the selection-model class. `SelectFine` is the imperative loop over a `map<int, int>`, proved equal to `FineSelection`. `SelectCoarse` is the yearly gate.
- `PeriodGate` (period_gate.dfy): the "remember the last period, act only when it changes" pattern, which the source uses four times. `Gated(periods)` lists the periods at which the gate opens, given the period of every call. Every class keeps a ghost log of its calls, and its `Valid()` ties the real last-period field to `Gated` of that log.
- `Portfolio` (portfolio.dfy): the portfolio-construction class. The parent's `CreateTargets` is a function-valued constant. The notifications forwarded to the parent are a field.
- `Algorithm` (algorithm.dfy): the month gate of `OnData`.
- `Sequences` (sequences.dfy): subsequences, used to state order and stability.

The clock (`algorithm.Time.year`, `self.Time.month`) and `Portfolio.Invested` are method parameters.

## Model

| member | source | states |
|---|---|---|
| Fundamentals.FilterFineMembers | main.py:67-79 | `FilterFine` (the comprehension) keeps a record iff it is in the input and passes all eight predicates (`Qualifies`: country in USA/GBR/DEU/FRA, market cap > 2e9, 0 < P/E <= 25, 0 < EV/EBITDA <= 25, quick ratio >= 1, net debt < 3.5·EBITDA, revenue growth > 0.07, net income growth > 0) |
| Fundamentals.FilterFineSubseq | main.py:67-79 | `FilterFine` keeps the survivors in input order (a subsequence of the input) |
| Fundamentals.InsertByEvPermutes | main.py:81 | `InsertByEv`, one insertion step of the sort, adds exactly the inserted record and grows the length by one |
| Fundamentals.InsertByEvSorted | main.py:81 | inserting into a list sorted by EV/EBITDA keeps it sorted |
| Fundamentals.SortByEvPermutes | main.py:81 | `SortByEv`, modelling `sorted(..., key=EVToEBITDA)`, is non-decreasing in EV/EBITDA and is a permutation of its input (same multiset, same length) |
| Fundamentals.InsertByEvWithKey | main.py:81 | inserting a record appends it to the end of its own tie class and leaves every other tie class unchanged |
| Fundamentals.SortByEvStable | main.py:81 | stability: for every EV/EBITDA value, the sorted list has the records with that value in their input order |
| Fundamentals.SubseqSorted | main.py:81 | a subsequence of a sorted list is sorted |
| Selection.Greedy | main.py:86-98 | `Greedy`, the walk of main.py:86-98 as a function of the sorted list, never accepts more than twenty records |
| Selection.GreedySubseq | main.py:86-98 | the walk only drops records, so the selection is a subsequence of the sorted survivors |
| Selection.GreedySectorCap | main.py:90-96 | no sector ever has more than seven accepted records |
| Selection.GreedySaturated | main.py:87-88 | after twenty acceptances nothing more is accepted, so `break` gives the same result as walking to the end |
| Selection.GreedyFillsSectors | main.py:86-98 | if fewer than twenty are accepted, each sector has min(7, number of its records walked) accepted |
| Selection.GreedySkipsOnlyFullSectors | main.py:86-98 | if fewer than twenty are accepted, a walked record left out belongs to a sector with exactly seven accepted |
| Selection.SortByEvSectorCount | main.py:81 | sorting does not change how many records each sector has |
| Selection.FineSelectionCaps | main.py:86-96 | `FineSelection` (filter, stable sort, greedy walk) has at most twenty records and at most seven per sector |
| Selection.FineSelectionSound | main.py:67-98 | every selected record is an input record that passes all eight predicates |
| Selection.FineSelectionOrdered | main.py:81-98 | the selection is a subsequence of the stably sorted survivors and is non-decreasing in EV/EBITDA |
| Selection.FineSelectionStable | main.py:81-98 | for every EV/EBITDA value, the selected records with that value are a subsequence of the input's records with that value, so they keep input order |
| Selection.FineSelectionFillsSectors | main.py:86-98 | if fewer than twenty are selected, each sector contributes min(7, its number of qualifying records) |
| Selection.FineSelectionMaximal | main.py:86-98 | if fewer than twenty are selected, a qualifying record left out belongs to a sector with exactly seven selected |
| Selection.SectorOrderKeys | main.py:92-96 | `SectorOrder`, the dictionary's key order (sectors in order of first acceptance), lists each sector with an accepted record exactly once and no other |
| Selection.SumCountsSectorOrder | main.py:92-98 | the per-sector counts of the accepted records, summed over that key order, equal the number accepted |
| Selection.SectorCountsAgree | main.py:92-96 | `SectorCounts`, the dictionary built by the assignments at main.py:92-96, has as keys exactly the sectors with an accepted record, and holds for each the number of accepted records of that sector |
| Selection.SectorCountsGet | main.py:92 | `sectorCodeToCount.get(sectorCode, 0)` is the number of accepted records of that sector |
| Selection.SectorCountsTotal | main.py:92-98 | the dictionary's keys are exactly the entries of `SectorOrder`, each once, and its values over all its keys add up to the number of accepted records (`len(finalSelection)`) |
| Universe.CoarseSymbols | main.py:63 | the coarse result has no more symbols than the input, and a symbol is in it iff some input record with fundamental data has it |
| Universe.CoarseSymbolsAppend | main.py:63 | the map/filter keeps input order: the result for a concatenation is the concatenation of the results |
| Universe.RobsFundamentalUniverseSelectionModel.constructor | main.py:49-52 | `lastPeriod` starts at -1 and no call has been made |
| Universe.RobsFundamentalUniverseSelectionModel.SelectCoarse | main.py:54-63 | in the year of the last run: `Unchanged` whatever the input, and `lastPeriod` is unchanged. In a new year: `lastPeriod` becomes the year and the result is the symbols with fundamental data. It returns symbols exactly at the calls that open the yearly gate |
| Universe.RobsFundamentalUniverseSelectionModel.SelectFine | main.py:65-109 | the loop with its count dictionary, `break` and `continue` returns the symbols of `FineSelection(fine)`, in order, and at most twenty of them |
| PeriodGate.Gated | main.py:57-60 | the gate's openings never repeat the previous opening's period and never happen at the -1 sentinel; there are no more openings than calls |
| PeriodGate.GatedSubseq | main.py:57-60 | the gate opens only at periods calls were made in, in call order |
| PeriodGate.GatedCovers | main.py:57-60 | every period a call was made in, other than the -1 sentinel, has an opening |
| PeriodGate.GatedIncreasing | main.py:57-60 | under a clock that never goes back, the openings are strictly increasing |
| PeriodGate.OncePerPeriod | main.py:122-125 | under a clock that never goes back, each called period other than -1 has exactly one opening: at most once per distinct year |
| Portfolio.PeriodBasedSectorLimitedPortfolioConstructionModel.constructor | main.py:113-120 | both last-period fields start at -1, the cached targets at `[]`, and the parent has received nothing |
| Portfolio.PeriodBasedSectorLimitedPortfolioConstructionModel.OnSecuritiesChanged | main.py:122-125 | the change is forwarded to the parent iff the year differs from `lastPeriodOnChanged`. Afterwards that field is the year, and nothing else changes |
| Portfolio.PeriodBasedSectorLimitedPortfolioConstructionModel.CreateTargets | main.py:127-131 | within the year of the last computation: the cached list, whatever the insights, with no call to the parent. In a new year: exactly one parent call, whose result is cached and returned, and the year is recorded. The `is None` test is kept and shown never to hold |
| Algorithm.AlphaLegionAlgorithm.constructor | main.py:23 | `plottingPeriod` starts at -1 |
| Algorithm.AlphaLegionAlgorithm.OnData | main.py:25-33 | plots iff the portfolio is invested and the month differs from the last plotted one. When not invested, the gate is left alone |

## Left out

- `AlphaLegionAlgorithm.Initialize` (main.py:6-23): framework configuration only (dates, cash, fee and brokerage models, wiring of the models). Only its `plottingPeriod = -1` is modelled, as `AlphaLegionAlgorithm.constructor`.
- Benchmark compounding and plotting in `OnData` (main.py:35-44): floating-point arithmetic and framework calls (`Benchmark.Evaluate`, `Plot`). `OnData` returns whether it would plot.
- Debug output of `SelectFine` (main.py:99-107): the `sectorToSymbol` grouping and the `algorithm.Debug` calls are write-only and do not affect the result.
- The parent classes `FundamentalUniverseSelectionModel` and `EqualWeightingPortfolioConstructionModel` are framework code that is not visible:
  - the parent's `CreateTargets` is an uninterpreted function of the year, the changes forwarded so far and the insights;
  - its `OnSecuritiesChanged` is recorded as the list of forwarded changes;
  - the selection model's constructor arguments (`filterFineData`, `universeSettings`) are only passed to the parent and are dropped.
- Floating-point semantics of the fundamental fields: they are `real`, and the filter only compares them.
- The docstring of `SelectCoarse` (main.py:55-56) and the comment at main.py:62 mention a price of at least one. The code does not test the price, and the model follows the code.
- Universe.RobsFundamentalUniverseSelectionModel.SelectFine: its loop invariant ties the count dictionary to `SectorCounts(accepted)`, the dictionary built from the records accepted so far. The per-sector counts and the sum of the values are not separate loop invariants: they follow for every `accepted` from `Selection.SectorCountsAgree` and `Selection.SectorCountsTotal`.
- PeriodGate.OncePerPeriod: "at most once per distinct period" assumes the clock never goes back. With an arbitrary sequence of periods, the gate opens again when a period comes back after another one. That is what the definition of `Gated` says: a call opens the gate whenever its period differs from the last opening's.
- Algorithm.AlphaLegionAlgorithm.OnData: the month is `Time.month` (1 to 12), which repeats every year. The gate compares only with the last plotted month, and that is all the contract states. No once-per-month bound over a whole run is claimed.
- Symbols are strings, and coarse records carry only the two fields `SelectCoarse` reads.
