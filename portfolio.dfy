/** The portfolio construction model (main.py:111-131): an equal-weighting model whose
    universe-change notifications are forwarded at most once per calendar year and whose
    targets are recomputed at most once per calendar year, the cached list being returned
    in between. */
module Portfolio {
  import opened PeriodGate

  datatype Option<T> = None | Some(value: T)

  /** The parent equal-weighting model is platform code: `equalWeighting` stands for its
      CreateTargets, a function of the clock's year, the universe changes the parent has
      been notified of so far and the insights of the call. */
  class PeriodBasedSectorLimitedPortfolioConstructionModel<Insight, Change, Target> {
    const equalWeighting: (int, seq<Change>, seq<Insight>) -> seq<Target>

    /** The notifications the parent has received: its OnSecuritiesChanged calls. */
    var parentChanges: seq<Change>
    var lastPeriodOnChanged: int
    var lastPeriodCreateTargets: int
    /** Python's `lastTargets`, which the source also tests against None. */
    var lastTargets: Option<seq<Target>>

    /** The year of every OnSecuritiesChanged call so far. */
    ghost var changeYears: seq<int>
    /** The year of every CreateTargets call so far. */
    ghost var targetYears: seq<int>
    /** How many times the parent's CreateTargets has run. */
    ghost var parentTargetCalls: nat

    ghost predicate Valid()
      reads this
    {
      && lastPeriodOnChanged == LastOr(Gated(changeYears), Never)
      && |parentChanges| == |Gated(changeYears)|
      && lastPeriodCreateTargets == LastOr(Gated(targetYears), Never)
      && parentTargetCalls == |Gated(targetYears)|
      && lastTargets.Some?
    }

    constructor (equalWeighting: (int, seq<Change>, seq<Insight>) -> seq<Target>)
      ensures Valid()
      ensures this.equalWeighting == equalWeighting
      ensures parentChanges == [] && changeYears == [] && targetYears == []
      ensures lastPeriodOnChanged == Never && lastPeriodCreateTargets == Never
      ensures lastTargets == Some([]) && parentTargetCalls == 0
    {
      this.equalWeighting := equalWeighting;
      parentChanges := [];
      lastPeriodOnChanged := Never;
      lastPeriodCreateTargets := Never;
      lastTargets := Some([]);
      changeYears := [];
      targetYears := [];
      parentTargetCalls := 0;
    }

    /** Forwards the notification to the parent only in a year different from the one of
        the last forwarded notification; afterwards the stored year is the current one
        either way. */
    method OnSecuritiesChanged(year: int, changes: Change)
      requires Valid()
      modifies this
      ensures Valid() && changeYears == old(changeYears) + [year]
      ensures parentChanges == if old(lastPeriodOnChanged) != year
                               then old(parentChanges) + [changes] else old(parentChanges)
      ensures lastPeriodOnChanged == year
      ensures lastPeriodCreateTargets == old(lastPeriodCreateTargets)
      ensures lastTargets == old(lastTargets) && targetYears == old(targetYears)
      ensures parentTargetCalls == old(parentTargetCalls)
    {
      GatedStep(changeYears, year);
      changeYears := changeYears + [year];
      if lastPeriodOnChanged != year {
        lastPeriodOnChanged := year;
        parentChanges := parentChanges + [changes];
      }
    }

    /** In a year different from the one targets were last computed in, runs the parent
        once, caches its targets and records the year; otherwise returns the cached list
        whatever the insights, without running the parent. The `None` test of the source
        never succeeds: Valid() keeps a list cached at all times. */
    method CreateTargets(year: int, insights: seq<Insight>) returns (targets: seq<Target>)
      requires Valid()
      modifies this
      ensures Valid() && targetYears == old(targetYears) + [year]
      ensures old(lastPeriodCreateTargets) == year ==>
                targets == old(lastTargets).value && parentTargetCalls == old(parentTargetCalls)
      ensures old(lastPeriodCreateTargets) != year ==>
                targets == equalWeighting(year, parentChanges, insights) &&
                parentTargetCalls == old(parentTargetCalls) + 1
      ensures lastPeriodCreateTargets == year && lastTargets == Some(targets)
      ensures parentChanges == old(parentChanges) && changeYears == old(changeYears)
      ensures lastPeriodOnChanged == old(lastPeriodOnChanged)
    {
      GatedStep(targetYears, year);
      targetYears := targetYears + [year];
      if lastTargets.None? || lastPeriodCreateTargets != year {
        lastPeriodCreateTargets := year;
        lastTargets := Some(equalWeighting(year, parentChanges, insights));
        parentTargetCalls := parentTargetCalls + 1;
      }
      targets := lastTargets.value;
    }
  }
}
