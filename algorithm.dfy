/** The algorithm's own data handler (main.py:25-44), reduced to its monthly gate: once
    the portfolio is invested, plotting happens at most once per calendar month. */
module Algorithm {
  import opened PeriodGate

  class AlphaLegionAlgorithm {
    /** The month in which the strategy last plotted, Never before the first plot. */
    var plottingPeriod: int
    /** The month of every OnData call made while the portfolio was invested. */
    ghost var investedMonths: seq<int>

    ghost predicate Valid()
      reads this
    {
      plottingPeriod == LastOr(Gated(investedMonths), Never)
    }

    constructor ()
      ensures Valid() && plottingPeriod == Never && investedMonths == []
    {
      plottingPeriod := Never;
      investedMonths := [];
    }

    /** Returns whether this call plots: never while not invested (the gate is left
        alone), otherwise exactly when the month differs from the last plotted one. */
    method OnData(invested: bool, month: int) returns (plots: bool)
      requires Valid()
      modifies this
      ensures Valid()
      ensures !invested ==> !plots && plottingPeriod == old(plottingPeriod) && investedMonths == old(investedMonths)
      ensures invested ==> investedMonths == old(investedMonths) + [month] && plottingPeriod == month
      ensures plots <==> invested && month != old(plottingPeriod)
    {
      if !invested {
        return false;
      }
      GatedStep(investedMonths, month);
      investedMonths := investedMonths + [month];
      if month == plottingPeriod {
        return false;
      }
      plottingPeriod := month;
      return true;
    }
  }
}
