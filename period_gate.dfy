/** The "once per period" gate that main.py uses four times: an instance field remembers
    the last period (a calendar year, or a month for plotting) in which the guarded work
    ran, starts at the sentinel -1, and the work runs again only when the clock's period
    differs from it. */
module PeriodGate {
  import opened Sequences

  /** The sentinel the gate fields start with: "never ran". */
  const Never: int := -1

  function LastOr(s: seq<int>, default: int): int
  {
    if s == [] then default else s[|s| - 1]
  }

  /** The periods at which the gate opens, given the periods of every call made to it in
      order. A call opens the gate when its period differs from the one the gate last
      opened in (or from Never before the first opening). */
  function Gated(periods: seq<int>): (r: seq<int>)
    ensures r != [] ==> r[0] != Never
    ensures forall i :: 0 < i < |r| ==> r[i - 1] != r[i]
    ensures |r| <= |periods|
    decreases |periods|
  {
    if periods == [] then []
    else
      var openings := Gated(periods[..|periods| - 1]);
      var p := periods[|periods| - 1];
      if p == LastOr(openings, Never) then openings
      else
        assert forall i :: 0 <= i < |openings| ==> (openings + [p])[i] == openings[i];
        openings + [p]
  }

  /** One more call: the gate opens exactly when the new period differs from the period
      the gate last opened in, which is the value a gate field holds. */
  lemma GatedStep(periods: seq<int>, p: int)
    ensures Gated(periods + [p]) ==
            if p == LastOr(Gated(periods), Never) then Gated(periods) else Gated(periods) + [p]
  {
    assert (periods + [p])[..|periods|] == periods;
  }

  /** The gate opens only at periods some call was made in, in call order. */
  lemma {:induction false} GatedSubseq(periods: seq<int>)
    ensures Subseq(Gated(periods), periods)
    decreases |periods|
  {
    if periods != [] {
      var init := periods[..|periods| - 1];
      var p := periods[|periods| - 1];
      GatedSubseq(init);
      assert periods == init + [p];
      if p == LastOr(Gated(init), Never) {
        SubseqDrop(Gated(init), init, p);
      } else {
        SubseqKeep(Gated(init), init, p);
      }
    }
  }

  /** No call is lost: every period a call was made in (other than the sentinel itself)
      is one at which the gate has opened. */
  lemma {:induction false} GatedCovers(periods: seq<int>, p: int)
    requires p in periods && p != Never
    ensures p in Gated(periods)
    decreases |periods|
  {
    var init := periods[..|periods| - 1];
    var last := periods[|periods| - 1];
    assert periods == init + [last];
    if p != last {
      GatedCovers(init, p);
    } else if Gated(init) != [] && last == LastOr(Gated(init), Never) {
      assert Gated(init)[|Gated(init)| - 1] == p;
    }
  }

  ghost predicate NonDecreasing(s: seq<int>)
  {
    forall i, j :: 0 <= i < j < |s| ==> s[i] <= s[j]
  }

  ghost predicate StrictlyIncreasing(s: seq<int>)
  {
    forall i, j :: 0 <= i < j < |s| ==> s[i] < s[j]
  }

  /** Under a clock that never goes back, the gate opens at strictly increasing periods,
      so at most once in any period. */
  lemma {:induction false} GatedIncreasing(periods: seq<int>)
    requires NonDecreasing(periods)
    ensures StrictlyIncreasing(Gated(periods))
    decreases |periods|
  {
    if periods != [] {
      var init := periods[..|periods| - 1];
      var p := periods[|periods| - 1];
      var openings := Gated(init);
      assert NonDecreasing(init);
      GatedIncreasing(init);
      GatedSubseq(init);
      SubseqIn(openings, init);
      if p != LastOr(openings, Never) {
        forall i | 0 <= i < |openings|
          ensures openings[i] < p
        {
          assert openings[i] in init;
          assert openings[|openings| - 1] in init;
          assert openings[i] <= openings[|openings| - 1] <= p;
        }
      }
    }
  }

  /** Once per distinct period: with a clock that never goes back, every period a call was
      made in (other than the sentinel) opens the gate at exactly one call. */
  lemma OncePerPeriod(periods: seq<int>, p: int)
    requires NonDecreasing(periods)
    requires p in periods && p != Never
    ensures p in Gated(periods)
    ensures forall i, j ::
              0 <= i < |Gated(periods)| && 0 <= j < |Gated(periods)| &&
              Gated(periods)[i] == p && Gated(periods)[j] == p
              ==> i == j
  {
    GatedCovers(periods, p);
    GatedIncreasing(periods);
  }
}
