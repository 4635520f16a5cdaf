/** The greedy, sector-capped pick of SelectFine (main.py:83-98) as a specification
    function over the sorted survivors, and what it guarantees about the final selection:
    at most 20 records, at most 7 per sector, every one qualifying, ordered by EV/EBITDA
    with ties in input order, and no qualifying record left out unless its sector is full
    or the selection is. */
module Selection {
  import opened Sequences
  import opened Fundamentals

  /** The selection stops growing once it holds this many symbols. */
  const MaxSelection: nat := 20
  /** A record is skipped when its sector already has MORE than this many accepted. */
  const SectorSkipThreshold: nat := 6
  /** Hence the largest number of accepted records one sector can have. */
  const MaxPerSector: nat := SectorSkipThreshold + 1

  /** How many records of `s` belong to sector `code`. */
  function SectorCount(s: seq<Record>, code: int): (n: nat)
    ensures n <= |s|
    decreases |s|
  {
    if s == [] then 0
    else SectorCount(s[..|s| - 1], code) + (if s[|s| - 1].sectorCode == code then 1 else 0)
  }

  lemma SectorCountSnoc(s: seq<Record>, x: Record, code: int)
    ensures SectorCount(s + [x], code) == SectorCount(s, code) + (if x.sectorCode == code then 1 else 0)
  {
    assert (s + [x])[..|s|] == s;
  }

  function SymbolsOf(s: seq<Record>): (r: seq<Symbol>)
    ensures |r| == |s|
    decreases |s|
  {
    if s == [] then [] else SymbolsOf(s[..|s| - 1]) + [s[|s| - 1].symbol]
  }

  lemma SymbolsOfSnoc(s: seq<Record>, x: Record)
    ensures SymbolsOf(s + [x]) == SymbolsOf(s) + [x.symbol]
  {
    assert (s + [x])[..|s|] == s;
  }

  /** The records the greedy walk accepts from `s`, read as the effect of its last step on
      the records accepted from the prefix before it: the last record is accepted unless
      the selection is already full or its sector already has more than six members. */
  function Greedy(s: seq<Record>): (r: seq<Record>)
    ensures |r| <= MaxSelection
    decreases |s|
  {
    if s == [] then []
    else
      var kept := Greedy(s[..|s| - 1]);
      var x := s[|s| - 1];
      if |kept| == MaxSelection || SectorCount(kept, x.sectorCode) > SectorSkipThreshold then kept
      else kept + [x]
  }

  /** What SelectFine selects, as records: the greedy walk over the stably sorted survivors
      of the filter. */
  function FineSelection(fine: seq<Record>): seq<Record>
  {
    Greedy(SortByEv(FilterFine(fine)))
  }

  /** One step of the walk either accepts the last record or leaves the selection as it
      was; this is how the accepted records of a prefix relate to those of the whole. */
  lemma GreedySnoc(s: seq<Record>, x: Record)
    ensures Greedy(s + [x]) ==
            if |Greedy(s)| == MaxSelection || SectorCount(Greedy(s), x.sectorCode) > SectorSkipThreshold
            then Greedy(s) else Greedy(s) + [x]
  {
    assert (s + [x])[..|s|] == s;
  }

  /** The same step, read on the prefixes of one sequence as the loop of SelectFine walks it. */
  lemma GreedyPrefixStep(s: seq<Record>, i: nat)
    requires i < |s|
    ensures Greedy(s[..i + 1]) ==
            if |Greedy(s[..i])| == MaxSelection || SectorCount(Greedy(s[..i]), s[i].sectorCode) > SectorSkipThreshold
            then Greedy(s[..i]) else Greedy(s[..i]) + [s[i]]
  {
    assert s[..i + 1] == s[..i] + [s[i]];
    GreedySnoc(s[..i], s[i]);
  }

  /** The walk only drops records: what it accepts is a subsequence of what it walks. */
  lemma {:induction false} GreedySubseq(s: seq<Record>)
    ensures Subseq(Greedy(s), s)
    decreases |s|
  {
    if s != [] {
      var init := s[..|s| - 1];
      var x := s[|s| - 1];
      assert s == init + [x];
      GreedySubseq(init);
      GreedySnoc(init, x);
      if Greedy(s) == Greedy(init) {
        SubseqDrop(Greedy(init), init, x);
      } else {
        SubseqKeep(Greedy(init), init, x);
      }
    }
  }

  /** No sector ever has more than seven accepted records. */
  lemma {:induction false} GreedySectorCap(s: seq<Record>, code: int)
    ensures SectorCount(Greedy(s), code) <= MaxPerSector
    decreases |s|
  {
    if s != [] {
      var init := s[..|s| - 1];
      var x := s[|s| - 1];
      assert s == init + [x];
      GreedySectorCap(init, code);
      GreedySnoc(init, x);
      SectorCountSnoc(Greedy(init), x, code);
    }
  }

  /** Once twenty records are accepted the walk accepts nothing more: stopping there with
      `break` gives the same selection as walking to the end. */
  lemma {:induction false} GreedySaturated(s: seq<Record>, i: nat)
    requires i <= |s| && |Greedy(s[..i])| == MaxSelection
    ensures Greedy(s) == Greedy(s[..i])
    decreases |s|
  {
    if i < |s| {
      var init := s[..|s| - 1];
      assert init[..i] == s[..i];
      GreedySaturated(init, i);
      assert s == init + [s[|s| - 1]];
      GreedySnoc(init, s[|s| - 1]);
    } else {
      assert s[..i] == s;
    }
  }

  function Min(a: nat, b: nat): nat
  {
    if a <= b then a else b
  }

  /** Greedy maximality, sector by sector: while the selection is not full, every sector
      has as many accepted records as the cap allows, min(7, how many it offers). */
  lemma {:induction false} GreedyFillsSectors(s: seq<Record>, code: int)
    requires |Greedy(s)| < MaxSelection
    ensures SectorCount(Greedy(s), code) == Min(MaxPerSector, SectorCount(s, code))
    decreases |s|
  {
    if s != [] {
      var init := s[..|s| - 1];
      var x := s[|s| - 1];
      assert s == init + [x];
      GreedySnoc(init, x);
      GreedyFillsSectors(init, code);
      GreedyFillsSectors(init, x.sectorCode);
      GreedySectorCap(init, x.sectorCode);
      SectorCountSnoc(init, x, code);
      SectorCountSnoc(Greedy(init), x, code);
    }
  }

  /** Greedy maximality, record by record: while the selection is not full, a record of
      the walk that was not accepted belongs to a sector with exactly seven accepted. */
  lemma {:induction false} GreedySkipsOnlyFullSectors(s: seq<Record>, x: Record)
    requires |Greedy(s)| < MaxSelection
    requires x in s && x !in Greedy(s)
    ensures SectorCount(Greedy(s), x.sectorCode) == MaxPerSector
    decreases |s|
  {
    var init := s[..|s| - 1];
    var y := s[|s| - 1];
    assert s == init + [y];
    GreedySnoc(init, y);
    GreedySectorCap(s, x.sectorCode);
    if x != y {
      GreedySkipsOnlyFullSectors(init, x);
      SectorCountSnoc(Greedy(init), y, x.sectorCode);
    }
  }

  lemma {:induction false} InsertByEvSectorCount(t: seq<Record>, x: Record, code: int)
    ensures SectorCount(InsertByEv(t, x), code) ==
            SectorCount(t, code) + (if x.sectorCode == code then 1 else 0)
    decreases |t|
  {
    if t == [] || t[|t| - 1].evToEbitda <= x.evToEbitda {
      SectorCountSnoc(t, x, code);
    } else {
      var init := t[..|t| - 1];
      var y := t[|t| - 1];
      assert t == init + [y];
      InsertByEvSectorCount(init, x, code);
      SectorCountSnoc(InsertByEv(init, x), y, code);
      SectorCountSnoc(init, y, code);
    }
  }

  /** Sorting does not change how many records each sector offers. */
  lemma {:induction false} SortByEvSectorCount(s: seq<Record>, code: int)
    ensures SectorCount(SortByEv(s), code) == SectorCount(s, code)
    decreases |s|
  {
    if s != [] {
      var init := s[..|s| - 1];
      var x := s[|s| - 1];
      assert s == init + [x];
      SortByEvSectorCount(init, code);
      InsertByEvSectorCount(SortByEv(init), x, code);
      SectorCountSnoc(init, x, code);
    }
  }

  /** The two caps: at most twenty symbols, at most seven from any one sector. */
  lemma FineSelectionCaps(fine: seq<Record>, code: int)
    ensures |FineSelection(fine)| <= MaxSelection
    ensures SectorCount(FineSelection(fine), code) <= MaxPerSector
  {
    GreedySectorCap(SortByEv(FilterFine(fine)), code);
  }

  /** Soundness: every selected record is one of the input records and passes all eight
      fundamental predicates. */
  lemma FineSelectionSound(fine: seq<Record>)
    ensures forall x :: x in FineSelection(fine) ==> x in fine && Qualifies(x)
  {
    var survivors := FilterFine(fine);
    var sorted := SortByEv(survivors);
    GreedySubseq(sorted);
    SubseqIn(Greedy(sorted), sorted);
    SortByEvPermutes(survivors);
    FilterFineMembers(fine);
    forall x | x in FineSelection(fine)
      ensures x in fine && Qualifies(x)
    {
      assert x in multiset(sorted);
      assert x in multiset(survivors);
    }
  }

  /** Order: the selection is what is left of the sorted survivors after the skipped ones
      are dropped, so it is non-decreasing in EV/EBITDA. */
  lemma FineSelectionOrdered(fine: seq<Record>)
    ensures Subseq(FineSelection(fine), SortByEv(FilterFine(fine)))
    ensures Sorted(FineSelection(fine))
  {
    var sorted := SortByEv(FilterFine(fine));
    GreedySubseq(sorted);
    SortByEvPermutes(FilterFine(fine));
    SubseqSorted(Greedy(sorted), sorted);
  }

  /** Ties keep input order: the selected records with one EV/EBITDA value appear in the
      order they had in the input. */
  lemma FineSelectionStable(fine: seq<Record>, k: real)
    ensures Subseq(WithKey(FineSelection(fine), k), WithKey(fine, k))
  {
    var survivors := FilterFine(fine);
    var sorted := SortByEv(survivors);
    GreedySubseq(sorted);
    SubseqWithKey(Greedy(sorted), sorted, k);
    SortByEvStable(survivors, k);
    FilterFineSubseq(fine);
    SubseqWithKey(survivors, fine, k);
    SubseqTrans(WithKey(Greedy(sorted), k), WithKey(survivors, k), WithKey(fine, k));
  }

  /** Maximality by sector: unless twenty were chosen, every sector contributes
      min(7, its number of qualifying records). */
  lemma FineSelectionFillsSectors(fine: seq<Record>, code: int)
    requires |FineSelection(fine)| < MaxSelection
    ensures SectorCount(FineSelection(fine), code) ==
            Min(MaxPerSector, SectorCount(FilterFine(fine), code))
  {
    GreedyFillsSectors(SortByEv(FilterFine(fine)), code);
    SortByEvSectorCount(FilterFine(fine), code);
  }

  /** Maximality by record: unless twenty were chosen, a qualifying record that is not
      selected belongs to a sector that already has seven selected. */
  lemma FineSelectionMaximal(fine: seq<Record>, x: Record)
    requires |FineSelection(fine)| < MaxSelection
    requires x in fine && Qualifies(x) && x !in FineSelection(fine)
    ensures SectorCount(FineSelection(fine), x.sectorCode) == MaxPerSector
  {
    var sorted := SortByEv(FilterFine(fine));
    FilterFineMembers(fine);
    SortByEvPermutes(FilterFine(fine));
    assert x in multiset(FilterFine(fine));
    assert x in sorted by { assert x in multiset(sorted); }
    GreedySkipsOnlyFullSectors(sorted, x);
  }

  ghost predicate Distinct(keys: seq<int>)
  {
    forall i, j :: 0 <= i < j < |keys| ==> keys[i] != keys[j]
  }

  /** The sectors of `s` in order of first appearance: the key order of SelectFine's
      sector-count dictionary, since a Python dict keeps its keys in insertion order. */
  function SectorOrder(s: seq<Record>): seq<int>
    decreases |s|
  {
    if s == [] then []
    else
      var init := s[..|s| - 1];
      var x := s[|s| - 1];
      if SectorCount(init, x.sectorCode) == 0 then SectorOrder(init) + [x.sectorCode]
      else SectorOrder(init)
  }

  /** The key order lists every sector with an accepted record, each once. */
  lemma {:induction false} SectorOrderKeys(s: seq<Record>)
    ensures Distinct(SectorOrder(s))
    ensures forall c :: c in SectorOrder(s) <==> SectorCount(s, c) > 0
    decreases |s|
  {
    if s != [] {
      var init := s[..|s| - 1];
      var x := s[|s| - 1];
      assert s == init + [x];
      SectorOrderKeys(init);
      forall c
        ensures SectorCount(s, c) == SectorCount(init, c) + (if x.sectorCode == c then 1 else 0)
      {
        SectorCountSnoc(init, x, c);
      }
    }
  }

  /** The sum of the values a map holds under `keys`. */
  function SumOver(keys: seq<int>, m: map<int, int>): int
    requires forall i :: 0 <= i < |keys| ==> keys[i] in m
    decreases |keys|
  {
    if keys == [] then 0
    else SumOver(keys[..|keys| - 1], m) + m[keys[|keys| - 1]]
  }

  /** The number of records of `s` in the sectors `keys`. */
  function SumCounts(keys: seq<int>, s: seq<Record>): int
    decreases |keys|
  {
    if keys == [] then 0
    else SumCounts(keys[..|keys| - 1], s) + SectorCount(s, keys[|keys| - 1])
  }

  /** A map that holds each sector's count sums to the number of records in those sectors. */
  lemma {:induction false} SumOverCounts(keys: seq<int>, m: map<int, int>, s: seq<Record>)
    requires forall i :: 0 <= i < |keys| ==> keys[i] in m
    requires forall c :: c in m ==> m[c] == SectorCount(s, c)
    ensures SumOver(keys, m) == SumCounts(keys, s)
    decreases |keys|
  {
    if keys != [] {
      SumOverCounts(keys[..|keys| - 1], m, s);
    }
  }

  lemma {:induction false} SumCountsSnoc(keys: seq<int>, s: seq<Record>, x: Record)
    requires Distinct(keys)
    ensures SumCounts(keys, s + [x]) == SumCounts(keys, s) + (if x.sectorCode in keys then 1 else 0)
    decreases |keys|
  {
    if keys != [] {
      var init := keys[..|keys| - 1];
      var last := keys[|keys| - 1];
      assert keys == init + [last];
      assert Distinct(init);
      SumCountsSnoc(init, s, x);
      SectorCountSnoc(s, x, last);
      assert last !in init by {
        forall i | 0 <= i < |init|
          ensures init[i] != last
        {
          assert keys[i] == init[i];
        }
      }
    }
  }

  lemma SumCountsAppendKey(keys: seq<int>, c: int, s: seq<Record>)
    ensures SumCounts(keys + [c], s) == SumCounts(keys, s) + SectorCount(s, c)
  {
    assert (keys + [c])[..|keys|] == keys;
  }

  /** Every record is in exactly one of the sectors of the key order, so the counts over
      that order add up to the number of records. */
  lemma {:induction false} SumCountsSectorOrder(s: seq<Record>)
    ensures SumCounts(SectorOrder(s), s) == |s|
    decreases |s|
  {
    if s != [] {
      var init := s[..|s| - 1];
      var x := s[|s| - 1];
      assert s == init + [x];
      var keys := SectorOrder(init);
      SectorOrderKeys(init);
      SumCountsSectorOrder(init);
      SumCountsSnoc(keys, init, x);
      SectorCountSnoc(init, x, x.sectorCode);
      if SectorCount(init, x.sectorCode) == 0 {
        SumCountsAppendKey(keys, x.sectorCode, s);
      }
    }
  }

  /** The invariant of SelectFine's sector-count dictionary against the records accepted
      so far: the keys are exactly the sectors with an accepted record, and each count is
      the number of accepted records of that sector. */
  ghost predicate CountsAgree(counts: map<int, int>, accepted: seq<Record>)
  {
    && (forall c :: c in counts <==> SectorCount(accepted, c) > 0)
    && (forall c :: c in counts ==> counts[c] == SectorCount(accepted, c))
  }

  /** The dictionary's keys, in insertion order, are SectorOrder(accepted), each once, and
      its values read in that order add up to the number of accepted records. */
  ghost predicate CountsTotal(counts: map<int, int>, accepted: seq<Record>)
  {
    && Distinct(SectorOrder(accepted))
    && (forall c :: c in counts <==> c in SectorOrder(accepted))
    && (forall i :: 0 <= i < |SectorOrder(accepted)| ==> SectorOrder(accepted)[i] in counts)
    && SumOver(SectorOrder(accepted), counts) == |accepted|
  }

  /** The sector-count dictionary SelectFine builds from the records it accepts, `s`:
      each acceptance stores `counts.get(code, 0) + 1` under the record's sector. */
  function SectorCounts(s: seq<Record>): map<int, int>
    decreases |s|
  {
    if s == [] then map[]
    else
      var counts := SectorCounts(s[..|s| - 1]);
      var code := s[|s| - 1].sectorCode;
      counts[code := (if code in counts then counts[code] else 0) + 1]
  }

  lemma SectorCountsSnoc(s: seq<Record>, x: Record)
    ensures SectorCounts(s + [x]) ==
            SectorCounts(s)[x.sectorCode := (if x.sectorCode in SectorCounts(s) then SectorCounts(s)[x.sectorCode] else 0) + 1]
  {
    assert (s + [x])[..|s|] == s;
  }

  /** The dictionary holds, for every sector, the number of accepted records of that
      sector, and no entry for a sector with none. */
  lemma {:induction false} SectorCountsAgree(s: seq<Record>)
    ensures CountsAgree(SectorCounts(s), s)
    decreases |s|
  {
    if s != [] {
      var init := s[..|s| - 1];
      var x := s[|s| - 1];
      assert s == init + [x];
      SectorCountsAgree(init);
      SectorCountsSnoc(init, x);
      forall c
        ensures SectorCount(s, c) == SectorCount(init, c) + (if x.sectorCode == c then 1 else 0)
      {
        SectorCountSnoc(init, x, c);
      }
    }
  }

  /** `counts.get(code, 0)` is the number of accepted records of that sector. */
  lemma SectorCountsGet(s: seq<Record>, code: int)
    ensures (if code in SectorCounts(s) then SectorCounts(s)[code] else 0) == SectorCount(s, code)
  {
    SectorCountsAgree(s);
  }

  /** The dictionary's values add up to the number of accepted records. */
  lemma SectorCountsTotal(s: seq<Record>)
    ensures CountsTotal(SectorCounts(s), s)
  {
    var counts := SectorCounts(s);
    var keys := SectorOrder(s);
    SectorCountsAgree(s);
    SectorOrderKeys(s);
    forall i | 0 <= i < |keys|
      ensures keys[i] in counts
    {
      assert keys[i] in keys;
    }
    SumOverCounts(keys, counts, s);
    SumCountsSectorOrder(s);
  }
}
