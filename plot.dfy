/**
 The data half of the total-emissions chart: the totals of the years
 2010..2049, of which only the positive ones are kept, paired with their
 years.
 */
module Plot {

  import opened Emissions

  const FirstYear: int := 2010
  /** One past the last year: `range(2010, 2050)`. */
  const EndYear: int := 2050

  function YearRange(): (years: seq<int>)
    ensures |years| == EndYear - FirstYear
    ensures forall i | 0 <= i < |years| :: years[i] == FirstYear + i
  {
    seq(EndYear - FirstYear, i => FirstYear + i)
  }

  /** `[year for year, e in zip(years, totals) if e > 0]`; `zip` stops at the shorter list. */
  function NonZeroYears(years: seq<int>, totals: seq<real>): (r: seq<int>)
    ensures |r| <= |years| && |r| <= |totals|
    decreases |years| + |totals|
  {
    if |years| == 0 || |totals| == 0 then []
    else if |years| < |totals| then NonZeroYears(years, totals[..|years|])
    else if |totals| < |years| then NonZeroYears(years[..|totals|], totals)
    else
      NonZeroYears(years[..|years| - 1], totals[..|totals| - 1])
        + (if totals[|totals| - 1] > 0.0 then [years[|years| - 1]] else [])
  }

  /** Every filtered year is one of the input years, whatever the two lengths. */
  lemma {:induction false} NonZeroYearsFromYears(years: seq<int>, totals: seq<real>)
    ensures forall y | y in NonZeroYears(years, totals) :: y in years
    decreases |years| + |totals|
  {
    if |years| == 0 || |totals| == 0 {
    } else if |years| < |totals| {
      NonZeroYearsFromYears(years, totals[..|years|]);
    } else if |totals| < |years| {
      NonZeroYearsFromYears(years[..|totals|], totals);
      assert forall y | y in years[..|totals|] :: y in years;
    } else {
      var n := |years| - 1;
      NonZeroYearsFromYears(years[..n], totals[..n]);
      assert forall y | y in years[..n] :: y in years;
    }
  }

  /** `[e for e in totals if e > 0]` */
  function NonZeroEmissions(totals: seq<real>): (r: seq<real>)
    ensures |r| <= |totals|
    ensures forall i | 0 <= i < |r| :: r[i] > 0.0
  {
    if totals == [] then []
    else NonZeroEmissions(totals[..|totals| - 1]) + (if totals[|totals| - 1] > 0.0 then [totals[|totals| - 1]] else [])
  }

  /** Positions of positive totals, in increasing order. */
  function PositiveIndices(totals: seq<real>): (idx: seq<nat>)
    ensures forall i | 0 <= i < |idx| :: idx[i] < |totals| && totals[idx[i]] > 0.0
    ensures forall i, j | 0 <= i < j < |idx| :: idx[i] < idx[j]
  {
    if totals == [] then []
    else
      var n := |totals| - 1;
      PositiveIndices(totals[..n]) + (if totals[n] > 0.0 then [n] else [])
  }

  /** No position of a positive total is missed. */
  lemma {:induction false} PositiveIndicesComplete(totals: seq<real>)
    ensures forall k | 0 <= k < |totals| && totals[k] > 0.0 :: k in PositiveIndices(totals)
  {
    if totals != [] {
      var n := |totals| - 1;
      PositiveIndicesComplete(totals[..n]);
      forall k | 0 <= k < |totals| && totals[k] > 0.0 ensures k in PositiveIndices(totals) {
        if k < n {
          assert totals[..n][k] == totals[k];
        }
      }
    }
  }

  /** Entry `i` of the filtered years is the year at the i-th positive position. */
  lemma {:induction false} NonZeroYearsAt(years: seq<int>, totals: seq<real>)
    requires |years| == |totals|
    ensures var idx := PositiveIndices(totals);
      && |NonZeroYears(years, totals)| == |idx|
      && forall i | 0 <= i < |idx| :: NonZeroYears(years, totals)[i] == years[idx[i]]
  {
    if totals != [] {
      var n := |totals| - 1;
      NonZeroYearsAt(years[..n], totals[..n]);
      var idx0, ys0 := PositiveIndices(totals[..n]), NonZeroYears(years[..n], totals[..n]);
      assert PositiveIndices(totals) == idx0 + (if totals[n] > 0.0 then [n] else []);
      assert NonZeroYears(years, totals) == ys0 + (if totals[n] > 0.0 then [years[n]] else []);
      var idx, ys := PositiveIndices(totals), NonZeroYears(years, totals);
      forall i | 0 <= i < |idx| ensures ys[i] == years[idx[i]] {
        if i < |idx0| {
          assert ys[i] == ys0[i] && idx[i] == idx0[i];
          assert years[..n][idx0[i]] == years[idx0[i]];
        } else {
          assert ys[i] == years[n] && idx[i] == n;
        }
      }
    }
  }

  /** Entry `i` of the filtered totals is the total at the i-th positive position. */
  lemma {:induction false} NonZeroEmissionsAt(totals: seq<real>)
    ensures var idx := PositiveIndices(totals);
      && |NonZeroEmissions(totals)| == |idx|
      && forall i | 0 <= i < |idx| :: NonZeroEmissions(totals)[i] == totals[idx[i]]
  {
    if totals != [] {
      var n := |totals| - 1;
      NonZeroEmissionsAt(totals[..n]);
      var idx0, es0 := PositiveIndices(totals[..n]), NonZeroEmissions(totals[..n]);
      assert PositiveIndices(totals) == idx0 + (if totals[n] > 0.0 then [n] else []);
      assert NonZeroEmissions(totals) == es0 + (if totals[n] > 0.0 then [totals[n]] else []);
      forall i | 0 <= i < |idx0| ensures es0[i] == totals[idx0[i]] {
        assert totals[..n][idx0[i]] == totals[idx0[i]];
      }
    }
  }

  /**
   The two filtered lists have the same length and stay paired: entry `i`
   of each comes from the same position of the input, the i-th positive one.
   */
  lemma FilterKeepsPairs(years: seq<int>, totals: seq<real>)
    requires |years| == |totals|
    ensures var idx := PositiveIndices(totals);
      && |NonZeroYears(years, totals)| == |idx|
      && |NonZeroEmissions(totals)| == |idx|
      && forall i | 0 <= i < |idx| ::
           NonZeroYears(years, totals)[i] == years[idx[i]] && NonZeroEmissions(totals)[i] == totals[idx[i]]
  {
    NonZeroYearsAt(years, totals);
    NonZeroEmissionsAt(totals);
  }

  /** `total_emissions_by_year` for each year of `years`. */
  function YearTotals(f: Footprint, years: seq<int>): (totals: seq<real>)
    reads f
    requires f.Valid()
    ensures |totals| == |years|
    ensures forall i | 0 <= i < |years| :: totals[i] == f.Total(years[i])
  {
    if years == [] then [] else YearTotals(f, years[..|years| - 1]) + [f.Total(years[|years| - 1])]
  }

  /** The years and the totals `plot_total_emissions` draws. */
  function PlotTotalEmissions(f: Footprint): (r: (seq<int>, seq<real>))
    reads f
    requires f.Valid()
    ensures |r.0| == |r.1|
    ensures forall i | 0 <= i < |r.0| :: FirstYear <= r.0[i] < EndYear && r.1[i] == f.Total(r.0[i]) && r.1[i] > 0.0
  {
    var years := YearRange();
    var totals := YearTotals(f, years);
    FilterKeepsPairs(years, totals);
    (NonZeroYears(years, totals), NonZeroEmissions(totals))
  }

  /** Over the years 2010..2049 the filtered years are strictly ascending. */
  lemma FilteredYearsAscending(totals: seq<real>)
    requires |totals| == EndYear - FirstYear
    ensures var ys := NonZeroYears(YearRange(), totals);
      forall i, j | 0 <= i < j < |ys| :: ys[i] < ys[j]
  {
    NonZeroYearsAt(YearRange(), totals);
  }

  /** Every year whose total is positive survives the filter. */
  lemma PositiveYearsKept(years: seq<int>, totals: seq<real>)
    requires |years| == |totals|
    ensures forall k | 0 <= k < |totals| && totals[k] > 0.0 :: years[k] in NonZeroYears(years, totals)
  {
    NonZeroYearsAt(years, totals);
    PositiveIndicesComplete(totals);
    var idx := PositiveIndices(totals);
    forall k | 0 <= k < |totals| && totals[k] > 0.0 ensures years[k] in NonZeroYears(years, totals) {
      var i :| 0 <= i < |idx| && idx[i] == k;
      assert NonZeroYears(years, totals)[i] == years[k];
    }
  }

  /**
   The chart shows, in ascending year order, exactly the years 2010..2049
   whose total is positive, each with its total.
   */
  lemma PlotTotalEmissionsSpec(f: Footprint)
    requires f.Valid()
    ensures var (ys, es) := PlotTotalEmissions(f);
      && |ys| == |es|
      && (forall i, j | 0 <= i < j < |ys| :: ys[i] < ys[j])
      && (forall i | 0 <= i < |ys| :: FirstYear <= ys[i] < EndYear && es[i] == f.Total(ys[i]) && es[i] > 0.0)
      && (forall y | FirstYear <= y < EndYear && f.Total(y) > 0.0 :: y in ys)
  {
    var years := YearRange();
    var totals := YearTotals(f, years);
    var ys := PlotTotalEmissions(f).0;
    assert ys == NonZeroYears(years, totals);
    FilteredYearsAscending(totals);
    PositiveYearsKept(years, totals);
    forall y | FirstYear <= y < EndYear && f.Total(y) > 0.0 ensures y in ys {
      var k := y - FirstYear;
      assert years[k] == y && totals[k] > 0.0;
    }
  }

  /** A year with no entry at all is left out of the chart. */
  lemma YearWithoutEntriesNotPlotted(f: Footprint, y: int)
    requires f.Valid()
    requires forall s, u :: (s, u, y) !in f.values
    ensures y !in PlotTotalEmissions(f).0
  {
    PlotTotalEmissionsSpec(f);
  }
}
