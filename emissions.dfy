/**
 The Footprint emissions store: sectors, each with a fixed list of use
 cases; a benchmark per use case; and the values entered per
 (sector, use case, year).  Writers check that the sector and use case
 exist and silently do nothing otherwise.
 */
module Emissions {

  import opened Wrappers
  import opened Totals
  import opened Forest

  /** How an entered value compares to its benchmark, with the positive gap. */
  datatype Verdict = Excess(over: real) | BelowStandard(under: real) | AtStandard

  /** One use case as shown for a sector and year. */
  datatype Line = Line(useCase: string, value: real, benchmark: real, verdict: Verdict)

  /** What is shown for one sector and year. */
  datatype SectorReport = SectorReport(lines: seq<Line>, total: real, trees: int, forest: seq<Tree>)

  /** The gap of a verdict, signed: positive for excess, negative below standard. */
  function SignedGap(v: Verdict): real
  {
    match v
    case Excess(over) => over
    case BelowStandard(under) => -under
    case AtStandard => 0.0
  }

  /** The warning/success branches: excess when above, below standard when under, nothing when equal. */
  function Classify(value: real, benchmark: real): (v: Verdict)
    ensures v.Excess? <==> value > benchmark
    ensures v.BelowStandard? <==> value < benchmark
    ensures v.Excess? ==> v.over > 0.0
    ensures v.BelowStandard? ==> v.under > 0.0
    ensures value == benchmark + SignedGap(v)
  {
    if value > benchmark then Excess(value - benchmark)
    else if value < benchmark then BelowStandard(benchmark - value)
    else AtStandard
  }

  /** `{use_case: 0 for use_case in use_cases}` */
  function ZeroBenchmarks(ucs: seq<string>): (m: map<string, real>)
    ensures forall u :: u in m <==> u in ucs
    ensures forall u | u in m :: m[u] == 0.0
  {
    map u | u in ucs :: 0.0
  }

  /** The store without any entry of sector `s`. */
  function WithoutSector(values: map<Key, real>, s: string): (r: map<Key, real>)
    ensures forall k :: k in r <==> k in values && k.0 != s
    ensures forall k | k in r :: r[k] == values[k]
  {
    map k | k in values && k.0 != s :: values[k]
  }

  /**
   The defined sectors are distinct and listed once each; every sector has
   distinct use cases, and a benchmark for exactly those use cases.
   */
  ghost predicate CatalogOk(sectors: seq<string>, useCases: map<string, seq<string>>, benchmark: map<string, map<string, real>>)
  {
    && Distinct(sectors)
    && (forall s :: s in sectors <==> s in useCases)
    && (forall s :: s in useCases <==> s in benchmark)
    && (forall s | s in useCases :: Distinct(useCases[s]) && forall u :: u in useCases[s] <==> u in benchmark[s])
  }

  ghost predicate HasEntry(values: map<Key, real>, s: string, u: string)
  {
    exists y :: (s, u, y) in values
  }

  /**
   Every entry belongs to a defined use case and is listed in `entered`;
   `entered` lists, per defined sector, distinct use cases that have entries.
   */
  ghost predicate EntriesOk(useCases: map<string, seq<string>>, values: map<Key, real>, entered: map<string, seq<string>>)
  {
    && (forall s | s in entered ::
          s in useCases && Distinct(entered[s]) && forall u | u in entered[s] :: u in useCases[s] && HasEntry(values, s, u))
    && (forall k | k in values :: k.0 in entered && k.1 in entered[k.0])
  }

  /** `entered` after a first entry for `u` of sector `s` (`setdefault` on the session store). */
  function NoteEntry(entered: map<string, seq<string>>, s: string, u: string): (r: map<string, seq<string>>)
    ensures s in r && u in r[s]
    ensures s in entered && u in entered[s] ==> r[s] == entered[s]
    ensures !(s in entered && u in entered[s]) ==> r[s] == (if s in entered then entered[s] else []) + [u]
    ensures forall t | t != s :: (t in r <==> t in entered) && (t in entered ==> r[t] == entered[t])
  {
    var order := if s in entered then entered[s] else [];
    if u in order then entered else entered[s := order + [u]]
  }

  lemma RecordKeepsEntriesOk(useCases: map<string, seq<string>>, values: map<Key, real>, entered: map<string, seq<string>>, s: string, u: string, y: int, v: real)
    requires EntriesOk(useCases, values, entered)
    requires s in useCases && u in useCases[s]
    ensures EntriesOk(useCases, values[(s, u, y) := v], NoteEntry(entered, s, u))
  {
    var values', entered' := values[(s, u, y) := v], NoteEntry(entered, s, u);
    forall t, w | t in entered' && w in entered' [t] ensures HasEntry(values', t, w) {
      if t == s && w == u {
        assert (s, u, y) in values';
      } else {
        assert w in entered[t];
        var y0 :| (t, w, y0) in values;
        assert (t, w, y0) in values';
      }
    }
  }

  lemma ResetKeepsEntriesOk(useCases: map<string, seq<string>>, values: map<Key, real>, entered: map<string, seq<string>>, s: string, us: seq<string>)
    requires EntriesOk(useCases, values, entered)
    ensures EntriesOk(useCases[s := us], WithoutSector(values, s), entered - {s})
  {
    var values' := WithoutSector(values, s);
    forall t, w | t in entered - {s} && w in entered[t] ensures HasEntry(values', t, w) {
      var y0 :| (t, w, y0) in values;
      assert (t, w, y0) in values';
    }
  }

  lemma DefineKeepsCatalogOk(sectors: seq<string>, useCases: map<string, seq<string>>, benchmark: map<string, map<string, real>>, s: string, ucs: seq<string>)
    requires CatalogOk(sectors, useCases, benchmark)
    ensures CatalogOk(if s in sectors then sectors else sectors + [s],
                      useCases[s := FirstOccurrences(ucs)], benchmark[s := ZeroBenchmarks(ucs)])
  {
    if s !in sectors {
      var sectors' := sectors + [s];
      assert Distinct(sectors') by {
        forall i, j | 0 <= i < j < |sectors'| ensures sectors'[i] != sectors'[j] {
          if j == |sectors| { assert sectors'[i] in sectors; }
        }
      }
    }
  }

  class Footprint {
    /** Sector names, in the order they were first defined. */
    var sectors: seq<string>
    /** The use cases of each sector, in the order given. */
    var useCases: map<string, seq<string>>
    var benchmark: map<string, map<string, real>>
    /** The entered values; a missing key means "not entered". */
    var values: map<Key, real>
    /** For each sector, its use cases in the order they first received a value. */
    var entered: map<string, seq<string>>

    ghost predicate Valid()
      reads this
    {
      CatalogOk(sectors, useCases, benchmark) && EntriesOk(useCases, values, entered)
    }

    constructor ()
      ensures Valid()
      ensures sectors == [] && useCases == map[] && benchmark == map[] && values == map[] && entered == map[]
    {
      sectors, useCases, benchmark, values, entered := [], map[], map[], map[], map[];
    }

    /** The guard of the writers: the sector and the use case both exist. */
    predicate Defined(s: string, u: string)
      reads this
    {
      s in useCases && u in useCases[s]
    }

    /** Total emissions of year `y` over every defined sector and use case, missing entries as 0. */
    function Total(y: int): (t: real)
      reads this
      requires Valid()
      ensures (forall k | k in values :: k.2 != y) ==> t == 0.0
    {
      if forall k | k in values :: k.2 != y then
        GrandSumNoEntries(values, useCases, sectors, y);
        GrandSum(values, useCases, sectors, y)
      else
        GrandSum(values, useCases, sectors, y)
    }

    /** Emissions of sector `s` in year `y` over all its use cases, missing entries as 0. */
    function SectorTotal(s: string, y: int): real
      reads this
      requires Valid() && s in useCases
    {
      SectorSum(values, s, useCases[s], y)
    }

    /** The use cases of `s` that have an entry, in order of their first entry. */
    function EnteredOrder(s: string): seq<string>
      reads this
    {
      if s in entered then entered[s] else []
    }

    /** The line shown for use case `u` of sector `s` in year `y`. */
    function LineFor(s: string, u: string, y: int): Line
      reads this
      requires s in benchmark && u in benchmark[s]
    {
      LineOf(values, benchmark[s], s, u, y)
    }

    /**
     `emission_sector`: (re)defines sector `s` with the use cases `ucs`, each
     with benchmark 0 and no entered value.  A new sector goes last; a
     redefined one keeps its place and loses its entries.
     */
    method EmissionSector(s: string, ucs: seq<string>)
      requires Valid()
      modifies this
      ensures Valid()
      ensures sectors == if s in old(sectors) then old(sectors) else old(sectors) + [s]
      ensures useCases == old(useCases)[s := FirstOccurrences(ucs)]
      ensures benchmark == old(benchmark)[s := ZeroBenchmarks(ucs)]
      ensures values == WithoutSector(old(values), s)
      ensures entered == old(entered) - {s}
    {
      ghost var sectors0, useCases0, benchmark0, values0, entered0 := sectors, useCases, benchmark, values, entered;
      var us := FirstOccurrences(ucs);
      sectors, useCases, benchmark, values, entered :=
        if s in sectors then sectors else sectors + [s],
        useCases[s := us], benchmark[s := ZeroBenchmarks(ucs)], WithoutSector(values, s), entered - {s};
      assert Valid() by {
        DefineKeepsCatalogOk(sectors0, useCases0, benchmark0, s, ucs);
        ResetKeepsEntriesOk(useCases0, values0, entered0, s, us);
      }
    }

    /**
     `emission_benchmark`: sets the benchmark of use case `u` of sector `s`
     to `v` when both exist; otherwise nothing changes.
     */
    method EmissionBenchmark(s: string, u: string, v: real)
      requires Valid()
      modifies this`benchmark
      ensures Valid()
      ensures benchmark == if Defined(s, u) then old(benchmark)[s := old(benchmark)[s][u := v]] else old(benchmark)
    {
      if s in benchmark && u in useCases[s] {
        benchmark := benchmark[s := benchmark[s][u := v]];
      }
    }

    /**
     `input_value` with the number typed by the user as `input`: when the
     sector and use case exist and a number was given, it replaces the entry
     of (s, u, y); no input, or an unknown sector or use case, changes nothing.
     */
    method InputValue(s: string, u: string, y: int, input: Option<real>)
      requires Valid()
      modifies this`values, this`entered
      ensures Valid()
      ensures values == if Defined(s, u) && input.Some? then old(values)[(s, u, y) := input.value] else old(values)
      ensures entered == if Defined(s, u) && input.Some? then NoteEntry(old(entered), s, u) else old(entered)
      ensures Defined(s, u) && input.Some? ==>
        Total(y) == old(Total(y)) - old(ValueOr0(values, s, u, y)) + input.value
      ensures forall y' | y' != y :: Total(y') == old(Total(y'))
    {
      if s in useCases && u in useCases[s] && input.Some? {
        RecordKeepsEntriesOk(useCases, values, entered, s, u, y, input.value);
        RecordTotals(values, useCases, sectors, s, u, y, input.value);
        values, entered := values[(s, u, y) := input.value], NoteEntry(entered, s, u);
      }
    }

    /**
     `total_emissions_by_year`: walks every sector and use case and adds the
     entered value for `y` when it is non-zero.
     */
    method TotalEmissionsByYear(y: int) returns (total: real)
      requires Valid()
      ensures total == Total(y)
    {
      total := 0.0;
      for i := 0 to |sectors|
        invariant total == GrandSum(values, useCases, sectors[..i], y)
      {
        var s := sectors[i];
        var us := useCases[s];
        assert sectors[..i + 1][..i] == sectors[..i];
        for j := 0 to |us|
          invariant total == GrandSum(values, useCases, sectors[..i], y) + SectorSum(values, s, us[..j], y)
        {
          assert us[..j + 1][..j] == us[..j];
          if (s, us[j], y) in values && values[(s, us[j], y)] != 0.0 {
            total := total + values[(s, us[j], y)];
          }
        }
        assert us[..|us|] == us;
      }
      assert sectors[..|sectors|] == sectors;
    }

    /**
     The use-case lines of `display_values` for a defined sector, one per
     use case with entries, and the sum of their values for `y`, which is
     the sector's total for `y`.
     */
    method SectorLines(s: string, y: int) returns (lines: seq<Line>, total: real)
      requires Valid() && s in useCases
      ensures |lines| == |EnteredOrder(s)|
      ensures forall i | 0 <= i < |EnteredOrder(s)| :: lines[i] == LineFor(s, EnteredOrder(s)[i], y)
      ensures total == SectorTotal(s, y)
    {
      var order := if s in entered then entered[s] else [];
      EnteredCoversEntries(useCases, values, entered, s, y);
      lines, total := CollectLines(values, benchmark[s], s, order, y);
      SectorSumOverSubset(values, s, order, useCases[s], y);
    }

    /**
     `display_values`: for a defined sector, one line per use case that has
     entries, the sector's total for the year, and the forest for the grand
     total of the year; nothing for an unknown sector.
     */
    method DisplayValues(s: string, y: int, sample: nat -> real) returns (r: Option<SectorReport>)
      requires Valid()
      ensures r.None? <==> s !in useCases
      ensures r.Some? ==>
        && s in useCases
        && |r.value.lines| == |EnteredOrder(s)|
        && (forall i | 0 <= i < |EnteredOrder(s)| :: r.value.lines[i] == LineFor(s, EnteredOrder(s)[i], y))
        && r.value.total == SectorTotal(s, y)
        && r.value.trees == TreesToOffset(Total(y))
        && r.value.forest == PlantedForest(r.value.trees, sample)
    {
      if s !in useCases {
        return None;
      }
      var lines, total := SectorLines(s, y);
      var grand := TotalEmissionsByYear(y);
      var numTrees := TruncateTowardZero(grand * TreesPerTon);
      var forest := GenerateForest(numTrees, sample);
      r := Some(SectorReport(lines, total, numTrees, forest));
    }
  }

  /** The line of use case `u` of sector `s` for year `y`, against the sector's benchmarks `bs`. */
  function LineOf(values: map<Key, real>, bs: map<string, real>, s: string, u: string, y: int): Line
    requires u in bs
  {
    var value := ValueOr0(values, s, u, y);
    Line(u, value, bs[u], Classify(value, bs[u]))
  }

  /**
   The loop of `display_values`: one line per use case of `order`, in
   order, and the sum of their values for `y`.
   */
  method CollectLines(values: map<Key, real>, bs: map<string, real>, s: string, order: seq<string>, y: int)
    returns (lines: seq<Line>, total: real)
    requires forall u | u in order :: u in bs
    ensures |lines| == |order|
    ensures forall i | 0 <= i < |order| :: lines[i] == LineOf(values, bs, s, order[i], y)
    ensures total == SectorSum(values, s, order, y)
  {
    lines := [];
    total := 0.0;
    for i := 0 to |order|
      invariant |lines| == i
      invariant forall j | 0 <= j < i :: lines[j] == LineOf(values, bs, s, order[j], y)
      invariant total == SectorSum(values, s, order[..i], y)
    {
      var u := order[i];
      var value := if (s, u, y) in values then values[(s, u, y)] else 0.0;
      lines := lines + [Line(u, value, bs[u], Classify(value, bs[u]))];
      assert order[..i + 1][..i] == order[..i];
      total := total + value;
    }
    assert order[..|order|] == order;
  }

  /**
   The use cases of sector `s` listed as entered are distinct use cases of
   `s`, and no other use case of `s` has an entry.
   */
  lemma EnteredCoversEntries(useCases: map<string, seq<string>>, values: map<Key, real>, entered: map<string, seq<string>>, s: string, y: int)
    requires EntriesOk(useCases, values, entered)
    requires s in useCases
    ensures var order := if s in entered then entered[s] else [];
      && Distinct(order)
      && (forall u | u in order :: u in useCases[s])
      && (forall u | u in useCases[s] && u !in order :: (s, u, y) !in values)
  {
  }

  /**
   Recording `v` for use case `u` of sector `s` in year `y` moves the grand
   total of `y` by `v` minus the old value, and leaves every other year's
   grand total as it was.
   */
  lemma RecordTotals(values: map<Key, real>, useCases: map<string, seq<string>>, ss: seq<string>, s: string, u: string, y: int, v: real)
    requires forall t | t in ss :: t in useCases
    requires Distinct(ss) && s in ss
    requires Distinct(useCases[s]) && u in useCases[s]
    ensures GrandSum(values[(s, u, y) := v], useCases, ss, y) == GrandSum(values, useCases, ss, y) - ValueOr0(values, s, u, y) + v
    ensures forall y' | y' != y :: GrandSum(values[(s, u, y) := v], useCases, ss, y') == GrandSum(values, useCases, ss, y')
  {
    GrandSumUpdate(values, useCases, ss, s, u, y, v);
    forall y' | y' != y ensures GrandSum(values[(s, u, y) := v], useCases, ss, y') == GrandSum(values, useCases, ss, y') {
      GrandSumOtherYear(values, useCases, ss, s, u, y, v, y');
    }
  }

  /** The grand total after `emission_sector(s, us)`: sector `s` contributes nothing any more. */
  lemma DefineSectorTotal(values: map<Key, real>, useCases: map<string, seq<string>>, ss: seq<string>, s: string, us: seq<string>, y: int)
    requires forall t :: t in ss <==> t in useCases
    requires Distinct(ss)
    ensures var ss' := if s in ss then ss else ss + [s];
      GrandSum(WithoutSector(values, s), useCases[s := us], ss', y)
      == GrandSum(values, useCases, ss, y) - (if s in useCases then SectorSum(values, s, useCases[s], y) else 0.0)
  {
    GrandSumResetSector(values, useCases, ss, s, us, y);
    if s !in ss {
      SectorSumNoEntries(WithoutSector(values, s), s, us, y);
      assert (ss + [s])[..|ss|] == ss;
    }
  }

  /**
   Redefining sector `s` (its entries dropped, its use cases replaced by
   `us`) removes exactly its old sector sum from the grand total.
   */
  lemma {:induction false} GrandSumResetSector(values: map<Key, real>, useCases: map<string, seq<string>>, ss: seq<string>, s: string, us: seq<string>, y: int)
    requires forall t | t in ss :: t in useCases
    requires Distinct(ss)
    ensures GrandSum(WithoutSector(values, s), useCases[s := us], ss, y)
         == GrandSum(values, useCases, ss, y) - (if s in ss then SectorSum(values, s, useCases[s], y) else 0.0)
  {
    if ss != [] {
      var init, last := ss[..|ss| - 1], ss[|ss| - 1];
      assert Distinct(init);
      GrandSumResetSector(values, useCases, init, s, us, y);
      if last == s {
        assert s !in init;
        SectorSumNoEntries(WithoutSector(values, s), s, us, y);
      } else {
        SectorSumAgree(WithoutSector(values, s), values, last, useCases[last], y);
      }
    }
  }
}
