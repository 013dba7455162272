/**
 The fixed catalog the tracker starts with (`initialize_sectors`), and the
 start-up sequence: a new store, then the catalog.
 */
module Catalog {

  import opened Totals
  import opened Emissions

  /** The sectors and their use cases, in definition order. */
  const SectorsData: seq<(string, seq<string>)> := [
    ("Energy", ["Electricity", "Fuel Combustion", "Thermal Energy"]),
    ("Production and Manufacturing", ["Production Processes"]),
    ("Transportation and Storage", ["Logistics"]),
    ("Water Supply and Waste Management", ["Water Treatment"]),
    ("Wholesale and Retail Trade", ["Distribution Centers"]),
    ("Agriculture", ["Livestock", "Farming"])
  ]

  /** The benchmarks (tCO2eq) `initialize_sectors` sets, in call order. */
  const BenchmarkData: seq<(string, string, real)> := [
    ("Energy", "Electricity", 12.1),
    ("Energy", "Fuel Combustion", 42.0),
    ("Production and Manufacturing", "Production Processes", 18.3),
    ("Transportation and Storage", "Logistics", 10.8),
    ("Water Supply and Waste Management", "Water Treatment", 0.8),
    ("Wholesale and Retail Trade", "Distribution Centers", 2.2),
    ("Agriculture", "Livestock", 48.55),
    ("Agriculture", "Farming", 17.32)
  ]

  /** The keys of a sectors table, in order. */
  function Names(data: seq<(string, seq<string>)>): (names: seq<string>)
    ensures |names| == |data|
    ensures forall i | 0 <= i < |data| :: names[i] == data[i].0
  {
    seq(|data|, i requires 0 <= i < |data| => data[i].0)
  }

  /** The catalog's sector names are distinct, and so are each sector's use cases. */
  lemma CatalogDistinct()
    ensures Distinct(Names(SectorsData))
    ensures forall i | 0 <= i < |SectorsData| :: Distinct(SectorsData[i].1)
  {
  }

  /**
   The first `n` entries of a sectors table are the defined sectors, in
   order, each with its use cases and zero benchmarks.
   */
  predicate TableUpTo(sectors: seq<string>, useCases: map<string, seq<string>>, benchmark: map<string, map<string, real>>,
                      data: seq<(string, seq<string>)>, n: nat)
    requires n <= |data|
  {
    && sectors == Names(data)[..n]
    && forall k | 0 <= k < n ::
         && data[k].0 in useCases && useCases[data[k].0] == FirstOccurrences(data[k].1)
         && data[k].0 in benchmark && benchmark[data[k].0] == ZeroBenchmarks(data[k].1)
  }

  /** Defining entry `n` (a new key) extends the first `n` entries to `n + 1`. */
  lemma DefineExtendsTable(sectors: seq<string>, useCases: map<string, seq<string>>, benchmark: map<string, map<string, real>>,
                           data: seq<(string, seq<string>)>, n: nat)
    requires n < |data| && Distinct(Names(data))
    requires TableUpTo(sectors, useCases, benchmark, data, n)
    ensures data[n].0 !in sectors
    ensures TableUpTo(sectors + [data[n].0], useCases[data[n].0 := FirstOccurrences(data[n].1)],
                      benchmark[data[n].0 := ZeroBenchmarks(data[n].1)], data, n + 1)
  {
    var names := Names(data);
    assert names[n] !in names[..n];
    assert names[..n + 1] == names[..n] + [names[n]];
    forall k | 0 <= k < n ensures data[k].0 != data[n].0 {
      assert names[k] != names[n];
    }
  }

  /** One iteration of the loop of `initialize_sectors`: `emission_sector` for entry `i`. */
  method DefineNext(f: Footprint, data: seq<(string, seq<string>)>, i: nat)
    requires i < |data| && Distinct(Names(data))
    requires f.Valid() && TableUpTo(f.sectors, f.useCases, f.benchmark, data, i)
    modifies f
    ensures f.Valid() && TableUpTo(f.sectors, f.useCases, f.benchmark, data, i + 1)
    ensures f.values == WithoutSector(old(f.values), data[i].0)
    ensures f.entered == old(f.entered) - {data[i].0}
  {
    DefineExtendsTable(f.sectors, f.useCases, f.benchmark, data, i);
    f.EmissionSector(data[i].0, data[i].1);
  }

  /**
   The loop of `initialize_sectors`: `emission_sector` for each entry of a
   sectors table (a dict, so its keys are distinct), on a store with no
   sectors yet.  The store then holds exactly those sectors, in order, each
   with its use cases, zero benchmarks and no entries.
   */
  method DefineSectors(f: Footprint, data: seq<(string, seq<string>)>)
    requires f.Valid() && f.sectors == []
    requires Distinct(Names(data))
    modifies f
    ensures f.Valid()
    ensures f.sectors == Names(data)
    ensures forall i | 0 <= i < |data| ::
      && f.useCases[data[i].0] == FirstOccurrences(data[i].1)
      && f.benchmark[data[i].0] == ZeroBenchmarks(data[i].1)
    ensures f.values == old(f.values) && f.entered == old(f.entered)
  {
    for i := 0 to |data|
      invariant f.Valid() && TableUpTo(f.sectors, f.useCases, f.benchmark, data, i)
      invariant f.values == old(f.values) && f.entered == old(f.entered)
    {
      DefineNext(f, data, i);
    }
    assert Names(data)[..|data|] == Names(data);
  }

  /** The (sector, use case) pair of each benchmark call. */
  function Pairs(calls: seq<(string, string, real)>): (ps: seq<(string, string)>)
    ensures |ps| == |calls|
    ensures forall i | 0 <= i < |calls| :: ps[i] == (calls[i].0, calls[i].1)
  {
    seq(|calls|, i requires 0 <= i < |calls| => (calls[i].0, calls[i].1))
  }

  /** `emission_benchmark(s, u, v)` on the benchmark table alone. */
  function BenchmarkStep(benchmark: map<string, map<string, real>>, useCases: map<string, seq<string>>, call: (string, string, real))
    : (r: map<string, map<string, real>>)
    ensures forall t :: t in r <==> t in benchmark
    ensures forall t | t in r && t != call.0 :: r[t] == benchmark[t]
    ensures call.0 in benchmark && call.0 in useCases && call.1 in useCases[call.0] ==>
      r[call.0] == benchmark[call.0][call.1 := call.2]
    ensures !(call.0 in benchmark && call.0 in useCases && call.1 in useCases[call.0]) ==> r == benchmark
  {
    var (s, u, v) := call;
    if s in benchmark && s in useCases && u in useCases[s] then benchmark[s := benchmark[s][u := v]] else benchmark
  }

  /** The benchmark table after each of `calls` in turn. */
  function ApplyBenchmarks(benchmark: map<string, map<string, real>>, useCases: map<string, seq<string>>,
                           calls: seq<(string, string, real)>): (r: map<string, map<string, real>>)
    ensures forall t :: t in r <==> t in benchmark
  {
    if calls == [] then benchmark
    else BenchmarkStep(ApplyBenchmarks(benchmark, useCases, calls[..|calls| - 1]), useCases, calls[|calls| - 1])
  }

  /**
   Benchmark calls on distinct, defined (sector, use case) pairs: each pair
   ends with its value, every other benchmark is as it was, and the only
   keys added are the called pairs.
   */
  lemma {:induction false} ApplyBenchmarksSpec(benchmark: map<string, map<string, real>>, useCases: map<string, seq<string>>,
                                               calls: seq<(string, string, real)>)
    requires Distinct(Pairs(calls))
    requires forall i | 0 <= i < |calls| ::
      calls[i].0 in benchmark && calls[i].0 in useCases && calls[i].1 in useCases[calls[i].0]
    ensures var r := ApplyBenchmarks(benchmark, useCases, calls);
      && (forall s :: s in r <==> s in benchmark)
      && (forall s | s in r :: forall u :: u in r[s] <==> u in benchmark[s] || (s, u) in Pairs(calls))
      && (forall i | 0 <= i < |calls| :: r[calls[i].0][calls[i].1] == calls[i].2)
      && (forall s, u | s in benchmark && u in benchmark[s] && (s, u) !in Pairs(calls) :: r[s][u] == benchmark[s][u])
  {
    if calls != [] {
      var init := calls[..|calls| - 1];
      var ps, ps' := Pairs(calls), Pairs(init);
      assert ps' == ps[..|calls| - 1];
      assert ps == ps' + [ps[|calls| - 1]];
      ApplyBenchmarksSpec(benchmark, useCases, init);
      forall i | 0 <= i < |init| ensures (init[i].0, init[i].1) != (calls[|calls| - 1].0, calls[|calls| - 1].1) {
        assert ps[i] != ps[|calls| - 1];
      }
    }
  }

  /** One more call extends the table after the first `k` calls to the first `k + 1`. */
  lemma ApplyBenchmarksPrefix(benchmark: map<string, map<string, real>>, useCases: map<string, seq<string>>,
                              calls: seq<(string, string, real)>, k: nat)
    requires k < |calls|
    ensures ApplyBenchmarks(benchmark, useCases, calls[..k + 1])
         == BenchmarkStep(ApplyBenchmarks(benchmark, useCases, calls[..k]), useCases, calls[k])
  {
    assert calls[..k + 1][..k] == calls[..k];
  }

  /** Use case `u` of sector `s` is listed in the sectors table. */
  ghost predicate InTable(data: seq<(string, seq<string>)>, s: string, u: string)
  {
    exists j | 0 <= j < |data| :: data[j].0 == s && u in data[j].1
  }

  /** Each benchmark call of the catalog names a sector of the catalog and one of its use cases. */
  lemma CatalogPairsDefined()
    ensures forall i | 0 <= i < |BenchmarkData| :: InTable(SectorsData, BenchmarkData[i].0, BenchmarkData[i].1)
  {
    var sectorOf := [0, 0, 1, 2, 3, 4, 5, 5];
    forall i | 0 <= i < |BenchmarkData| ensures InTable(SectorsData, BenchmarkData[i].0, BenchmarkData[i].1) {
      var j := sectorOf[i];
      assert SectorsData[j].0 == BenchmarkData[i].0 && BenchmarkData[i].1 in SectorsData[j].1;
    }
  }

  /** No (sector, use case) pair is given a benchmark twice. */
  lemma BenchmarkPairsDistinct()
    ensures Distinct(Pairs(BenchmarkData))
  {
  }

  /**
   The `emission_benchmark` calls of `initialize_sectors`, one per entry of
   `calls`, in order.
   */
  method SetBenchmarks(f: Footprint, calls: seq<(string, string, real)>)
    requires f.Valid()
    modifies f`benchmark
    ensures f.Valid()
    ensures f.benchmark == ApplyBenchmarks(old(f.benchmark), f.useCases, calls)
  {
    ghost var start := f.benchmark;
    for k := 0 to |calls|
      invariant f.Valid()
      invariant f.benchmark == ApplyBenchmarks(start, f.useCases, calls[..k])
    {
      var (s, u, v) := calls[k];
      f.EmissionBenchmark(s, u, v);
      ApplyBenchmarksPrefix(start, f.useCases, calls, k);
    }
    assert calls[..|calls|] == calls;
  }

  /**
   A sectors table defined on a store with no sectors, followed by benchmark
   calls on distinct listed pairs: every sector has its use cases, every
   called pair its value, and every other use case the benchmark 0.
   */
  lemma TableBenchmarks(data: seq<(string, seq<string>)>, calls: seq<(string, string, real)>,
                        sectors: seq<string>, useCases: map<string, seq<string>>, start: map<string, map<string, real>>)
    requires Distinct(Names(data))
    requires Distinct(Pairs(calls))
    requires forall i | 0 <= i < |calls| :: InTable(data, calls[i].0, calls[i].1)
    requires forall s :: s in start <==> s in sectors
    requires sectors == Names(data)
    requires forall i | 0 <= i < |data| ::
      && data[i].0 in useCases && useCases[data[i].0] == FirstOccurrences(data[i].1)
      && data[i].0 in start && start[data[i].0] == ZeroBenchmarks(data[i].1)
    ensures var r := ApplyBenchmarks(start, useCases, calls);
      && (forall s :: s in r <==> s in start)
      && (forall i | 0 <= i < |calls| ::
            && calls[i].0 in r && calls[i].1 in r[calls[i].0]
            && r[calls[i].0][calls[i].1] == calls[i].2)
      && (forall s, u | s in r && u in r[s] && (s, u) !in Pairs(calls) :: r[s][u] == 0.0)
  {
    forall i | 0 <= i < |calls|
      ensures calls[i].0 in start && calls[i].0 in useCases && calls[i].1 in useCases[calls[i].0]
    {
      var j :| 0 <= j < |data| && data[j].0 == calls[i].0 && calls[i].1 in data[j].1;
    }
    ApplyBenchmarksSpec(start, useCases, calls);
    forall s, u | s in start && u in start[s] ensures start[s][u] == 0.0 {
      var j :| 0 <= j < |data| && Names(data)[j] == s;
    }
  }

  /**
   `initialize_sectors` on a store with no sectors yet (it runs right after
   `Footprint()`): defines the six sectors in order, then sets the eight
   benchmarks.  The store then holds exactly the catalog: its sectors and
   use cases, the listed benchmarks and 0 for every other use case.
   */
  method InitializeSectors(f: Footprint)
    requires f.Valid() && f.sectors == []
    modifies f
    ensures f.Valid()
    ensures f.sectors == Names(SectorsData)
    ensures forall i | 0 <= i < |SectorsData| :: SectorsData[i].0 in f.useCases && f.useCases[SectorsData[i].0] == SectorsData[i].1
    ensures forall i | 0 <= i < |BenchmarkData| ::
      && BenchmarkData[i].0 in f.benchmark && BenchmarkData[i].1 in f.benchmark[BenchmarkData[i].0]
      && f.benchmark[BenchmarkData[i].0][BenchmarkData[i].1] == BenchmarkData[i].2
    ensures forall s, u | s in f.benchmark && u in f.benchmark[s] && (s, u) !in Pairs(BenchmarkData) :: f.benchmark[s][u] == 0.0
    ensures f.values == map[] && f.entered == map[]
  {
    assert f.values == map[] && f.entered == map[] by {
      assert f.useCases == map[];
    }
    CatalogDistinct();
    CatalogPairsDefined();
    BenchmarkPairsDistinct();
    DefineSectors(f, SectorsData);
    TableBenchmarks(SectorsData, BenchmarkData, f.sectors, f.useCases, f.benchmark);
    SetBenchmarks(f, BenchmarkData);
  }
}
