# Carbon footprint tracker — verified model of the emissions store

The tracker keeps one `Footprint` store for a company:

- **Sectors.** Each sector (Energy, Agriculture, …) has a fixed list of use cases.
- **Benchmarks.** Each use case has a benchmark ("standard emissions", in tCO2eq).
- **Entries.** The user enters a value per use case and year.

Built on that store are:

- the total emissions of a year;
- the per-sector display;
- the number of trees that offsets a year's total, and the forest drawn from it;
- the data half of the chart of yearly totals;
- the catalog of six sectors and eight benchmarks installed at start-up.

The model is split into modules:

- `Totals` (totals.dfy):
  - Sums over a sparse value store `(sector, use case, year) -> value`, where a missing entry counts as 0.
  - Lemmas about how these sums react to an overwrite, a reset, or a reordering.
- `Forest` (forest.dfy):
  - `int(total * 45)` as truncation toward zero.
  - `generate_forest` as a loop.
  - The random source is a parameter `sample`, where `sample(k)` is the k-th draw.
- `Emissions` (emissions.dfy):
  - The `Footprint` class with its fields.
  - Its invariant `Valid`.
  - The writers `emission_sector`, `emission_benchmark` and `input_value`.
  - `total_emissions_by_year` and `display_values`, as methods with loops proved against the sum functions.
- `Plot` (plot.dfy): the year filter of `plot_total_emissions`.
- `Catalog` (catalog.dfy): `initialize_sectors`, on a generic sectors table and list of benchmark calls, instantiated at the catalog's own data.
- `Wrappers` (wrappers.dfy): `Option`.

Modelling choices:

- Numbers are Dafny `real`, so float rounding is not modelled.
- The number typed into the input widget is an `Option<real>` parameter: `None` means no input.
- `st.session_state` and `self.value` are written together by `input_value` (CSP.py:27-28), and the totals read the former (CSP.py:41-42). The model keeps one store `values`.
- The key order of `st.session_state[sector]` decides the order in which `display_values` lists use cases. It is kept in `entered`: per sector, the use cases in the order of their first entry.
- Python dicts keep insertion order:
  - The sectors are a sequence in definition order.
  - The use cases of a sector are the list given, with repeats dropped (the keys of a dict comprehension).

## Model

| member | source | states |
|---|---|---|
| Totals.FirstOccurrences | CSP.py:17 | The keys of `{u: ... for u in ucs}`: distinct, exactly the elements of `ucs`, and `ucs` itself when it has no repeats |
| Totals.SectorSumNoEntries | CSP.py:35-43 | A sector with no entry for the year sums to 0 |
| Totals.GrandSumNoEntries | CSP.py:35-43 | With nothing recorded for a year, the total over all sectors is 0 |
| Totals.SectorSumAgree | CSP.py:35-43 | A sector sum depends only on the year's values of that sector's use cases |
| Totals.GrandSumAgree | CSP.py:35-43 | The yearly total depends only on the year's values of defined use cases |
| Totals.SectorSumUpdate | CSP.py:21-28 | Overwriting one entry changes a sector sum by the new value minus the old value (0 if absent), only if the use case belongs to the sector: values are replaced, not accumulated |
| Totals.GrandSumUpdate | CSP.py:21-28 | The same for the total over distinct sectors |
| Totals.GrandSumOtherYear | CSP.py:21-28 | An entry for one year leaves the total of every other year unchanged |
| Totals.SectorSumRemoveAt | CSP.py:48-57 | Removing one use case from the list removes exactly its value from the sum |
| Totals.SectorSumOverSubset | CSP.py:48-57 | Summing over a distinct sub-list in any order equals the sum over all use cases when the use cases left out have no entry |
| Forest.TruncateTowardZero | CSP.py:62 | `int(x)`: the integer part of `x`, truncated toward zero; bounds for both signs |
| Forest.TreesToOffset | CSP.py:62 | `int(total * 45)`: for a non-negative total the largest integer not above 45 × total (so never negative); for a negative total the smallest integer not below it (so never positive) |
| Forest.TreesForNegativeTotal | CSP.py:62 | A negative total gives an empty forest, whatever the random draws |
| Forest.PlantedForest | CSP.py:69-77 | The forest for `n` trees has exactly `n` trees (none when `n <= 0`), each inside the unit square when the draws are in [0, 1) |
| Forest.GenerateForest | CSP.py:69-77 | The loop builds exactly the planted forest: tree `i` at draws `2i` and `2i+1` |
| Emissions.Classify | CSP.py:53-56 | Excess iff value > benchmark, below standard iff value < benchmark, neither when equal; the gaps are positive, and value = benchmark + signed gap |
| Emissions.ZeroBenchmarks | CSP.py:18 | A benchmark of 0 for exactly the listed use cases |
| Emissions.WithoutSector | CSP.py:19 | Exactly the entries of other sectors remain, each with its value unchanged |
| Emissions.NoteEntry | CSP.py:27 | `setdefault` then assignment: the use case is listed under its sector; a use case already listed keeps its place; a new one is appended last (a new sector starts its list); every other sector's list is unchanged |
| Emissions.RecordKeepsEntriesOk | CSP.py:21-28 | Recording a value for a defined use case keeps every entry tied to a listed, defined use case |
| Emissions.ResetKeepsEntriesOk | CSP.py:15-19 | Dropping a sector's entries while redefining it keeps the same invariant |
| Emissions.DefineKeepsCatalogOk | CSP.py:15-19 | Defining a sector keeps the sectors distinct, each with distinct use cases and a benchmark for exactly those |
| Emissions.Footprint.Total | CSP.py:35-43 | The yearly total over all defined sectors and use cases; it is 0 for a year with no entry |
| Emissions.Footprint.constructor | CSP.py:9-13 | A new store is empty and valid |
| Emissions.Footprint.EmissionSector | CSP.py:15-19 | The sector gets exactly the given use cases (repeats dropped), each with benchmark 0 and no entries; a new sector goes last; other sectors are unchanged |
| Emissions.Footprint.EmissionBenchmark | CSP.py:30-33 | Sets only the benchmark of (sector, use case), and only when both exist; otherwise no state changes |
| Emissions.Footprint.InputValue | CSP.py:21-28 | With no input, or an unknown sector or use case, nothing changes. Otherwise the entry of (sector, use case, year) is overwritten; the year's total moves by new value minus old value; other years' totals are unchanged |
| Emissions.Footprint.TotalEmissionsByYear | CSP.py:35-43 | The nested loop returns the sum over all defined sectors and use cases, missing entries as 0; skipping zero entries does not change it |
| Emissions.Footprint.SectorLines | CSP.py:47-59 | One line per entered use case, in the order of first entry, each with its value (0 if missing), benchmark and verdict; the running total equals the sector's total over all its use cases |
| Emissions.Footprint.DisplayValues | CSP.py:45-67 | Nothing for an unknown sector. Otherwise: the sector's lines and total; the tree count `int(45 × yearly total)`; the forest of exactly that many trees |
| Emissions.CollectLines | CSP.py:48-57 | The loop yields one line per use case of the list, in order, and the sum of their values |
| Emissions.EnteredCoversEntries | CSP.py:49 | The entered use cases of a sector are distinct use cases of it, and no other use case of it has an entry |
| Emissions.RecordTotals | CSP.py:35-43 | Overwriting one entry moves that year's total by new minus old and leaves other years' totals alone |
| Emissions.DefineSectorTotal | CSP.py:15-19 | After `emission_sector(s, ...)` the yearly total loses exactly the old sum of sector `s` |
| Emissions.GrandSumResetSector | CSP.py:15-19 | The same, over any distinct list of sectors |
| Plot.YearRange | CSP.py:121 | The years 2010 to 2049, in order |
| Plot.NonZeroYears | CSP.py:125 | The zip-filter of the years: no longer than either list |
| Plot.NonZeroYearsFromYears | CSP.py:125 | Every filtered year is one of the input years, for any two lengths (`zip` stops at the shorter) |
| Plot.NonZeroEmissions | CSP.py:126 | The filtered totals: no more than the totals, each positive |
| Plot.PositiveIndices | CSP.py:125-126 | Positions of positive totals, strictly increasing |
| Plot.PositiveIndicesComplete | CSP.py:125-126 | Every position of a positive total is among them |
| Plot.NonZeroYearsAt | CSP.py:125 | The filtered years are the years at the positive positions, in order |
| Plot.NonZeroEmissionsAt | CSP.py:126 | The filtered totals are the totals at the positive positions, in order |
| Plot.FilterKeepsPairs | CSP.py:125-126 | The two filtered lists have the same length and stay paired |
| Plot.YearTotals | CSP.py:122 | One total per year, each the store's total of that year |
| Plot.PlotTotalEmissions | CSP.py:119-126 | The plotted lists have equal length; each year is in 2010–2049 and is paired with its own total, which is positive |
| Plot.FilteredYearsAscending | CSP.py:121-125 | The filtered years 2010–2049 are strictly ascending |
| Plot.PositiveYearsKept | CSP.py:125 | Every year whose total is positive survives the filter |
| Plot.PlotTotalEmissionsSpec | CSP.py:119-126 | The chart data is paired, in ascending year order, and holds exactly the years 2010–2049 whose total is > 0, with those totals |
| Plot.YearWithoutEntriesNotPlotted | CSP.py:119-126 | A year with no entry does not appear in the chart |
| Catalog.CatalogDistinct | CSP.py:97-104 | The catalog's sector names are distinct, and so are each sector's use cases |
| Catalog.DefineExtendsTable | CSP.py:107-108 | Defining the next sector of the table extends the defined prefix by one |
| Catalog.DefineNext | CSP.py:107-108 | One iteration of the define loop keeps the store valid and extends the defined prefix |
| Catalog.DefineSectors | CSP.py:107-108 | On a store with no sectors, the loop leaves exactly the table's sectors in order, each with its use cases and zero benchmarks, and the entries untouched |
| Catalog.BenchmarkStep | CSP.py:30-33 | One `emission_benchmark` call: on a defined (sector, use case) only that sector's map changes, and only at that use case; otherwise the table is unchanged; the set of sectors never changes |
| Catalog.ApplyBenchmarks | CSP.py:110-117 | The calls in turn never add or remove a sector |
| Catalog.ApplyBenchmarksSpec | CSP.py:110-117 | Calls on distinct, defined pairs leave each pair with its value and every other benchmark as it was; the sectors are the same, and a sector's use-case keys grow only by the called pairs |
| Catalog.CatalogPairsDefined | CSP.py:97-117 | Each benchmark call of the catalog names a sector of the catalog and one of its use cases |
| Catalog.BenchmarkPairsDistinct | CSP.py:110-117 | No (sector, use case) pair is given a benchmark twice |
| Catalog.SetBenchmarks | CSP.py:110-117 | The calls, in order, leave the benchmark table as the benchmark steps do |
| Catalog.TableBenchmarks | CSP.py:95-117 | After defining a table and calling benchmarks on distinct listed pairs: every called pair has its value, every other use case has 0 |
| Catalog.InitializeSectors | CSP.py:95-117 | On a new store: the six sectors in order with their use cases; the eight listed benchmarks; 0 for every other use case (Thermal Energy); no entries |

## Left out

- The Streamlit interface is not modelled: `main_menu`, the select boxes, the number input and the write/warning/success/caption calls (CSP.py:135-161, and the UI calls in CSP.py:24 and 52-67). The text `display_values` writes is represented by the returned lines, total, tree count and forest.
- matplotlib drawing is not modelled: `plot_forest` and the plotting half of `plot_total_emissions` (CSP.py:79-93, 128-133). The model stops at the lists that are plotted.
- `np.random.rand` is a parameter `sample: nat -> real` (the k-th draw), not a random source.
- Floating-point rounding is not modelled: values, benchmarks and `total * 45` are exact reals.
- Floating-point overflow is not modelled: in the source a total whose `* 45` overflows to infinity makes `int()` raise OverflowError (and a NaN total makes it raise ValueError) (CSP.py:62); a real never overflows, so Forest.TreesToOffset always returns a count.
- The persistence of `st.session_state` across reruns, and its duplication with `self.value`, are not modelled: there is one store.
- Emissions.Footprint.EmissionSector: redefining an existing sector also drops that sector's entries from the single store. In the source, `self.value` is reset but `st.session_state` keeps its old entries, which the totals and the display still read. The model therefore does not capture stale session entries after a redefinition (the catalog defines each sector once).
- Emissions.DefineSectorTotal: states the total after the model's reset of the sector's entries. In the source the totals read `st.session_state`, which `emission_sector` leaves alone, so after a redefinition stale entries of the sector's use cases still count toward the total.
- Emissions.Footprint.EmissionSector: the effect on the yearly total is stated as the separate lemma Emissions.DefineSectorTotal rather than in the method's own contract.
- Catalog.InitializeSectors: specified for a store with no sectors yet, which is how it is used right after `Footprint()`.
- Catalog.InitializeSectors: the eight literal `emission_benchmark` calls are modelled as a loop, Catalog.SetBenchmarks, over the table of their arguments in the same order.
- `Footprint.sectors` as a dict of per-use-case empty dicts is not modelled separately: it is the `useCases` map, since its inner dicts are never written.
