# Binance volume screener: store and table projection

This project models the screener front end in `src/App.js`. It has two parts.

- **The store.** The `volumeData` state maps each symbol to a map from timeframe to `{latestVolume, relativeVolume}`. The `setVolumeData` updater folds each `volumeData` event from the backend into it.
- **The table.** The table body lists the store's entries. It keeps a symbol when one of the `1m`, `5m`, `15m` and `1hr` timeframes holds a numeric relative volume at or above the selected threshold. It sorts the kept symbols by the `1m` relative volume, highest first. It renders one row per symbol.

Modules:

- `JsValues` (`js_values.dfy`): the JavaScript semantics the code relies on. These are truthiness for `||`, `typeof … === 'number'`, nullishness for `??`, and subtraction over numbers extended with ±Infinity and NaN.
- `VolumeStore` (`store.dfy`): the events and the store.
  - `Snapshot` is an immutable value: the two-level map, plus the symbols in first-insertion order.
  - `Ingested` is the updater as a transition on snapshots.
  - `IngestAll` applies a stream of events in arrival order.
  - The class `VolumeData` holds the store as mutable fields. Its `Ingest` method does the updater's steps in order: copy the outer map, create the inner map the first time a symbol is seen, assign one cell. It is proved to equal `Ingested`.
- `Filtering` (`filter.dfy`): `Object.entries`, a generic `Array.prototype.filter`, `.some` over the four shown timeframes, and the filter stage.
- `Sorting` (`sort.dfy`): the comparator `relativeB - relativeA` and a stable insertion sort by the `1m` key, where a missing key means −∞. It proves that the result is sorted, a permutation of the input and stable. It also proves that any stable sort by this comparator gives the same result, so the model's choice of sort algorithm does not matter.
- `Projection` (`projection.dfy`): the row projection and the whole-table properties.
- `Scenarios` (`scenarios.dfy`): concrete event streams and the tables they produce.

The model follows the code, which:

- **Does no validation.** Every event is applied. An event with an unknown or empty `timeframe` is stored under that key, and the filter, the sort and the rows never read it. An event with an empty `symbol` is stored under `""` and is listed, filtered and shown like any other symbol (`Scenarios.ScenarioEmptySymbol`).
- **Normalises with JavaScript `||`.** A truthy value that is not a number is stored unchanged. A relative volume of `0` becomes `'N/A'`, just like a missing one. So at threshold 0, a symbol whose only relative volumes are 0 is hidden (`Scenarios.ScenarioD`).
- **Leaves a missing volume absent.** A row's volume for a timeframe with no entry is absent (`?? 'N/A'`), not `0`.

## Model

| member | source | states |
|---|---|---|
| JsValues.Or | src/App.js:26-27 | the logical OR of `a` and `b` yields `a` when `a` is truthy and `b` when it is falsy; a truthy default makes the result truthy |
| JsValues.ComparatorSign | src/App.js:88 | the sort reads only the comparator's sign: negative exactly for −∞ and negative finite values, zero for NaN and 0 |
| VolumeStore.Normalised | src/App.js:25-28 | the written cell keeps a truthy `latestVolume` or `relativeVolume` unchanged; a falsy volume becomes 0 and a falsy relative volume becomes `'N/A'` |
| VolumeStore.Empty | src/App.js:8 | the initial store is empty and well formed |
| VolumeStore.Ingested | src/App.js:17-31 | after an event its (symbol, timeframe) cell is exactly the normalised payload; other timeframes of that symbol and all other symbols are unchanged; no key is removed; the key set grows by at most the event's symbol, which is appended to the insertion order only when new |
| VolumeStore.IngestedPreservesWellFormed | src/App.js:21-28 | the updater keeps the invariant: insertion order lists each stored symbol once, every relative volume is truthy, every volume is truthy or 0 |
| VolumeStore.IngestIdempotent | src/App.js:17-31 | ingesting the same event twice gives the same store as ingesting it once |
| VolumeStore.IngestAllPreservesWellFormed | src/App.js:13-31 | the invariant holds after any stream of events |
| VolumeStore.IngestAllGrows | src/App.js:18-24 | over any stream, symbols are never removed and the insertion order is only extended at its end |
| VolumeStore.IngestedFrame | src/App.js:21-28 | one event leaves every cell it does not target as it was, present or absent, even when the event creates that cell's symbol |
| VolumeStore.IngestAllFrame | src/App.js:25-28 | a cell that no event of the stream targets keeps its value or its absence, for any symbol, stored before or created by the stream |
| VolumeStore.LastWriteWins | src/App.js:25-28 | over any stream, a cell holds the normalised payload of the last event that targets it, whatever came before |
| VolumeStore.VolumeData.constructor | src/App.js:8 | the state starts empty and valid |
| VolumeStore.VolumeData.Ingest | src/App.js:17-31 | the in-place updater keeps the invariant and leaves exactly the state `Ingested` describes: the event's cell written, other symbols unchanged, the new symbol appended |
| Filtering.EntriesListEachSymbolOnce | src/App.js:76 | on a well-formed store, `Object.entries` lists exactly the stored symbols, each once, each with its own timeframe map |
| Filtering.Filter | src/App.js:77 | the result holds exactly the elements that satisfy the predicate and is no longer than the input |
| Filtering.FilterKeepsOrder | src/App.js:77-84 | two elements of a filtered sequence appear in the same order in the original |
| Filtering.FilterKeepsPair | src/App.js:77-84 | two kept elements keep their relative order after filtering |
| Filtering.SomeMeetsIff | src/App.js:79-83 | `.some` over a timeframe list holds iff some listed timeframe has a finite relative volume at or above the threshold (NaN and non-numbers never qualify) |
| Filtering.QualifiesIff | src/App.js:77-84 | a symbol passes the filter iff one of 1m, 5m, 15m, 1hr holds a finite relative volume ≥ the threshold |
| Filtering.NoNumberNoRow | src/App.js:79-83 | a symbol with no numeric relative volume under the four shown timeframes is excluded: no entries, only 'N/A', or only other timeframe keys |
| Filtering.QualifiesMonotone | src/App.js:81-82 | a symbol that passes at a higher threshold passes at every lower one |
| Filtering.Kept | src/App.js:76-84 | the filter stage keeps exactly the entries whose timeframes qualify |
| Filtering.KeptMonotone | src/App.js:77-84 | what is kept at a higher threshold is kept at a lower one; it is the higher-threshold filter applied to the lower-threshold result, so order is kept too |
| Sorting.KeyGeTotalPreorder | src/App.js:85-89 | the sort-key order (−∞ below every number) is reflexive, total, transitive and antisymmetric on keys |
| Sorting.WellFormedHasNoNaN | src/App.js:27 | a stored 1m relative volume is never NaN, since the OR with 'N/A' replaces it |
| Sorting.CompareAgreesWithKey | src/App.js:85-89 | with no NaN stored, the comparator `relativeB - relativeA` lets `a` come first exactly when a's key is ≥ b's, and reports a tie exactly when the keys are equal (−∞ − −∞ is NaN, counted as a tie) |
| Sorting.Insert | src/App.js:85-89 | inserting an entry yields the old multiset plus that entry |
| Sorting.InsertSorted | src/App.js:85-89 | inserting into a sorted sequence keeps it sorted |
| Sorting.SortByRelVol | src/App.js:85-89 | the sort's output is a permutation of its input and is non-increasing by the 1m key |
| Sorting.InsertSelect | src/App.js:85-89 | insertion puts the new entry in front of every entry with its own key, and leaves entries with other keys in order |
| Sorting.SortStable | src/App.js:85-89 | for every key, the entries with that key appear in the output in their input order |
| Sorting.SortKeepsTies | src/App.js:85-89 | two output entries with equal keys appear in the input in the same order |
| Sorting.SortedStableUnique | src/App.js:85-89 | two sorted sequences with the same entries, in the same order for each key, are equal |
| Sorting.StableSortIsSortByRelVol | src/App.js:85-89 | any output that is sorted and stable with respect to the input equals the model's sort, whatever algorithm the runtime uses |
| Projection.CellOf | src/App.js:93-98 | the volume is absent iff the timeframe has no entry or a nullish volume, and otherwise it is the stored volume; the relative volume is present iff the stored value is a finite number, and then it equals that number |
| Projection.OrderedEntry | src/App.js:76-89 | every sorted entry is a stored symbol paired with its own timeframes, and it passed the filter |
| Projection.StoredEntryKept | src/App.js:76-84 | a stored symbol whose timeframes qualify survives the filter stage with its own timeframe map |
| Projection.QualifyingSymbolHasRow | src/App.js:76-91 | a stored symbol whose timeframes qualify gets a row |
| Projection.ProjectHasQualifyingSymbols | src/App.js:76-91 | a symbol has a row iff it is stored and one of 1m, 5m, 15m, 1hr holds a finite relative volume ≥ the threshold |
| Projection.ProjectSymbolsDistinct | src/App.js:90-92 | no symbol has two rows |
| Projection.ProjectSorted | src/App.js:85-97 | rows are non-increasing by 1m relative volume, and a row without a numeric 1m value comes after every row with one |
| Projection.ProjectTiesKeepInsertionOrder | src/App.js:76-89 | rows with equal 1m keys appear in the order their symbols were first seen |
| Projection.ProjectCells | src/App.js:90-116 | each row has four cells from its own symbol's entries: a volume that is absent iff the timeframe has no entry and otherwise the stored volume, and a relative volume that is present iff the stored value is numeric and then equals it |
| Projection.ProjectMonotone | src/App.js:77-84 | raising the threshold only removes rows |
| Scenarios.ScenarioA | src/App.js:17-118 | after BTCUSDT (1m, 100, 5) and ETHUSDT (1m, 50, 2), threshold 3 shows only BTCUSDT, with its other timeframes empty |
| Scenarios.ScenarioB | src/App.js:17-118 | XRPUSDT seen only under 5m qualifies through it, and sorts after a later BTCUSDT that has a numeric 1m value |
| Scenarios.ScenarioC | src/App.js:17-31 | a second BTCUSDT 1m event replaces the first outright, with no merge |
| Scenarios.ScenarioD | src/App.js:17-118 | a missing or zero relative volume is stored as 'N/A', never qualifies, and gives an empty table |
| Scenarios.ScenarioEmptySymbol | src/App.js:17-92 | an event with the empty symbol is stored under `""`, qualifies like any other and gets a row with a blank symbol |
| Scenarios.ScenarioTies | src/App.js:17-118 | two symbols without a 1m value tie at −∞ and keep their first-seen order |

## Left out

- **Socket.IO transport.** The connection (src/App.js:5), the subscription (:13) and the unsubscription (:36) are network I/O. Events enter the model as the parameter of `Ingest`, or as a sequence for `IngestAll`.
- **React state machinery.** `useState`, `useEffect` and the JSX (src/App.js:8-11, 40-123) are UI plumbing. The updater is a store transition, and the table is a sequence of rows.
- **Shallow-copy aliasing.** `{ ...prevData }` still shares the inner objects with the previous state, so the previous state's inner map is mutated too. The model produces a new store value instead.
- **`toFixed(2)` and the text 'N/A'.** Floating-point-to-string rendering is left out. An absent cell value is `None`.
- **IEEE arithmetic.** Numbers are exact reals. Rounding and overflow are not modelled. Infinite values are modelled only inside the comparator.
- **NaN in the view.** `Sorting.Key` and `Projection.CellOf` treat a stored NaN relative volume as missing. The code would compare it as NaN and render it as "NaN". That can never happen, because `relativeVolume || 'N/A'` never stores NaN (`Sorting.WellFormedHasNoNaN`).
- **Property keys.** Symbols and timeframes are modelled as the strings used as property keys; coercion of non-string keys is not modelled. `Object.entries` is modelled as first-insertion order. JavaScript would instead list integer-like keys first, in numeric order. Symbols that name an inherited property are not modelled either:
  - For the symbol `constructor`, `updatedData[symbol]` is the `Object` function, which is truthy. So no inner map is created, and src/App.js:25 writes the cell onto the `Object` function. The symbol never appears in `Object.entries`.
  - For the symbol `__proto__`, `updatedData[symbol]` is `Object.prototype`, which is truthy too. So src/App.js:25 assigns `Object.prototype[timeframe]`: the feed pollutes the prototype. From then on, every stored symbol without its own cell for that timeframe inherits the injected cell. That changes the filter (src/App.js:81-82), the sort key (src/App.js:86-87) and the rendered cells (src/App.js:93-115) of every such symbol. The model's maps have no inheritance, so it cannot show this.
- **The threshold dropdown** (src/App.js:47-58). It is recorded only as the constants `Filtering.ThresholdChoices` (0 to 14) and `Filtering.DefaultThreshold` (1, src/App.js:9). The projection accepts any real threshold.
- **Validation and diagnostics.** The code checks no field and logs nothing, so neither is modelled.
- **A null or undefined payload.** Destructuring such a payload throws a TypeError at src/App.js:19, inside the updater. Events are modelled as records that always have the four fields, so this error path is not modelled.
