# section_browser in Dafny

`section_browser` is a command-line tool for choosing steel W-sections from the AISC catalog.
The user narrows the catalog with filter expressions such as `--Ix ">=400e6"`. The tool keeps
the current selection in a data-store file between commands, and loads can be attached to
that selection.

This project models the tool's query logic and proves properties of it. The model covers:

- the three command-line parsers: comparison expressions, slices and keyword pairs;
- the operator dispatch table and the filter fold;
- the `all`, `filter`, `apply` and `status` commands, as pure transitions over an in-memory
  data store and a catalog;
- the row-selection primitives of `w_sections.py`: `section_filter`, `sections_approx_equal`
  and `sort_by_weight`.

Modules, in dependency order:

| module | file | models |
|---|---|---|
| `Wrappers` | wrappers.dfy | `Option` and `Result`; `Failure` stands for a raised exception |
| `Errors` | errors.dfy | the exceptions the core raises (`ValueError`, `KeyError`, `TypeError`, `IndexError`, a missing file) |
| `Seqs` | seqs.dfy | order-preserving filtering (`Where`) and subsequence embeddings |
| `Dicts` | dicts.dfy | Python's insertion-ordered `dict`: lookup, `d[k] = v`, `d.update(e)` |
| `Text` | text.dfy | ASCII digits, `int()`, `float()` as an exact rational, `str.split` |
| `Frames` | frames.dfy | DataFrame rows with labels, the catalog, `iloc` |
| `Sections` | sections.dfy | `w_sections.py`: comparisons, the approximate band, `section_filter`, `sort_by_weight` |
| `Parsers` | parsers.dfy | `_parse_comparison_value`, `_parse_slice`, `_parse_kwargs` |
| `Query` | query.dfy | `_apply_filter` with its dispatch table, and `_apply_all_filters` |
| `Store` | store.dfy | the data store and the commands that read and write it |
| `Scenarios` | scenarios.dfy | the repository's test inputs, worked through the model |

## Modelling decisions

- **Frames.** A DataFrame is a set of column names plus a sequence of records. Each record
  has a row label and a map from column to `real`.
  - A column missing from a record's map is a NaN cell. Every comparison with it is false,
    except `!=`, which is true.
  - Naming a column the frame does not have raises `KeyError`, even on an empty frame.
- **The catalog.** The catalog is a parameter and is not read from CSV. Its rows are labelled
  0, 1, 2, … as by `pd.read_csv`. So the labels stored by `all` and `filter` are also the
  positions that `iloc` reads on the next command.
- **Numbers.** Field values and thresholds are exact `real`s. The approximate band is
  `[0.90 v, 1.10 v]`. `float()` is an exact decimal parser: a sign, a mantissa, and an
  optional exponent.
- **Comparison helpers.** `sections_less_than` and the other helpers named in the dispatch
  table are not defined in `w_sections.py`. They are modelled as the plain comparisons their
  names describe: strict for `less_than`/`greater_than`, non-strict for the `_or_equal`
  forms. Each applies its one keyword constraint through the same `loc[mask]` step as
  `section_filter`. The tests at tests/test_w_sections.py:9-57 agree with these meanings.
- **The data store** is an in-memory value: `None` while the file does not exist, otherwise
  the triple (indexes, filters, loads). Writing it and reading it back is exact.

Where the code differs from its docstrings or from what its authors describe, the model
follows the code:

- The dispatch table binds `>=` to `sections_greater_than` (src/section_browser/app.py:209).
  So `--Ix ">=400"` drops a row whose `Ix` is exactly 400. `Scenarios.GreaterEqualDropsBoundaryRow`
  shows this on the test catalog: `>=400` keeps only row 3, not rows 2 and 3.
- An expression with no operator gives the operator `""`, not `None` as the docstring says.
  `""` is not a key of the table, so the lookup raises `KeyError`.
- `apply` replaces the stored loads with the ones given on the command line. It does not
  merge them.
- The `@` entry calls `sections_approx_equal(frame, **{field: value})` without its positional
  `operator` argument. This raises `TypeError`, unless the field is literally named
  `operator`. In that case the argument is filled and no constraint is left, so every row is
  kept. The field `aisc_db` raises `TypeError` too, because it names the first argument a
  second time. The model reports both `TypeError`s as one error.
- `section_filter` with an operator other than `le`/`ge` (in any letter case) returns the
  rows unchanged. It does not look at the constraints.
- `all` clears the store before it filters. So a failing filter leaves the store cleared.
  `filter` and `apply` fail before they write, so the store is left as it was.
- The docstring of `_parse_slice` gives `"2"` as `slice(2)`, which is `slice(None, 2)`.
  The code at src/section_browser/app.py:258-261 builds `slice(2, 2)` instead, an empty
  slice. `Parsers.ParseSliceSingle` states the code's `(n, n, None)`.
- The test at tests/test_app.py:55,59 treats `"~=34.5"` as a valid expression. The scanner rejects `~`
  (src/section_browser/app.py:240-246), and the model follows the scanner.

## Model

| member | source | states |
|---|---|---|
| `Parsers.Scan` | src/section_browser/app.py:231-246 | The scan succeeds exactly when every character is an operator or value character. The two buffers are the interleaved subsequences of operator characters (`<>=!@`) and value characters (digits, `.-eE`), and their lengths add up to the input's. |
| `Parsers.ParseComparisonValue` | src/section_browser/app.py:220-247 | A character outside both sets raises `ValueError`, which echoes the whole input; this happens exactly then. Parsing succeeds exactly when no such character occurs and `float` reads the value buffer. On success the operator is the operator buffer and the value is `float` of the value buffer, even when the two kinds of character interleave. Any other failure is a float conversion of the value buffer. An all-operator input such as `<=` fails on `float("")`. |
| `Parsers.ParseConcat` | src/section_browser/app.py:231-247 | An operator run followed by a value run parses to that operator and the float of that value, or fails naming the value. |
| `Parsers.ParseComparisonValueRoundTrip` | src/section_browser/app.py:227-247 | Writing an operator before the decimal form of an integer `n` gives an expression that parses back to that operator and `n`. |
| `Parsers.Component` | src/section_browser/app.py:265-268 | A slice part that is not numeric after removing every `-` (the empty part included) is `None`. Otherwise the part is read by `int()`: it succeeds exactly when `int()` accepts the part and then has `int()`'s value; otherwise it raises `ValueError` naming the part. |
| `Parsers.ComponentTrailingDash` | src/section_browser/app.py:265-268 | A run of digits followed by `-` passes the `isnumeric` test once its dashes are removed, but `int()` then raises `ValueError`. |
| `Parsers.SliceOfTwo` | src/section_browser/app.py:262-269 | Two parts succeed exactly when both parts are read as components, and give `(start, stop, None)` with their values. A failure names one of the two parts. |
| `Parsers.SliceOfThree` | src/section_browser/app.py:270-279 | Three parts succeed exactly when all three are read as components, and give `(start, stop, step)` with their values. A failure names one of the three parts. |
| `Parsers.SliceOfParts` | src/section_browser/app.py:258-284 | More than three parts raise `ValueError`, and only then. One part succeeds exactly when `int()` reads it and gives `(n, n, None)`. Two or three parts succeed exactly when every part is read as a component, with those values and no step for two parts. Any other failure names one of the parts. |
| `Parsers.ParseSlice` | src/section_browser/app.py:257-284 | The same statements about the `:`-separated parts of the argument. More than three parts raise `ValueError`, and only then. One part `n` gives `(n, n, None)` exactly when `int()` reads it. Two or three parts succeed exactly when every part is read as a component, with those values, and two parts give no step. |
| `Parsers.ParseSlicePair` | src/section_browser/app.py:262-269 | Any two slice parts, written as `start:stop` with an empty part for `None`, parse back to `(start, stop, None)`. |
| `Parsers.ParseSliceRoundTrip` | src/section_browser/app.py:257-279 | Every slice triple, written as `start:stop:step` with empty parts for `None`, parses back to itself. |
| `Parsers.ParseSliceSingle` | src/section_browser/app.py:258-261 | A lone integer `n` parses to the slice `(n, n, None)`. |
| `Parsers.ParseKwargs` | src/section_browser/app.py:287-302 | The map built from the argument list never holds a key twice. |
| `Parsers.ParseKwargsLookup` | src/section_browser/app.py:293-302 | A key is absent unless some complete pair names it, after removing dashes; a trailing unpaired key is dropped. When pairs repeat a key, the value of the last such pair wins. |
| `Parsers.KwargsFromUpdate` | src/section_browser/app.py:294-301 | Pairing the words from any map gives the same map as writing the complete pairs into it in order, each key without its dashes. A trailing unpaired word writes nothing. |
| `Parsers.PairsIndex` | src/section_browser/app.py:294-300 | There is one entry per complete pair. Entry `j` has word `2j` without dashes as its key and word `2j+1` as its value. |
| `Text.ParseInt` | src/section_browser/app.py:259-268 | `int()` succeeds exactly on a non-empty run of ASCII digits, optionally preceded by one `+` or `-`. It gives the digits' value, negated after `-`. |
| `Text.ShowInt` | src/section_browser/app.py:259 | `int()` reads the decimal form of every integer back unchanged. |
| `Text.ParseFloat` | src/section_browser/app.py:247 | `float()` succeeds only on text that holds at least one digit; so `float("")` raises. |
| `Text.UnsignedFloat` | src/section_browser/app.py:247 | The unsigned part of a float literal is read only when it holds at least one digit. A plain run of digits reads as the number it denotes. |
| `Text.UnsignedFloatPoint` | src/section_browser/app.py:247 | `w.f`, with digit runs `w` and `f` not both empty, reads as the digits of `w` and `f` together divided by ten to the number of digits in `f`. |
| `Text.UnsignedFloatExponent` | src/section_browser/app.py:247 | A digit run `d` followed by `e` and an integer `n` reads as `d`'s value times ten to the power `n`, for negative `n` too. |
| `Text.ParseFloatSign` | src/section_browser/app.py:247 | A leading `-` negates what `float()` reads from the rest, and fails exactly when the rest fails. A leading `+` changes nothing. |
| `Text.ParseFloatOfInt` | src/section_browser/app.py:247-259 | Whatever `int()` reads, `float()` reads as the same number. |
| `Text.Split` | src/section_browser/app.py:257 | `str.split` gives at least one part, and no part holds the separator. |
| `Text.ParseFloatShowInt` | src/section_browser/app.py:247 | `float()` of an integer's decimal form is that integer. |
| `Text.SplitJoin` | src/section_browser/app.py:257 | Splitting on `:` undoes joining separator-free parts with `:`. |
| `Text.JoinSplit` | src/section_browser/app.py:257 | Joining the parts of a split with the separator gives the string back. |
| `Query.Operations` | src/section_browser/app.py:205-215 | The table has an entry for exactly the seven keys `<`, `<=`, `>`, `>=`, `@`, `==`, `!=`. |
| `Query.Call` | src/section_browser/app.py:210-216 | Calling a comparison entry raises `KeyError` exactly when the field is not a column, and otherwise keeps the rows passing that comparison, in order. Calling the `@` entry raises `TypeError` unless the field is named `operator`, and then returns the frame unchanged. |
| `Query.Selects` | src/section_browser/app.py:205-216 | After parsing, an entry is accepted exactly when its operator is one of the seven keys and, for `@`, the field is named `operator`, or, for any other key, the field is a column. An unknown operator raises `KeyError` naming it. An accepted `@` keeps every row; any other operator keeps the rows passing its comparison. |
| `Query.Criterion` | src/section_browser/app.py:214-216 | A parse error propagates. An entry is accepted exactly when it parses, its operator is one of the seven keys, and, for `@`, the field is named `operator`, or, for any other key, the field is a column. |
| `Query.ApplyFilter` | src/section_browser/app.py:191-217 | A parse error propagates. An operator outside the seven keys raises `KeyError` naming it. Success needs a table operator. The result keeps the columns and holds only rows of the input. |
| `Query.Dispatch` | src/section_browser/app.py:205-216 | After parsing, an operator outside the table raises `KeyError` naming it. A successful call keeps the columns and holds only rows of the input. |
| `Query.ApplyFilterMatchesCriterion` | src/section_browser/app.py:214-216 | Applying one filter raises the error the entry means on these columns, or keeps exactly the rows passing the entry's test, in their original order. |
| `Query.GreaterEqualIsStrict` | src/section_browser/app.py:208-209 | `>=v` filters exactly as `>v` does, for every frame, field and value. |
| `Query.BareNumberRejected` | src/section_browser/app.py:214-215 | A bare number has the empty operator and raises `KeyError('')`; it is not read as equality. |
| `Query.ApproxDispatch` | src/section_browser/app.py:210-216 | `@v` raises for the missing `operator` argument on every field except one named `operator`, which keeps the frame unchanged. |
| `Query.ApplyFilterCommutes` | src/section_browser/app.py:186-187 | When two filters are each accepted, applying them one after the other gives the same result in either order. |
| `Query.ApplyAllFilters` | src/section_browser/app.py:180-188 | The fold succeeds exactly when every entry is accepted on the frame's columns, and it keeps the columns. |
| `Query.ApplyAllFiltersHeadFails` | src/section_browser/app.py:186-188 | When the first entry is not accepted, the whole fold raises that entry's error. |
| `Query.ApplyAllFiltersHeadPasses` | src/section_browser/app.py:186-188 | When the first entry is accepted, the fold continues on the rows passing its test with the remaining entries. |
| `Query.ApplyAllFiltersFirstFailure` | src/section_browser/app.py:186-188 | A failing fold raises the error of the first entry that is not accepted; every earlier entry is accepted. |
| `Query.ApplyAllFiltersKeepsConjunction` | src/section_browser/app.py:186-188 | An accepted fold keeps exactly the rows that pass every entry's test, in their original order. |
| `Query.ApplyAllFiltersNarrows` | src/section_browser/app.py:186-188 | The fold's rows are a subsequence of its input rows. |
| `Query.ApplyAllFiltersOrderIndependent` | src/section_browser/app.py:186-188 | Two lists of the same filter entries are accepted together and then keep the same rows. |
| `Store.GetCurrentIndexes` | src/section_browser/app.py:323-329 | Reading fails, with a missing-file error, exactly when the store does not exist. Otherwise it returns the stored triple itself. |
| `Store.SetCurrentIndexes` | src/section_browser/app.py:314-320 | Reading back after a write returns exactly the triple written. |
| `Store.ClearDataStore` | src/section_browser/app.py:305-311 | After clearing, reading returns no indexes, no filters and no loads. |
| `Store.AllSections` | src/section_browser/app.py:36-48 | `all` succeeds exactly when every parsed filter is accepted on the catalog's columns, and then shows the catalog rows passing them all, in order. It stores their labels with the parsed filters and no loads. On failure the store is left cleared, and the error is the one the filter fold over the whole catalog raises (the first rejected filter's, by `Query.ApplyAllFiltersFirstFailure`). |
| `Store.AllSectionsIndexes` | src/section_browser/app.py:45-48 | The labels `all` stores are catalog positions in strictly increasing order. |
| `Store.FilterSections` | src/section_browser/app.py:64-77 | A missing store raises. An out-of-range stored index raises `IndexError`. Otherwise a failure is the error of the filter fold over the reloaded rows. `filter` succeeds exactly when the store exists, every stored index is in range, and every parsed filter is accepted. It then shows the reloaded rows that pass every filter, in order. Any failure leaves the store unchanged. On success it stores the shown labels, the previous filters updated with the new ones, and the previous loads unchanged. |
| `Store.FilterSectionsNarrows` | src/section_browser/app.py:73-77 | The labels `filter` stores are a subsequence of the positions the previously stored indexes denote. |
| `Store.FilterSectionsMergesFilters` | src/section_browser/app.py:76-77 | After `filter`, a key given on the command line holds its new expression, and every other key keeps its previous one. |
| `Store.GatherLookup` | src/section_browser/app.py:107-110 | With distinct names, the gathering loop stores each supplied value under its name and leaves a name without a value as it was. |
| `Store.SuppliedLoads` | src/section_browser/app.py:105-110 | The gathered loads hold exactly the supplied values under `N`, `Mx`, `My`, `Vx`, `Vy` and `T`, and no other name. |
| `Store.ApplyLoads` | src/section_browser/app.py:94-114 | `apply` succeeds exactly when the store exists and every stored index is in range; with a store present, a failure is `IndexError`. On success it shows the catalog rows at the stored indexes, keeps the indexes and filters, and replaces the loads with the supplied ones; on failure the store is unchanged. |
| `Store.DisplayTable` | src/section_browser/app.py:159-168 | `status` never changes the store and raises when the store does not exist. It succeeds exactly when the store exists and every stored index is in range; otherwise it raises `IndexError`. It shows the catalog's columns and the catalog rows, unchanged, labelled by the stored positions with negatives resolved. |
| `Store.ShowsStoredUnique` | src/section_browser/app.py:168 | The catalog and the stored indexes fix the shown frame completely: two frames that both show the selection are equal. |
| `Store.StatusAfterApply` | src/section_browser/app.py:111-114 | After a successful `apply`, `status` shows exactly the selection `apply` showed. |
| `Store.Reload` | src/section_browser/app.py:74 | Catalog rows are found again by `iloc` at their labels: storing the labels loses no rows. |
| `Store.StatusAfterAll` | src/section_browser/app.py:166-168 | After a successful `all`, `status` shows exactly the selection `all` showed. |
| `Store.StatusAfterFilter` | src/section_browser/app.py:73-77 | After a successful `filter`, the stored labels reload into exactly the selection `filter` showed. |
| `Frames.Full` | src/section_browser/w_sections.py:11-15 | The loaded catalog frame has the catalog's columns and its rows in file order, labelled by position. |
| `Frames.ILoc` | src/section_browser/app.py:113 | `iloc` succeeds exactly when every index lies in `[-n, n)`, and otherwise raises `IndexError`. Row `k` of the result is the row at index `k`, with negatives counted from the end. |
| `Frames.ILocLabels` | src/section_browser/app.py:74 | Selecting catalog rows by position gives rows labelled by those positions, after negatives are resolved. |
| `Dicts.Put` | src/section_browser/app.py:300 | `d[k] = v` makes `k` map to `v` and leaves every other key. It keeps the key order and appends a new key at the end. |
| `Dicts.UpdateLookup` | src/section_browser/app.py:76 | After `d.update(e)`, a key of `e` has `e`'s value and every other key keeps `d`'s. |
| `Dicts.UpdateKeys` | src/section_browser/app.py:76 | The keys after `d.update(e)` are exactly those of `d` and `e`. |
| `Dicts.UpdateUnnamed` | src/section_browser/app.py:300 | Writing a run of entries that may repeat keys leaves the value of every key no entry names. |
| `Dicts.UpdateLastEntry` | src/section_browser/app.py:300 | When a run of entries names a key more than once, the last entry naming it gives its value. |
| `Sections.Narrow` | src/section_browser/w_sections.py:32-35 | One `loc[mask]` step raises `KeyError` exactly when the column is unknown; otherwise it keeps exactly the rows passing the test, and the columns. |
| `Sections.NarrowAll` | src/section_browser/w_sections.py:31-37 | The constraint loop succeeds exactly when every constrained column exists; a failure names a missing column. An empty result is not an error. |
| `Sections.NarrowAllKeepsConjunction` | src/section_browser/w_sections.py:30-38 | Several constraints keep exactly the rows passing all of them, in their original order. |
| `Sections.NarrowAllOrderIndependent` | src/section_browser/w_sections.py:31-35 | The order of the constraints changes neither whether the loop succeeds nor its result. |
| `Sections.SectionFilter` | src/section_browser/w_sections.py:18-38 | With `le` (`ge`) it fails exactly on an unknown column, and otherwise keeps the rows whose every constrained field is at most (at least) its threshold. Any other operator returns the input unchanged. |
| `Sections.FilterModeSpellings` | src/section_browser/w_sections.py:32-35 | Exactly the four letter-case spellings of `le`, and of `ge`, select a comparison. |
| `Sections.LeGeComplement` | src/section_browser/w_sections.py:32-35 | Together `le` and `ge` keep every row that has a value in the column. Both keep a row exactly when its value equals the threshold. A NaN cell is kept by neither. |
| `Sections.SectionsApproxEqual` | src/section_browser/w_sections.py:41-53 | It fails exactly on an unknown column, and otherwise keeps the rows with `0.90 v <= field <= 1.10 v` for every constraint. `operator` is ignored. |
| `Sections.ApproxKeepsTarget` | src/section_browser/w_sections.py:48-50 | For `v >= 0`, a row whose field equals `v` for every constraint is kept. |
| `Sections.ApproxBandSymmetric` | src/section_browser/w_sections.py:48-50 | For a non-negative target `v`, a row is in the band exactly when it has a value in the column that lies within `v/10` of `v`. |
| `Sections.ApproxNegativeKeepsNothing` | src/section_browser/w_sections.py:48-50 | A negative target leaves an empty band, so no row is kept. |
| `Sections.InsertByWeight` | src/section_browser/w_sections.py:60 | Inserting a row into weight-sorted rows keeps them sorted and adds exactly that row. |
| `Sections.SortByWeight` | src/section_browser/w_sections.py:56-61 | `sort_values("W")` raises `KeyError` exactly when there is no `W` column. Otherwise it returns a permutation of the rows in ascending weight, with NaN weights last. |
| `Scenarios.GreaterEqualDropsBoundaryRow` | src/section_browser/app.py:209 | On the four test rows, `Ix >=400` keeps only the row labelled 3. |
| `Scenarios.LessEqualKeepsBoundaryRow` | src/section_browser/app.py:207 | On the four test rows, `Sy <=300` keeps the rows labelled 0 and 1. |
| `Scenarios.GreaterThanOrEqualHelper` | tests/test_w_sections.py:9-20 | `sections_greater_than_or_equal(Ix=400)` keeps the rows labelled 2 and 3. |
| `Scenarios.GreaterThanHelper` | tests/test_w_sections.py:22-32 | `sections_greater_than(Ix=400)` keeps only the row labelled 3. |
| `Scenarios.LessThanOrEqualHelper` | tests/test_w_sections.py:34-45 | `sections_less_than_or_equal(Sy=300)` keeps the rows labelled 0 and 1. |
| `Scenarios.LessThanHelper` | tests/test_w_sections.py:47-57 | `sections_less_than(Sy=300)` keeps only the row labelled 1. |
| `Scenarios.SortScenario` | tests/test_w_sections.py:59-68 | Sorting the test rows by weight puts the row labelled 1 first, then 0, 2 and 3. |
| `Scenarios.KwargsFromCommandLine` | tests/test_app.py:8-13 | The pairs in the test become the expected maps, with dashes removed from the keys. |
| `Scenarios.SingleSliceFromCommandLine` | tests/test_app.py:41-46 | `"0"` gives `(0, 0, None)`: a lone number is both bounds. |
| `Scenarios.PairSliceFromCommandLine` | tests/test_app.py:41-47 | `"0:1"` gives `(0, 1, None)`. |
| `Scenarios.SteppedSliceFromCommandLine` | tests/test_app.py:41-48 | `"0:5:2"` gives `(0, 5, 2)`. |
| `Scenarios.FullSliceFromCommandLine` | tests/test_app.py:41-49 | `"-1:4:-1"` gives `(-1, 4, -1)`. |
| `Scenarios.OpenSliceFromCommandLine` | src/section_browser/app.py:254 | `"2:"` gives `(2, None, None)`: an empty part leaves that bound open. |
| `Scenarios.InterleavedOperator` | src/section_browser/app.py:235-247 | `"1<2"` parses to `("<", 12.0)`: the scan collects operator and value characters wherever they occur. |
| `Scenarios.LessThanFromCommandLine` | tests/test_app.py:57 | `"<234"` parses to `("<", 234.0)`. |
| `Scenarios.ApproxFromCommandLine` | tests/test_app.py:60 | `"@43.5e6"` parses to `("@", 43500000.0)`. |

## Left out

- CSV loading in `load_aisc_w_sections`. The catalog is a parameter of every command.
- The stress analysis: `create_section`, `max_vonmises_stress`, `calculate_section_stresses`
  and the `maxvm` command (`calculate_max_vm`). They wrap an external finite-element solver
  and compute in floating point.
- Rendering with `rich` (`_create_table`, `_table_output`), the `print` notices for an empty
  selection, and the `typer` command registration. The model ends each command once the store
  is written and the selection is known. Rendering can still fail after that point:
  `_create_table` (src/section_browser/app.py:349) drops the `Type` and `kdes` columns and
  sorts by `W`. On a catalog without those columns it raises `KeyError` after the store has
  been written. The modelled catalogs are not checked for these columns.
- String columns. The catalog holds only numeric columns. The real catalog also has text
  columns, such as `Type` and the designation (for example `W1100X499`). Comparing a text
  column with a number makes pandas raise `TypeError`. In the model such a column can only be
  a column whose cells are all NaN. So `--Type "<5"` keeps no rows and the store is written,
  where the program raises.
- The GUI front ends in `gui.py` and `qt_gui.py`, and the package metadata in `__init__.py`.
- JSON file I/O. The store is an in-memory value. JSON encoding round-trips the indexes,
  string filters and float loads unchanged, so this loses nothing the commands observe.
- Floating point. Values are exact reals: there is no rounding, no overflow, and no `inf` or
  `nan` spelled in the text given to `float()`.
- Unicode. `str.isnumeric` and `int()` accept only ASCII digits here; Python also accepts
  other Unicode digits. `int()` whitespace and `_` separators are not modelled. `.lower()`
  folds only ASCII letters, which decides `le`/`ge` exactly.
- Text.ParseFloat: its own contract states only that a digit is required. The values it reads
  are stated by the lemmas about it (`ParseFloatShowInt`, `ParseFloatOfInt`, `ParseFloatSign`)
  and by the worked literal `43.5e6`, not by one closed formula.
- Text.UnsignedFloat: its contract states the value only for a plain run of digits. The lemmas
  `UnsignedFloatPoint` and `UnsignedFloatExponent` cover a decimal point alone and an exponent
  alone. A literal with both, such as `43.5e6`, is worked only as a concrete case.
- Sections.SortByWeight: the order of rows with equal weights is not stated, because pandas'
  default sort is not stable. The model returns one valid order.
- Store.SuppliedLoads: the contract states the stored value under each name, not the order
  of the keys. That order affects only how the loads are displayed.
- Query.ApplyAllFiltersOrderIndependent: when several entries fail, reordering them can
  change which error is raised. The lemma relates only the successful results.
