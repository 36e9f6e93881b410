# reagan flattener and DCM padding, modelled in Dafny

This project models the part of the `reagan` package that turns nested API
records into a flat table, plus the helper that pads a DCM listing.

The flattener (`reagan/subclass.py`) has these parts:

- **Loader** (`_json_to_df`): one row per record and one column per top-level key, with `.` in key names rewritten to `_`.
- **Column pruning** (`_reduce_columns`): keeps only the columns whose name is an `_`-joined prefix of a requested column.
- **Classifier** (`_get_nested_columns`): tags each column as holding lists or dicts. The last such cell wins, and a requested column is never tagged as a dict.
- **List explosion** (`_split_dataframe_list`): copies each row once per element of its target cell.
- **Dict lift** (the dict branch of `_unnest`): turns each key `k` of a dict column `c` into a column `c_k`. A list cell in that column makes `pd.isnull` return an array, and when the array has two or more entries its truth value is ambiguous. The model returns that `ValueError` for lists of two or more elements.
- **Driver** (`_unnest`): repeats prune, classify and expand until the classifier reports nothing.
- **Query preparation** (`_format_query`): the `.sql` test and the sequential key-to-value substitution.

`DCMAPI._add_missing` (`reagan/dcm.py`) appends a stub record `{'id': str(id)}` for every requested id that the API did not return.

Values are `Json.Value`: `Null | Str | Num | Bool | List | Dict`. A dict is a sequence of key/value entries in insertion order. `Null` stands for both `None` and pandas' NaN.

A table (`Frame.Table`) is a sequence of distinct column labels plus one row per record. Each row is the `row.to_dict()` map from label to cell.

- Pure code is written as functions with lemmas. This covers the loader comprehension, the dict lift and the Python string operations.
- Loops that reassign state are written as methods with loop invariants. Each method is proved against a specification function.
- These methods are:
  - `SplitDataframeList`, `GetNestedColumns` and `ReduceColumns`;
  - `ExpandPass` and `Unnest`, which hold the `_unnest` loop;
  - `FormatQuery`;
  - `ReadIds` and `AddMissing`.

Termination of `_unnest` is proved with a ghost bound on nesting depth, counting only cells the classifier would tag (`Unnest.RelDepth`). One pass lowers every such depth by at least one:

- exploding a list gives its elements, which are shallower;
- exploding a string, a dict or a scalar gives flat cells;
- lifting a dict gives its values, which are shallower.

So the number of passes is bounded by the deepest nesting of the loaded table.

The specification of the driver is the function `Unnest.UnnestFrom`: prune, then repeat "run `Unnest.PassSpec` over the classifier's report, then prune" until the report is empty. `PassSpec` folds `Unnest.Expand` (the explosion `Explode.ExplodeTable` for a list tag, the lift `Lift.LiftDict` for a dict tag) over the reported columns and stops at the first failure. The methods `ExpandColumn`, `ExpandPass` and `Unnest` are proved equal to these functions.

Behaviour of the code worth knowing:

- **Empty lists.** An empty list (or empty string, or empty dict) in an exploded column makes its row disappear, because the `for` at `reagan/subclass.py:30` runs zero times.
- **Zero rows.** When an explosion leaves no rows at all, `pd.DataFrame([])` has no columns. The model's result then has no columns either.
- **Pass order.** Columns are expanded in the classifier's insertion order, whatever their tag.
- **Crash after an emptying explosion.** Suppose an explosion leaves no rows and a dict column comes later in the same pass. The lift then looks up a column that no longer exists. This raises `KeyError`, which the model returns as `Failure(KeyError(col))`. An example is the record `{"a": [], "b": {"x": 1}}` with no requested columns.

## Model

| member | source | states |
|---|---|---|
| Loader.RenameKey | reagan/subclass.py:133 | the renamed label has the same length, contains no `.`, and equals the key when the key had no `.` |
| Loader.RecordColumns | reagan/subclass.py:132-133 | a label is among a record's renamed keys iff some key of the record renames to it |
| Loader.LoadColumns | reagan/subclass.py:132-133 | the loaded labels are distinct and are exactly the renamed keys of any record, not only the first |
| Loader.LoadCell | reagan/subclass.py:132 | a record lacking the column gets Null (NaN); otherwise the cell is the value of the record's first key renaming to it |
| Loader.Load | reagan/subclass.py:132-133 | the table is well formed, has one row per record, has no `.` in any label, has exactly the columns some record has, and each cell is `LoadCell` |
| Text.Split | reagan/subclass.py:71 | `str.split` gives at least one field and no field contains the separator |
| Text.SplitFirst | reagan/subclass.py:71 | the first separator splits off the first field, and the remaining fields are the split of the rest |
| Text.JoinSplit | reagan/subclass.py:71-73 | joining all fields of a split gives back the original name |
| Text.JoinedPrefixIsPathPrefix | reagan/subclass.py:71-73 | each `"_".join(split_col[0:i+1])` is the whole target or a leading run of whole fields followed by `_` |
| Text.PathPrefixIsJoinedPrefix | reagan/subclass.py:71-73 | conversely, every such leading run of fields is `"_".join(split_col[0:i+1])` for some `i` |
| Text.LastFieldIs | reagan/subclass.py:116 | for an extension without `.`, the last `.`-field equals it iff the string is the extension or ends with `.` plus it |
| Text.ReplaceAbsent | reagan/subclass.py:126 | `str.replace` of a non-empty pattern that does not occur returns the string unchanged |
| Text.ReplaceAll | reagan/subclass.py:120-126 | `str.replace` of a pattern by itself leaves the string unchanged, as does a non-empty pattern longer than the string |
| Text.RemoveChar | reagan/subclass.py:120 | replacing a character with nothing leaves no copy of it |
| Frame.Filter | reagan/subclass.py:81 | the kept labels are exactly those in the set, and stay distinct |
| Frame.Project | reagan/subclass.py:81 | `df[list(keep)]` is well formed, keeps every row, has exactly the columns in `keep`, and keeps their cells |
| Prune.JoinedPrefixesArePathPrefixes | reagan/subclass.py:69-75 | the names the inner loop tries for a target are exactly the target's `_`-field prefixes |
| Prune.ReduceColumns | reagan/subclass.py:62-81 | the result is the projection on the wanted columns: a column survives iff it is present and is an `_`-joined prefix of some target; row count and kept cells are unchanged |
| Classifier.Lookup | reagan/subclass.py:49-59 | a label has a tag iff it was reported; with distinct labels the tag is the one stored for it |
| Classifier.Put | reagan/subclass.py:55-59 | `nested_cols[col] = tag` sets that label's tag, leaves every other label's tag alone, and keeps labels distinct |
| Classifier.LastTag | reagan/subclass.py:50-59 | a column has a tag iff some cell is a list, or a dict when the column is not requested; the tag is that of the last such cell; a requested column is never a dict |
| Classifier.LookupScanRow | reagan/subclass.py:51-59 | one row's scan leaves each column's tag as that row's cell tag if it has one, the earlier tag otherwise |
| Classifier.LookupScanRows | reagan/subclass.py:50-59 | scanning rows in order leaves each column with its last tag |
| Classifier.ScanRowDistinct | reagan/subclass.py:51-59 | a row's scan keeps the reported labels distinct |
| Classifier.ScanRowsDistinct | reagan/subclass.py:50-59 | scanning all rows keeps the reported labels distinct |
| Classifier.ClassifyLastWins | reagan/subclass.py:50-59 | the classification reports each present column with `LastTag` and nothing else |
| Classifier.ClassifyFacts | reagan/subclass.py:50-59 | a column is reported iff some cell tags it; the reported tag is the last one; a reported dict column is not requested |
| Classifier.GetNestedColumns | reagan/subclass.py:45-60 | the nested loops compute exactly that classification, with the same facts |
| Explode.ExplodeRowShape | reagan/subclass.py:27-39 | a row gives one copy per list element, string character or dict key, in order, or one copy holding Null for a non-iterable cell; other cells are copied |
| Explode.ExplodeRowsAppend | reagan/subclass.py:25-41 | exploding concatenated rows concatenates their explosions, so copies of one row are contiguous and source order is kept |
| Explode.ExplodeRowsCount | reagan/subclass.py:29-39 | output row count is the sum over rows of `len(cell)` if iterable, else 1 (an empty list contributes 0) |
| Explode.ExplodeRowsOrigin | reagan/subclass.py:30-38 | every output row is a source row with the target cell set to one value that cell emits |
| Explode.ExplodeRowsKeys | reagan/subclass.py:31-42 | every output row has exactly the source columns |
| Explode.ExplodeTable | reagan/subclass.py:18-43 | the explosion of a table fails with `KeyError` iff there are rows and the column is absent; otherwise it is well formed, has one row per emitted value, keeps the columns, and has no columns when no row remains |
| Explode.SplitDataframeList | reagan/subclass.py:18-43 | the accumulator loop computes exactly `ExplodeTable`, its rows being `ExplodeRows` |
| Json.DictKeys | reagan/subclass.py:97 | a dict's keys, each once, are exactly the keys of its entries |
| Json.DictGet | reagan/subclass.py:97 | a key lookup finds nothing iff no entry has the key, and otherwise returns a value stored under it |
| Json.ListElementShallower | reagan/subclass.py:30-33 | a list element nests less deeply than the list |
| Json.DictValueShallower | reagan/subclass.py:96-97 | a dict value nests less deeply than the dict |
| Lift.LiftedKeys | reagan/subclass.py:97-100 | the keys that become columns are distinct |
| Lift.SeenKeySnoc | reagan/subclass.py:97 | a key is seen in rows plus one more row iff it is seen in the rows or in that row |
| Lift.LiftedKeysSeen | reagan/subclass.py:97-100 | a key becomes a column iff some row's dict (a null cell counting as `{}`) has it |
| Lift.ChildNames | reagan/subclass.py:98-100 | the new labels `col_k` are distinct, one per key, never `col` itself, and each recovers its key |
| Lift.LiftDict | reagan/subclass.py:96-101 | fails iff the column is absent (`KeyError`) or some cell is a list of two or more elements (the ambiguous-truth `ValueError`, approximated by the list's outer length); otherwise the table is well formed with the same row count |
| Lift.LiftedColumnsValid | reagan/subclass.py:101 | after `concat` and `drop`, labels are distinct: the old ones other than `col` and the new ones |
| Lift.LiftDictColumns | reagan/subclass.py:96-101 | `col` is gone, every other column stays, and `col_k` is added exactly for the keys seen in some row |
| Lift.LiftDictCells | reagan/subclass.py:96-100 | each row's `col_k` cell is its dict's value for `k` or Null when absent, and Null when its cell was null |
| Lift.LiftDictKeeps | reagan/subclass.py:101 | every kept cell of another column is unchanged |
| Unnest.TableMaxBounds | reagan/subclass.py:89 | the initial bound is at least the nesting depth of every taggable cell |
| Unnest.TaggedNeedsBound | reagan/subclass.py:89 | while the classifier reports something, the bound is at least one |
| Unnest.TaggedCellIsDeep | reagan/subclass.py:50-59 | a cell the classifier tags is present and nests at least one level deep |
| Unnest.StartPass | reagan/subclass.py:87-90 | at a pass's start, every unreported column already holds only flat cells |
| Unnest.EmittedShallower | reagan/subclass.py:30-39 | an exploded cell's values are flat or strictly shallower than the cell |
| Unnest.ChildShallower | reagan/subclass.py:96-100 | a lifted dict's values are Null or strictly shallower than the dict |
| Unnest.ExplodeStep | reagan/subclass.py:91-93 | exploding a pending column keeps every cell within the pass's depth bound and puts the exploded column's cells below it |
| Unnest.LiftStep | reagan/subclass.py:94-101 | lifting a pending dict column keeps every cell within the pass's depth bound and puts the new columns' cells below it |
| Unnest.PendingStep | reagan/subclass.py:90 | each step of the `cols.items()` loop handles one reported column exactly once |
| Unnest.PassSpec | reagan/subclass.py:90-101 | a pass expands the reported columns in order, each by explosion or lift according to its tag, and stops at the first failure, which is a `KeyError` or the ambiguous-truth `ValueError` |
| Unnest.PassSpecAppend | reagan/subclass.py:90-101 | a pass over `a + b` is the pass over `a` followed, on success, by the pass over `b` |
| Unnest.Pruned | reagan/subclass.py:85-86 | the pruned table keeps every row and exactly the present columns that are wanted, or the whole table when nothing is requested |
| Unnest.UnnestFrom | reagan/subclass.py:88-105 | a flattening that ends does so with a well-formed table the classifier reports nothing about, or with a `KeyError` or the ambiguous-truth `ValueError` |
| Unnest.UnnestFuel | reagan/subclass.py:89-105 | once the flattening ends within some number of passes, allowing more passes gives the same result |
| Unnest.ExpandColumn | reagan/subclass.py:91-101 | expanding one reported column is `Expand`: the explosion for a list tag, the lift for a dict tag; on success it discharges the column from the pass |
| Unnest.ExpandPass | reagan/subclass.py:90-101 | the `for` loop over `cols.items()` computes exactly `PassSpec`, and on success every taggable cell is one level shallower |
| Unnest.Unnest | reagan/subclass.py:83-105 | the loop computes exactly the specification `UnnestFrom` of the pruned table, which therefore ends; on success the table is well formed and the classifier reports nothing; with requested columns every surviving column is a prefix of one; failures are `KeyError` or the ambiguous-truth `ValueError`; with no requests and nothing nested the table is returned as is |
| Unnest.FlattenAndReport | reagan/subclass.py:134-136 | the table is the flattening specification's result, or its error is returned; the not-found set is exactly the requested names missing from the final columns |
| Unnest.JsonToDf | reagan/subclass.py:129-141 | loading and then flattening agrees with the flattening specification on the loaded table; the result is flat; the not-found set is exactly the requested names missing from the final columns; with requests every final column is a prefix of one |
| Query.Show | reagan/subclass.py:126 | `str()` of an int reads back as that int, of a string is the string, and of a bool or `None` is not an integer literal |
| Query.SqlPathSuffix | reagan/subclass.py:116 | the input is read as a file iff it is `sql` or ends with `.sql` |
| Query.ApplyReplacementsAppend | reagan/subclass.py:124-126 | replacements apply one after another: applying `a + b` is applying `a` and then `b` |
| Query.ApplyAbsentKeys | reagan/subclass.py:124-126 | non-empty keys that do not occur in the query leave it unchanged |
| Query.CleanFileText | reagan/subclass.py:120 | the read query contains no `Â` |
| Query.FormatQuery | reagan/subclass.py:107-127 | the result is the (file or literal) query with the replacements applied in order; a non-`.sql` input without replacements is returned unchanged; a file read without replacements has no `Â` |
| Decimal.ShowInt | reagan/dcm.py:37 | `str()` of an int starts with `-` exactly when it is negative and is otherwise made of one or more digits |
| Decimal.NatDigitsValue | reagan/dcm.py:37 | `str()` of a natural is a non-empty digit string denoting it |
| Decimal.ParseInt | reagan/dcm.py:34 | `int()` of a string fails only with `ValueError` |
| Decimal.ParseShowInt | reagan/dcm.py:34-37 | `int(str(n)) == n` for every integer, negative ones included |
| Dcm.IdOf | reagan/dcm.py:34 | `int(obj['id'])` raises `KeyError` when the record has no `id` |
| Dcm.StubId | reagan/dcm.py:37 | a stub reads back as its own id, so distinct ids give distinct stubs |
| Dcm.ReceivedIdsRead | reagan/dcm.py:34 | reading ids succeeds iff every record's id reads, and then yields exactly those ids |
| Dcm.ReceivedFailurePersists | reagan/dcm.py:34 | the first unreadable id aborts the whole comprehension with its error |
| Dcm.ReadIds | reagan/dcm.py:34 | the loop computes the received id set, or the first error |
| Dcm.PadMissing | reagan/dcm.py:36-37 | the response stays a prefix, one stub is appended per missing id and for no other id, and no two appended stubs are equal |
| Dcm.AppendedStubs | reagan/dcm.py:36-37 | each appended record is the stub of a missing id; no two are equal; every missing id has one |
| Dcm.RequestedAppear | reagan/dcm.py:34-37 | afterwards every requested id reads back from some record |
| Dcm.AddMissing | reagan/dcm.py:33-38 | fails iff an id cannot be read; otherwise keeps the response as a prefix and appends exactly one stub per requested-but-not-received id, none for received ids, so length grows by the size of the set difference and every requested id appears |
| Dcm.CompleteListing | reagan/dcm.py:81-82 | without `'ids'` the paged output is returned unchanged; with it the padding applies |

## Left out

- I/O: the `open`/`read` of a `.sql` file is the `fileText` parameter of `Query.FormatQuery`. Network calls, paging, `vprint` and verbose printing are not modelled.
- Python set iteration order in `_add_missing` is arbitrary, so the model picks missing ids in an unspecified order. `list(columns_to_keep)` order in `_reduce_columns` is likewise unspecified; the model keeps the table's order. This order can decide the outcome: with requested columns it fixes the order of the next pass, so it decides whether an explosion that removes every row runs before a dict lift (the `KeyError` case above). The model's Success or `KeyError` is then one of the results the code can give.
- Loader.Load: records are modelled as key/value sequences. Non-mapping records, and pandas' handling of them, are not modelled.
- Loader.Load: when two keys of one table rename to the same label (`a.b` and `a_b`), the model merges them into one column with the record's first value. pandas would keep two columns with the same label.
- Lift.LiftDict: when a new label `col_k` equals an existing column, the model replaces that column. pandas' `concat` would keep both under one label.
- Lift.LiftDict: the code raises the ambiguous-truth `ValueError` when `np.asarray(cell, dtype=object)` for a list cell has two or more entries. The model approximates this by the list's outer length. The two differ for nested lists: `[[1, 2]]` raises in the code but is lifted as `{}` by the model, and `[[], []]` (an empty array, read as false before NumPy 2.2) gives `col_0` and `col_1` in the code but `ValueError` in the model.
- Lift.LiftDict: a scalar or string cell, or a one-element list `[x]` with a non-null, non-list `x`, in a dict-tagged column is treated as `{}`. `apply(pd.Series)` would turn it into a single `col_0` cell. `[None]` and `[]` give no new column, as modelled; for `[]` this holds with NumPy versions that still read an empty array as false.
- Unnest.Unnest: inherits the `Lift.LiftDict` simplification above when a dict-tagged column holds such a cell.
- Unnest.JsonToDf: inherits the same simplification through `Unnest.Unnest`.
- pandas dtype coercion (integers becoming floats next to NaN, and so on) is not modelled. Cells keep their values.
- The `columns=None` path of `_unnest` and `_json_to_df` is not modelled, because it crashes at `col in None`. Requested columns are a possibly empty sequence.
- Decimal.ParseInt: Python's `int()` also accepts surrounding whitespace, `_` digit separators and non-ASCII decimal digits (`int("٣") == 3`); the model rejects them with `ValueError`.
- Dcm.AddMissing: requested ids are integers. Other ids in `arguments['ids']` are not modelled: strings never compare equal to a received `int`, while integral floats and bools do (`5.0 == 5`, `True == 1`).
- Dcm.IdOf: `Json.Value` has no floating-point numbers, so `int(obj['id'])` on a float id (`int(3.7) == 3`) is not modelled.
- Dcm.AddMissing: `response` is extended in place. The model returns the extended list, which the caller assigns back as `output` at `reagan/dcm.py:82`.
- Query.Scalar: replacement values are strings, integers, booleans or `None`. Float and container values, whose `str()` is not modelled, are left out.
- `SSMParameterStore`, the service construction, `eval`-based dispatch and every other API wrapper are not part of this model.
