# Survey analysis pipeline, modelled in Dafny

This project models the `Analysis` class of `analysis.py`. An analysis takes a respondent
table (one row per respondent, one column per question or demographic code), a job
dictionary and a metadata map from category names to column codes. It produces a long
("melted") table. That table gives, for every group of the first category and every output
column, the share of the group's rows that answer yes.

The stages are modelled one by one. Stages 1 to 6 are what `__init__` runs, in this order; stage 7 is a
separate method that `__init__` does not call:

1. **Resolution and projection** (`Jobs`). Category and filter names become column codes.
   The table is narrowed to those codes followed by the question codes.
2. **Row filter** (`Stages`, `Analysis.FilterSelf`). Rows are kept when their raw value in
   each filter's column is one of that filter's allowed values.
3. **Answer binarization** (`Stages`, `Analysis.CollectAnswers`).
   - Plain mode replaces each question column by a membership test.
   - Split mode adds one boolean column per answer value of the split question. The test is
     Python's `str(cell) in answer` with `answer` a string, which is a substring test and
     not equality: `SubstringQuirk` shows an empty cell and the cell `"9"` against `"99"`.
4. **Aggregation** (`Stages`, `Analysis.AggregateAnswers`). Each named column becomes the
   row-wise OR of its member columns.
5. **Proportions and melt** (`Proportions`, `Analysis.GetProportionsDf`).
   - Each proportion is an exact fraction `Ratio(trues, size)`.
   - The output columns are the aggregation names when the job aggregates, even in split
     mode. Otherwise they are the split question's answer values, and otherwise the question
     codes.
6. **Sort** (`Analysis.SortProportionsMelted`). The result concatenates the melted rows of
   each listed group in turn.
7. **Relabel** (`Analysis.ConvertQsToQuestions`, not called by `__init__`). Each index becomes
   the question's first answer text.

Representation:
- A cell is `Str(s)`, the `str(cell)` form of a raw answer, or `Bool(b)`.
- A row maps column names to cells.
- A table keeps its column list next to its rows, so that a missing column is an error even
  on a table with no rows.
- Python dictionaries (filters, questions, aggregations, `results`) are lists of items in
  insertion order.
- Exceptions are `Error` values: `KeyError`, `IndexError`, and `NoObjectsToConcatenate`
  for `pd.concat([])`.

A stage that changes the object is a method of `Analyses.Analysis` with loops and
invariants. Each method is proved against a function of the old table (`KeepAll`,
`Collected`, `Aggregate`, `Results`, `Melt`, `Sorted`, `Relabel`), and the lemmas about
those functions state the properties. `Analyses.Run` plays the role of `__init__`. It
builds the object from the resolved categories and the projected table, then runs the
stages, `get_proportions_df` with its defaults, and the sort when the job has a sort order.
It fails with the first exception raised.

Three behaviours of the code that a reader may not expect:
- Split mode tests `str(cell) in answer` with `answer` a string, a substring test and not
  equality (`Stages.SubstringQuirk`).
- Each KeyError is raised by the stage that meets it. In `aggregate_answers` the earlier
  aggregations are already written when a later one fails.
- A job may have both `split_question` and `aggregation`. The aggregation names are then the
  output columns.

## Model

| member | source | states |
|---|---|---|
| Tables.SetColumn | analysis.py:64 | `df[c] = v` overwrites column `c` in every row, or appends `c` at the end of the column list when it is new; the other columns and well-formedness are kept |
| Tables.Lookup | analysis.py:56 | a dictionary lookup such as `self.categories[category]` (also used for the lookups at analysis.py lines 63, 98 and 153) finds a value exactly when the key is present, and that value is an item of the dictionary |
| Tables.LookupSnoc | analysis.py:36-39 | looking up after appending a new item sees the older items first |
| Tables.UpdateKeyOrder | analysis.py:102 | `results.update({g: ps})` keeps the key order, appending `g` only when it is a new key |
| Tables.UpdateLookup | analysis.py:102 | after the update `g` looks up `ps` and every other key looks up what it did before |
| Tables.UpdateKeys | analysis.py:102 | updating keeps the dictionary's keys distinct and adds only the updated key |
| Tables.FirstMissing | analysis.py:41 | `df[cols]` reports a missing column (the first, in the order of `cols`) that is absent, and none exactly when all are present |
| Tables.FirstMissingAt | analysis.py:100-101 | the error raised at the first absent column of an in-order scan is that of `FirstMissing` |
| Tables.IsSubstringIff | analysis.py:64 | Python's `p in s` on strings holds exactly when `p` occurs in `s` at some position |
| Jobs.ResolveFails | analysis.py:36-39 | the categories comprehension raises exactly when some name is not in the metadata |
| Jobs.ResolveFirstUnknown | analysis.py:36-39 | the KeyError names the first unknown name, in the order the names are iterated |
| Jobs.ResolveCodes | analysis.py:36-40 | a successful resolution has one entry per distinct name, in first-occurrence order (its keys are `Dedup` of the names, which fixes the order of `self.columns`), each mapping to the name's metadata code |
| Jobs.ResolveSpec | analysis.py:36-39 | resolution fails exactly when some name is unknown, with the first unknown name; otherwise it gives one code per distinct name, in first-occurrence order (`Dedup`), each the name's metadata entry |
| Jobs.Project | analysis.py:40-41 | `df[columns]` fails exactly when a column is missing; otherwise it keeps every row, narrowed to exactly those columns with the cells unchanged |
| Stages.KeepRows | analysis.py:56 | one filter keeps only rows of its input |
| Stages.ApplyFilters | analysis.py:55-56 | the filter loop keeps only rows of its input |
| Stages.KeepRowsAfterKeepAll | analysis.py:55-56 | one more filter on the rows passing some filters gives the rows passing all of them |
| Stages.FilterExact | analysis.py:53-57 | the filter loop keeps exactly the rows that pass every filter, in their original order |
| Stages.KeepAllCounts | analysis.py:53-57 | each passing row is kept as many times as it occurs and every other row is dropped |
| Stages.FilterIdempotent | analysis.py:53-57 | filtering again with the same filters changes nothing |
| Stages.FilterOrderIrrelevant | analysis.py:55 | the order and repetition of the filters do not matter |
| Stages.Binarize | analysis.py:67 | binarizing a question keeps the column list, the row count and well-formedness |
| Stages.BinarizeAll | analysis.py:66-67 | the plain-mode loop keeps the column list, the row count and well-formedness |
| Stages.PlainRowStep | analysis.py:66-67 | binarizing one more question turns the reference row for the earlier questions into the one for all of them |
| Stages.PlainCollectSpec | analysis.py:66-67 | after plain binarization each question cell is True iff its string form is one of that question's answers; every other cell is unchanged |
| Stages.PlainCollectBool | analysis.py:66-67 | every question column is boolean after plain binarization |
| Stages.SplitColumn | analysis.py:64 | one split step adds exactly the answer column and keeps well-formedness |
| Stages.SplitAll | analysis.py:63-64 | the split loop adds exactly the answer columns and keeps the row count |
| Stages.SplitRowStep | analysis.py:63-64 | one more answer value turns the reference row for the earlier values into the one for all of them |
| Stages.SplitCollectSpec | analysis.py:62-64 | when the split question is not one of its own answer values, each answer column holds the substring test against the unchanged split column and every other cell is unchanged |
| Stages.SplitExactMatch | analysis.py:64 | a split cell equal to an answer value marks that answer True |
| Stages.SplitCollectBool | analysis.py:62-64 | every answer column is boolean after split binarization |
| Stages.SubstringQuirk | analysis.py:64 | the split test is looser than equality: an empty cell matches every answer, and `"9"` matches `"99"` |
| Stages.AnyTruthyIff | analysis.py:76 | the row-wise `any` is true iff some member cell is truthy, so it is False for no members |
| Stages.AnyTruthySameCells | analysis.py:76 | the row-wise `any` depends only on the member cells |
| Stages.Aggregate | analysis.py:73-78 | aggregation keeps well-formedness and the row count, and adds only aggregation names to the columns |
| Stages.AggregateErrors | analysis.py:75 | aggregation fails only with a KeyError on a member column the table lacks, and cannot fail when all members are present |
| Stages.AggregatedRowKeeps | analysis.py:75-76 | a column that is not an aggregation name keeps its cell |
| Stages.AggregatedRowStep | analysis.py:74-76 | one more aggregation turns the reference row for the earlier ones into the one for all of them |
| Stages.AggregateSpec | analysis.py:73-78 | with distinct names, none of them a member of a later aggregation, each name holds the OR of its original member cells and the other cells are unchanged; a name may be one of its own members |
| Stages.AggregateBool | analysis.py:73-78 | every aggregation column is boolean after an aggregation that did not fail |
| Stages.AggregatePrefixError | analysis.py:74-76 | after a failed step the later aggregations are not looked at |
| Stages.OutputColumnsBool | analysis.py:90-101 | every output column is boolean in the answered table, so the column sum counts True cells |
| Proportions.GroupRows | analysis.py:98 | a group's rows are rows of the table with that group value, and there are none iff no row has it |
| Proportions.GroupRowsCounts | analysis.py:98 | `_df[_df[code] == group]` keeps every row with the group value as often as it occurs, and no other row |
| Proportions.CountTrueRows | analysis.py:101 | the sum of a boolean column is the number of its True rows |
| Proportions.CountTrueBound | analysis.py:101 | the true count never exceeds the group size |
| Proportions.Proportion | analysis.py:101 | `0 <= trues <= size`, so the proportion lies in [0, 1]; the size is 0 iff no row has the group value |
| Proportions.ProportionValue | analysis.py:98-101 | a proportion is the number of the group's rows whose column cell is True over the number of the group's rows |
| Proportions.GroupProportions | analysis.py:99-101 | a group's proportion list has one entry per output column |
| Proportions.ObservedValues | analysis.py:88-89 | the default groups are distinct, are exactly the values observed in the grouping column, and are empty iff the table is |
| Proportions.DefaultGroupsNonEmpty | analysis.py:88-101 | each default group has a row, so none of its proportions divides by 0 |
| Proportions.EmptyGroupProportions | analysis.py:97-101 | a caller-supplied group matching no row gives 0/0 in every column |
| Proportions.ResultsKeys | analysis.py:96-102 | `results` has one distinct key per group, in order of first mention (`Dedup` of the groups, also for a repeated caller-supplied group) |
| Proportions.ResultsLookup | analysis.py:97-102 | every group maps to its own proportion list |
| Proportions.ResultsSpec | analysis.py:96-102 | `results` has distinct keys that are exactly the groups in order of first mention, and each item is its group's proportion list, as long as the output columns |
| Proportions.MeltSize | analysis.py:96-109 | the melted table has `groups × output columns` rows |
| Proportions.MeltAt | analysis.py:96-109 | the melt is group-major: the row at position `g × (number of output columns) + c` is output column `c` of group `g`, with that cell of the wide table |
| Proportions.MeltRoundTrip | analysis.py:108-109 | the wide table is recovered from its melt when there are output columns |
| Proportions.Select | analysis.py:149 | a block holds only melted rows of the selected group |
| Proportions.HitsZero | analysis.py:148 | no entry of the order names a group iff its hit count is 0 |
| Proportions.HitsOne | analysis.py:148 | a group named by a duplicate-free order is hit once |
| Proportions.SelectCopies | analysis.py:149 | a group's block holds each of its rows as often as the melted table does, and no other row |
| Proportions.SortCopies | analysis.py:147-150 | the sorted table holds each row once per entry naming its group |
| Proportions.SortCounts | analysis.py:143-150 | each row's multiplicity in the sorted table is its multiplicity in the melt times the number of entries naming its group, so a repeated entry repeats its rows |
| Proportions.SortDropsUnlisted | analysis.py:143-150 | rows of unlisted groups are dropped |
| Proportions.SortPermutes | analysis.py:143-150 | with distinct entries covering every group, sorting is a permutation |
| Proportions.SelectFirst | analysis.py:149 | the block of a group starts with its first melted row, followed by the block of the rows after it |
| Proportions.RelabelSpec | analysis.py:152-153 | relabelling succeeds iff every index is a question with an answer, then replaces each index by its first answer and keeps group and value; otherwise it fails with the first failing row's error |
| Proportions.RelabelPrefixError | analysis.py:153 | after a failing row the later rows are not looked at |
| Analyses.JobFilters | analysis.py:55-56 | one resolved filter per job filter, each on a category code |
| Analyses.FiltersApplicable | analysis.py:40-56 | the filter columns are projected columns, so every row has them |
| Analyses.Analysis.constructor | analysis.py:36-43 | the object holds the job, the resolved categories, the projected columns and table, and no proportions yet |
| Analyses.Analysis.FilterSelf | analysis.py:53-57 | the working table keeps exactly the rows passing every filter, in order; nothing else changes |
| Analyses.Analysis.CollectAnswers | analysis.py:60-68 | the working table becomes the binarized table, or the KeyError for a split question without an answer list is raised and nothing changes |
| Analyses.Analysis.AggregateAnswers | analysis.py:71-79 | without aggregation the table is unchanged; otherwise the in-place loop leaves `Aggregate`'s table, including the columns written before a KeyError |
| Analyses.Analysis.GroupProportionsOf | analysis.py:99-101 | one group's proportions in every output column, or a KeyError on the first output column the table lacks |
| Analyses.Analysis.ProportionsInputs | analysis.py:84-95 | grouping name, groups and output columns, with the IndexError or KeyError of the defaults and the column choice |
| Analyses.Analysis.GroupResults | analysis.py:96-102 | `results` over the groups, or the KeyError of the grouping name or of a missing output column; none for no groups |
| Analyses.Analysis.GetProportionsDf | analysis.py:82-110 | raises exactly the error `ProportionsError` names and then changes nothing; otherwise it stores the output columns, the groups (the observed values, distinct, by default), `results` as the wide table and its melt |
| Analyses.SortedFrames | analysis.py:147-149 | the `df_list` loop builds one frame per entry of the order, that group's melted rows, and concatenated they are the sorted table |
| Analyses.Analysis.SortProportionsMelted | analysis.py:143-150 | the job's order wins over the argument; with no melted table a KeyError, with an empty order the concat error, otherwise the blocks of the listed groups in turn |
| Analyses.Analysis.ConvertQsToQuestions | analysis.py:152-153 | the melted table is relabelled as `Relabel` says, or its error is raised and nothing changes |
| Analyses.Run | analysis.py:30-49 | the first stage error is raised; otherwise a fresh valid object holds the prepared table, the proportions over the observed groups, and their melt, sorted when the job has a sort order |

## Left out

- Reading the table from the pickle or Excel file, and the module-level `df` used as the default argument: the table and the metadata are parameters of `Run`.
- `make_seaborn_barplot`, the labels, the legend and the figures (`self.plots`): plotting has no behaviour to state. `Run` ends before it.
- `column_values`, the job literals and the `savefig` calls: these are exploration and configuration, not pipeline logic.
- Floating point: a proportion is the exact pair (true count, group size), and a size of 0 stands for numpy's `nan` from 0/0.
- Raw cell types: cells are kept as their `str` form, so the integer 1 and the string "1" are the same group and match the same sort entry. pandas compares them as different values.
- `isin` in the filter compares raw values, modelled as the string form of a string cell. Boolean cells never pass a filter.
- Missing cells (`NaN`) and pandas dtype coercion are not modelled. The sum of a column is modelled as its number of True cells; `Stages.OutputColumnsBool` shows the output columns are boolean after the pipeline.
- Tables.FirstMissing: for a list selection `df[cols]`, pandas' KeyError names every missing label. The model's `KeyError(c)` keeps only the first missing label of `cols`, which is what `Jobs.Project` and `Stages.Aggregate` report; single-label lookups (analysis.py:37, 89, 98, 101) raise `KeyError(label)` as modelled.
- Duplicate column labels: if the projected columns repeat a code, pandas keeps a duplicated column. Here the narrowed rows have one cell per label.
- A group whose value is the string `"index"` would overwrite the `'index'` entry of `results`. The model keeps `results` apart from the index column.
- Analyses.Analysis.GetProportionsDf: `set` iteration order is arbitrary, so the contract only promises that the default groups are a duplicate-free list of exactly the observed values. The body happens to use first-occurrence order.
- Analyses.Analysis.GetProportionsDf: the falsy defaults `None` and `[]` (and `None` and `""` for `group_by`) are both represented by the empty value.
- The copy-versus-view behaviour of pandas (`SettingWithCopyWarning`) is not modelled. Each stage writes the table it computed back to `self.dataframes['df']`.
- The object is not returned after a stage raises in `__init__`. `Run` returns only the error, although the model keeps the partial writes of `aggregate_answers` in `Analysis.AggregateAnswers`.
