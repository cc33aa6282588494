# Mortality-table helpers in Dafny

A Dafny model of `modules/module.py`, the helper module of a mortality-statistics
exploration project. The module does two things.

- It parses compound death-cause labels such as `"001-102 I-XXII.Todas las causas"`.
  `cause_types` classifies a label by whether it holds a numeric range token.
  `cause_code` and `cause_name` split the label at its first space.
- It reshapes pandas data frames of death counts. `row_filter` and `nrow_filter`
  keep or drop rows by categorical membership. `groupby_sum` sums the counts per
  combination of grouping values. `cat_var` summarises categorical columns. Each
  of these ends by sorting on a count column, largest first.

The data frame becomes an immutable `Frame.Table`: column names plus a sequence
of rows, where each row maps every column name to a `Value`. A value is a label
(`Text`), a death count (`Count`), or a list of values (`Items`, for the
`values` column of `cat_var`). `Table.Valid()` says the column names are
distinct and every row has a cell in exactly those columns. The positional index
is implicit, because every helper resets it. Python exceptions become `Err`
values of `Errors.Result`:

- `MissingColumn(name)` for pandas' `KeyError` on an absent column;
- `NoGroupKeys` for grouping by an empty column list;
- `NoSeparator` for `cause_name`'s `IndexError` on a label without a space.

Modules, one per concern:

| file | module | contents |
|---|---|---|
| errors.dfy | `Errors` | error kinds and `Result` |
| seqs.dfy | `Seqs` | `NoDups`, `Map`, `Distinct` (`unique()`), permutation lemmas |
| frame.dfy | `Frame` | values, rows, tables, column access, column sums |
| sorting.dfy | `Sorting` | descending sort by a count column |
| causes.dfy | `Causes` | `cause_types`, `cause_code`, `cause_name`, `str.strip` |
| filters.dfy | `Filters` | `row_filter`, `nrow_filter` |
| groupby.dfy | `GroupBy` | `groupby_sum` |
| categorical.dfy | `Categorical` | `cat_var` |

Each operation has an independent partner. Filtering is compared with the
order-keeping mask `Filters.Mask`. Each group's sum is compared with
`GroupBy.GroupTotal`, the sum over the rows carrying that key.
`Categorical.Summarizes` states what a summary row must say about its column.
The regular expression is stated as `Causes.HasRangeToken`, and stripping as
`Causes.IsStripOf`.

Behaviour worth knowing:

- `cause_code` and `cause_name` split at the first single space character
  (`split(" ", 1)`), not at the first run of whitespace. A tab does not
  separate. In `"a  b"` the code is `"a"` and the name is `"b"`, because the
  second space is stripped.
- `cause_code` never fails. A label without a space is returned whole. Only
  `cause_name` raises.
- `cat_var` sorts with pandas' default sort, which does not promise to keep
  ties in input order. The model states no tie order.
- `unique()`, `isin` and `groupby` hash the cells they look at, and pandas
  raises `TypeError` for a list cell. The model returns `Unhashable` for the
  column in question. One example is `cat_var` run on the "values" column of
  its own result.
- `cat_var` with an empty column list raises, because the empty summary frame
  has no `number_of_possible_values` column to sort by.

## Model

| member | source | states |
|---|---|---|
| Causes.CauseTypes | modules/module.py:28-40 | "Multiple causes" exactly when `\d+-\d+` matches somewhere in the label, "Single cause" exactly when it does not |
| Causes.RangeTokenIffTriple | modules/module.py:35-36 | a match of `\d+-\d+` exists iff a digit, a hyphen and a digit stand next to each other |
| Causes.ScanFrom | modules/module.py:36-37 | the scan finds a digit-hyphen-digit triple at or after a position iff one exists there |
| Causes.CauseTypesExample | modules/module.py:33-40 | the documented label `'001-102 I-XXII.Todas las causas'` is classified "Multiple causes" |
| Causes.CauseTypesSingleExample | modules/module.py:35-40 | a label with no digits, `"I.Algunas causas"`, is classified "Single cause" |
| Causes.SpaceIndex | modules/module.py:49 | the index of the first space: no space before it, a space at it, or the length when the text has none |
| Causes.SplitOnce | modules/module.py:49 | `split(" ", 1)` gives one part (the whole text) when there is no space, otherwise two parts that rejoin with one space to the text; the first part has no space |
| Causes.CauseCode | modules/module.py:42-49 | the code is a prefix of the label without spaces, the whole label when it has no space, and otherwise is followed in the label by a space |
| Causes.CauseName | modules/module.py:51-58 | fails exactly when the label has no space; otherwise the name is the stripped remainder after code and space, with no whitespace at either end |
| Causes.TrimStart | modules/module.py:58 | the result is a suffix of the text, everything cut is whitespace, and the result does not start with whitespace |
| Causes.TrimEnd | modules/module.py:58 | the result is a prefix of the text, everything cut is whitespace, and the result does not end with whitespace |
| Causes.Strip | modules/module.py:58 | `strip()` keeps a contiguous part whose ends are not whitespace, with only whitespace around it |
| Causes.StripUnique | modules/module.py:58 | any string with the stripping property is the result of `Strip`, so the characterisation is exact |
| Causes.StripTrimmed | modules/module.py:58 | a string with no whitespace at either end is left unchanged by stripping |
| Causes.StripIdempotent | modules/module.py:58 | stripping twice is stripping once |
| Causes.CauseLabelSplits | modules/module.py:44-58 | a label with a space is code + " " + remainder, and the name is the stripped remainder |
| Causes.CauseLabelRoundTrip | modules/module.py:42-58 | a label built from a space-free code and a name with no surrounding whitespace parses back to that code and name |
| Causes.CauseSplitExamples | modules/module.py:44-58 | the documented label splits into `'001-102'` and `'I-XXII.Todas las causas'`; a bare code has no name |
| Seqs.Distinct | modules/module.py:19 | `unique()` holds every value of the column and nothing else, each once, in order of first appearance |
| Seqs.NoDupsCard | modules/module.py:19-20 | the length of a duplicate-free list is the number of distinct values in it |
| Seqs.DistinctMembers | modules/module.py:19 | `unique()` keeps the set of values |
| Sorting.Insert | modules/module.py:73 | inserting a row adds exactly that row and keeps a descending order descending |
| Sorting.SortDesc | modules/module.py:73 | `sort_values(ascending=False)` returns a permutation of the rows, non-increasing in the sort column |
| Sorting.SortDescKeepsSorted | modules/module.py:86 | rows already in descending order are left unchanged by the sort |
| Frame.SumOfPermutation | modules/module.py:101 | reordering rows does not change a column total |
| Filters.Mask | modules/module.py:73 | `df[df[k].isin(vs)]` (or `df[~...]`) keeps each row as often as the input has it when the row passes the mask, and never otherwise |
| Filters.RowFilter | modules/module.py:63-74 | fails exactly when the filter column is missing, when a cell of it or one of `vs` is a list `isin` cannot hash, or when "Total" is missing, in that order; otherwise the rows are exactly the input rows (with multiplicity) whose value in `k` is in `vs`, all columns kept, sorted by "Total" descending |
| Filters.NRowFilter | modules/module.py:76-87 | as `RowFilter`, with the same failures, for the rows whose value in `k` is not in `vs` |
| Filters.FiltersPartition | modules/module.py:73-87 | the two filters with the same arguments split the input rows into disjoint parts whose union is the input and whose "Total" sums add up to the input's |
| Filters.RowFilterIdempotent | modules/module.py:73-74 | applying `row_filter` to its own result returns the same table |
| Filters.NRowFilterIdempotent | modules/module.py:86-87 | applying `nrow_filter` to its own result returns the same table |
| GroupBy.Zip | modules/module.py:100 | a group row holds each grouping column's key value |
| GroupBy.GroupRow | modules/module.py:100 | an output row has just the grouping columns and the aggregated column, carries its key and holds its total as a count |
| GroupBy.Groups | modules/module.py:100 | one output row per key, holding that key's group total |
| GroupBy.GroupsSum | modules/module.py:100 | the output rows together carry the sum of their groups' totals |
| GroupBy.TotalOverStep | modules/module.py:100 | one input row contributes to exactly one group total among distinct keys, or to none when its key is absent |
| GroupBy.TotalOverAll | modules/module.py:100 | the totals of distinct keys covering all rows add up to the column total: no row is lost or counted twice |
| GroupBy.GroupBySum | modules/module.py:89-102 | fails exactly for an empty grouping list, a missing grouping or aggregated column, a grouping column holding a list cell, or a sort column not in the result, in that order. Otherwise: columns are the grouping columns then the aggregated one; the keys occurring are exactly the input's, each once; each row holds its group's sum; the grand total is conserved; rows are sorted descending |
| Categorical.SummarySummarizes | modules/module.py:17-24 | the summary of a column names it, lists its distinct values once each in order of first appearance, and counts them |
| Categorical.CatVar | modules/module.py:6-26 | fails for the first listed column the table lacks (missing) or that holds a list cell (unhashable), or for an empty list. Otherwise: one row per requested column (as a multiset of names), each a correct summary, sorted by the count descending |
| Categorical.CatVarOfOwnValues | modules/module.py:19 | summarising the "values" column of a `cat_var` result raises `Unhashable`, because its cells are lists |

## Left out

- `pivot_table` (modules/module.py:104-119) is not modelled. Its result has one
  column per distinct value of the data, and absent combinations become missing
  cells. That output shape does not fit the fixed-column table model.
- Missing cells (NaN) are not modelled. `Table.Valid()` says every row has a
  value in every column, so pandas' dropping of NaN group keys never arises.
- Counts are unbounded integers. Floating-point `Total` columns are not
  modelled.
- `reset_index` is implicit: every result is a plain sequence of rows.
- Filters.RowFilter: states no order among rows with equal "Total", because
  pandas' default quicksort promises none. It requires "Total", where present,
  to hold counts in every row; sorting a text column is not modelled. Any
  list among the cells of `k` or among `vs` raises. How a given pandas
  version turns `vs` into an array before hashing is not modelled.
- Filters.NRowFilter: the same tie-order and count-column limits as `RowFilter`.
- GroupBy.GroupBySum: states no order among rows with equal sort values. It
  requires distinct grouping columns and an aggregated column that is not a
  grouping column; pandas behaviour outside these cases is not modelled. The
  aggregated column, and a sort column that is a grouping column, must hold
  counts. A missing aggregated column is reported before a grouping column
  holding a list cell. That order follows pandas checking the aggregation's
  columns before it hashes the keys.
- Categorical.CatVar: states no order among columns with equal counts.
- Filters.RowFilterIdempotent: proves equality for the model's sort, which
  leaves rows that are already in order where they are. pandas' quicksort
  promises no order for equal "Total" values. Under pandas, re-filtering gives
  the same rows, but rows with equal "Total" may come out in a different order.
- Filters.NRowFilterIdempotent: the same tie caveat as `RowFilterIdempotent`.
- Sorting.SortDescKeepsSorted: is a property of the model's insertion sort, not
  a promise of pandas' sort.
- Causes.CauseTypes: `\d` is taken as the ASCII digits `0`-`9`. Python also
  matches other Unicode decimal digits.
- Causes.Strip: whitespace is the fixed set of characters Python's
  `str.isspace` accepts, listed in `Causes.IsSpace`.
- Comparing values in `isin` is structural equality on `Value`. pandas'
  numeric coercion between integer and float cells is not modelled.
