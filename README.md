# Vehicle listings preprocessing, modelled in Dafny

The dashboard in `app.py` loads a table of used-vehicle listings and, before
showing anything, repairs its missing values in a fixed order:

1. a missing `model_year` becomes the median of the present years of the same
   `model`;
2. a missing `cylinders` becomes the first entry of pandas' `mode()` (the
   smallest of the most frequent values) of the same `model`, with the median
   as fallback when the mode is empty;
3. a missing `odometer` becomes the mean of the present readings of the rows
   with the same `model_year`, the column as step 1 left it;
4. a missing `paint_color` becomes `'desconocido'` and a missing `is_4wd`
   becomes `0.0`;
5. `model_year` and `cylinders` are rounded (half to even) into nullable
   integers and `is_4wd` is cast to boolean.

It then builds the two column lists the chart controls offer: the numeric
columns without `days_listed` and with `price` first, and the object columns
with `is_4wd` and `cylinders` appended and `model_year` removed.

The model:

- `wrappers.dfy` — `Option`, standing for NaN / NA.
- `statistics.dfy` — median (via a sort proved sorted and a permutation),
  first mode, mean, each `None` on an empty partition, with their defining
  properties and their independence from row order. pandas floats are exact
  `real`s.
- `rounding.dfy` — numpy's round-half-to-even, specified by the rounding rule
  and proved to be the only integer that satisfies it.
- `groupby.dfy` — `groupby(key)[col].transform(lambda x: x.fillna(stat(x)))`
  as a function on a key column and a value column: completeness and
  idempotence of the fill.
- `vehicles.dfy` — rows (`RawVehicle` before step 5, `Vehicle` after), the
  five steps as functions from table to table, the method `LoadData` that runs
  them in order over a local frame, and what the whole pipeline does to each
  cell.
- `columns.dfy` — the two column lists, built by methods that apply
  `list.remove`, `insert(0, …)` and `extend` to local lists.

Two behaviours of `app.py` worth noting:

- Ties in the mode go to the smallest value, because pandas returns the modes
  sorted.
- A cell whose partition has no present value stays missing after the
  pipeline, so the output can still hold missing cells. The fallback in step 2
  never supplies a value (`Statistics.ModeElseMedian`), and neither step 1 nor
  step 3 has a global fallback.

## Model

| member | source | states |
|---|---|---|
| `Statistics.Median` | app.py:19 | the median exists exactly when the partition has a present value |
| `Statistics.MedianSplitsInHalves` | app.py:19 | at least half of the values are at most the median, and at least half are at least it |
| `Statistics.MedianWithinRange` | app.py:19 | the median lies between the smallest and the largest present value |
| `Statistics.MedianOfConstant` | app.py:19 | a partition whose present values are all `v` has median `v` |
| `Statistics.MedianDependsOnlyOnValues` | app.py:19 | the median depends only on the multiset of present values, not on row order |
| `Statistics.Sort` | app.py:19 | the median's ordering is sorted and a permutation of the values |
| `Statistics.SortedUnique` | app.py:19 | two sorted arrangements of the same values are equal |
| `Statistics.Mode` | app.py:23 | `mode()[0]` exists exactly when there is a present value; it is a most frequent value, the smallest of those, and the only value with both properties |
| `Statistics.MostFrequent` | app.py:23 | the chosen candidate occurs at least as often as every other, and is the smallest among equally frequent ones |
| `Statistics.ModeElseMedian` | app.py:23 | the median fallback of the cylinders lambda never changes the result: it equals the first mode |
| `Statistics.ModeDependsOnlyOnValues` | app.py:23 | the first mode depends only on the multiset of present values, not on row order |
| `Statistics.Mean` | app.py:26 | the mean exists exactly when there is a present value, and times the count it gives the sum |
| `Statistics.MeanWithinRange` | app.py:26 | the mean lies between the smallest and the largest present value |
| `Statistics.MeanOfConstant` | app.py:26 | a partition whose present values are all `v` has mean `v` |
| `Statistics.MeanDependsOnlyOnValues` | app.py:26 | the mean depends only on the multiset of present values, not on row order |
| `Rounding.RoundHalfEven` | app.py:35-36 | the result is within 1/2 of the input, and on a tie it is even |
| `Rounding.RoundHalfEvenUnique` | app.py:35-36 | any integer that satisfies the rounding rule is the result |
| `Rounding.RoundWholeUnchanged` | app.py:35-36 | a whole number is rounded to itself |
| `GroupBy.Apply` | app.py:19-26 | each fill statistic is defined exactly on non-empty partitions |
| `GroupBy.GroupPresent` | app.py:19-26 | a value is in a partition's list exactly when a row with that key holds it, and it occurs there as often as such rows hold it |
| `GroupBy.FillByGroup` | app.py:19-26 | present cells and rows with a missing key are kept; a missing cell gets the statistic of its partition's present values |
| `GroupBy.FillCompletes` | app.py:19-26 | a keyed cell is present after the fill exactly when some row of its partition was present before |
| `GroupBy.FillIdempotent` | app.py:19-26 | filling a filled column changes nothing |
| `Vehicles.ImputeModelYear` | app.py:19 | only `model_year` changes; present years are kept; a missing year becomes the median of its model's present years |
| `Vehicles.ImputeCylinders` | app.py:23 | only `cylinders` changes; present counts are kept; a missing count becomes the first mode of its model's present counts |
| `Vehicles.ImputeOdometer` | app.py:26 | only `odometer` changes; present readings and rows without a year are kept; a missing reading becomes the mean of the present readings of its year |
| `Vehicles.FillPlaceholders` | app.py:29-30 | only `paint_color` and `is_4wd` change; both end present; a missing colour becomes `'desconocido'` and a missing flag `0.0` |
| `Vehicles.RoundCell` | app.py:35-36 | NaN becomes NA, never 0; a present value is rounded half to even |
| `Vehicles.Truthy` | app.py:37 | the boolean is false exactly for 0.0 |
| `Vehicles.CoerceTypes` | app.py:35-37 | row count and the other columns are kept; year and cylinders keep their presence and are rounded half to even; the flag is false exactly for 0.0 |
| `Vehicles.FillStagesOnComplete` | app.py:19-30 | on a table with no missing target cell, steps 1 to 4 change nothing |
| `Vehicles.FillStagesIdempotent` | app.py:19-30 | steps 1 to 4 run on their own output change nothing |
| `Vehicles.SiblingYearImputed` | app.py:19 | a listing without a year takes the only year present for its model |
| `Vehicles.SiblingBeforeOdometer` | app.py:19-26 | after step 2 both listings carry the sibling's year, and only the sibling has a reading |
| `Vehicles.OdometerGroupsOnImputedYear` | app.py:19-26 | step 3 sees step 1's years: a listing without year or reading gets its sibling's year and then that year's mean reading |
| `Vehicles.OdometerOnRawYearStaysMissing` | app.py:26 | grouping on the raw years instead would leave that reading missing |
| `Vehicles.NormalizedKeepsOtherColumns` | app.py:16-39 | the model and every untouched column come through the pipeline unchanged |
| `Vehicles.NormalizedModelYear` | app.py:19-35 | a present year is kept, rounded; a missing one is the median of its model's present years, rounded; a row ends with a year exactly when some row of its model had one |
| `Vehicles.NormalizedCylinders` | app.py:23-36 | a present count is kept, rounded; a missing one is the model's first mode, rounded |
| `Vehicles.NormalizedOdometer` | app.py:19-26 | a present reading is kept; a missing one gets the mean over the rows sharing its step-1 year |
| `Vehicles.NormalizedPlaceholders` | app.py:29-37 | the colour ends present, `'desconocido'` if it was missing; the flag is true exactly for a present non-zero value |
| `Vehicles.LoadData` | app.py:12-39 | runs steps 1 to 5 in order; same row count, model and untouched columns; every target cell as in the five lemmas above |
| `Columns.NamesWhere` | app.py:56 | a name is listed exactly when some column of the frame has it and a dtype that passes the filter |
| `Columns.UniqueNamesOnce` | app.py:56 | with unique column names, no name is listed twice |
| `Columns.RemoveFirst` | app.py:59 | `list.remove` takes out the first occurrence of the name and nothing else |
| `Columns.RemoveFirstKeepsOrder` | app.py:59 | the other names keep their order |
| `Columns.RemoveFirstMembers` | app.py:59 | every other name stays listed, and a name listed once is gone |
| `Columns.DropName` | app.py:58-59 | one occurrence of the name goes, the other names stay in order; a name listed once is gone |
| `Columns.MoveToFront` | app.py:60-62 | same names; the name is first exactly when it was listed; the others keep their order |
| `Columns.NumericColumns` | app.py:56-62 | the numeric columns minus `days_listed`; `price` first exactly when numeric; the others in frame order; no `days_listed` when names are unique |
| `Columns.ExtendThenDrop` | app.py:66-68 | after `extend` and the guarded `remove`, the appended names end the list, one occurrence of the removed name goes, the others keep their order, and a name listed once is gone |
| `Columns.CategoricalColumns` | app.py:64-68 | the object columns plus `is_4wd` and `cylinders`, minus `model_year`; ends with `is_4wd`, `cylinders`; no `model_year` when names are unique |

## Left out

- Reading the CSV file and the missing-file path (`FileNotFoundError`, `st.error`, `st.stop`): file I/O and process control. `LoadData` starts from the table as read.
- `@st.cache_data`: library memoisation with no behaviour of its own.
- All Streamlit widgets, the layout and the Plotly charts, including the stop when the numeric list is empty (app.py:71-73): presentation.
- Floating-point rounding in `median()` and `mean()`: the model computes them exactly over `real`.
- dtype detection by `select_dtypes`: each column's dtype is an input to `Columns.NumericColumns` and `Columns.CategoricalColumns`.
- Vehicles.ImputeOdometer: a row whose `model_year` is still missing after step 1 keeps its odometer. Some pandas versions write NaN into such rows in `transform`; the model does not follow that.
- Vehicles.FillPlaceholders: the fills always take effect. Under pandas copy-on-write, chained `fillna(..., inplace=True)` may not write back.
- A missing `model` cannot be represented. The model is the grouping key and is always present in this data.
- The column order of the frame is fixed by the row datatypes, so the model cannot reorder columns. It does not express this as a separate statement.
