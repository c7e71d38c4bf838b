# Zillow table cleaning, modelled in Dafny

This project models the table-cleaning core of the Zillow single-family-home
pipeline in `wrangle.py`:

- the two read-only missing-value audits: the per-column report and the per-row report;
- the column remover;
- the threshold-based missing-value reducer;
- the single-family eligibility filter;
- the preparation step `data_prep`. It reduces missing values and bins the fips
  code into a county, with two county indicator columns. It bins the finished
  area into a size band, adds the bedroom and bathroom counts into a room total,
  bins each count into a band, and finally drops every row with a missing cell.

A pandas DataFrame is a `Table` value: column labels plus rows of cells. A cell
is a number, a text, a category code, or missing (`None` stands for NaN/None).
A category produced by `pd.cut` is the index of the interval it falls in. The
`Binning` module maps that index to the county or band it names. Pandas
exceptions become an `Err` result:

- `MissingColumns` for a `KeyError` or `AttributeError` on an absent label;
- `NotNumeric` for a `TypeError` from comparing or adding a column that holds
  non-numbers.

A label that occurs twice is read at its first occurrence.

`handle_missing_values` and the first half of `data_prep` change the caller's
frame in place. For these, `Frames.Frame` is a class holding the frame's labels
and rows. Its methods are the in-place primitives: `dropna(..., inplace=True)`
and column assignment. Each method is proved against the value-level function
with the same meaning. `Prep.DataPrep` also states what the caller's frame
holds afterwards. That frame holds the reduction and the `county_code_bin`
column. It does not hold the later columns, because `pd.concat` makes a new
frame.

Modules:

- `Tables`: cells, rows, tables, column lookup, assignment, concatenation and the three `dropna` forms.
- `Frames`: the mutable frame.
- `Reduce`: `handle_missing_values`.
- `Audit`: `missing_values_per_column` and `missing_values_per_row`.
- `Prune`: `remove_columns`.
- `Eligibility`: `single_family_homes`.
- `Binning`: the `pd.cut` intervals.
- `Prep`: `data_prep`.

Edge behaviour of wrangle.py worth noting:

- The reducer keeps a column or row whose count of present cells reaches the
  rounded threshold, a count and not a proportion of missing cells.
- An area of exactly 1800 square feet is in the first size band, because the
  intervals are right-closed.
- On a frame with columns but no rows, the per-column report has one line per
  column, with a count of 0 and a NaN share.

## Model

| member | source | states |
|---|---|---|
| Tables.DropNaColumns | wrangle.py:93 | `dropna(axis=1, thresh=n)` keeps, in order and with all their cells, exactly the columns with at least `n` present cells |
| Tables.DropNaRows | wrangle.py:95 | `dropna(axis=0, thresh=n)` keeps, in order, every copy of each row with at least `n` present cells and no other row, and every column |
| Tables.DropNaAny | wrangle.py:133 | `dropna()` keeps, in order, every copy of each row with no missing cell and no other row |
| Tables.DropNaAnyPositions | wrangle.py:133 | the `n`-th row `dropna()` keeps is the row at the `n`-th position holding a complete row |
| Tables.SetColumn | wrangle.py:106-108 | column assignment overwrites an existing label in place or appends a new one; the assigned column reads the given values, every other label keeps its cells, and unique labels stay unique |
| Tables.Concat | wrangle.py:114 | `pd.concat(axis=1)` puts the second frame's labels after the first's; each label reads the cells of the frame it came from, and disjoint unique labels stay unique |
| Frames.Frame.DropNaColumnsInPlace | wrangle.py:93 | the in-place column pass leaves the frame equal to `DropNaColumns` of its old contents |
| Frames.Frame.DropNaRowsInPlace | wrangle.py:95 | the in-place row pass leaves the frame equal to `DropNaRows` of its old contents |
| Frames.Frame.Assign | wrangle.py:106 | `df[name] = values` leaves the frame equal to `SetColumn` of its old contents |
| Reduce.RoundHalfEven | wrangle.py:92 | Python's `round(x, 0)`: within one half of `x`, and even when `x` is exactly half-way |
| Reduce.ThresholdBounds | wrangle.py:92-94 | a proportion of 0 asks for no present cell; a proportion of 1 asks for all of them |
| Reduce.HandleMissing | wrangle.py:90-96 | keeps exactly the columns whose present cells reach the rounded column threshold, in order, then, in order and with every copy, exactly the rows whose present cells reach the rounded row threshold over the remaining columns |
| Reduce.DefaultThreshold | wrangle.py:90-94 | at the default proportion 0.5 the threshold is half the count, a half-way value going to the even neighbour (5 rows ask for 2, 7 for 4) |
| Reduce.HandleMissingZero | wrangle.py:90-96 | proportions of 0 return the frame unchanged |
| Reduce.HandleMissingFull | wrangle.py:90-96 | proportions of 1 keep exactly the complete columns, then every copy of each complete row and no other row |
| Reduce.HandleMissingColumnRule | wrangle.py:92-93 | with unique labels, a label survives exactly when its column has enough present cells, and labels stay unique |
| Reduce.HandleMissingValues | wrangle.py:90-96 | the in-place reducer leaves the caller's frame equal to `HandleMissing` of its old contents |
| Audit.MissingPerColumn | wrangle.py:65-71 | one line per column, ordered by missing count descending, and a permutation of the columns' (label, count, share) statistics |
| Audit.MissingPerColumnLines | wrangle.py:67-69 | every report line is some column's label with that column's missing count and its share of the rows |
| Audit.MissingPerRow | wrangle.py:74-81 | one line per missing-cell count that some row has, in ascending order, each with the number of rows sharing it and its share of the columns; empty when there are no columns |
| Audit.RowCountsSumToRows | wrangle.py:76-79 | with at least one column, the per-row report's `row_counts` add up to the number of rows |
| Audit.ColumnAndRowTotalsAgree | wrangle.py:68-77 | summing missing cells column by column gives the same total as summing them row by row |
| Audit.MissingTotalsAgree | wrangle.py:65-81 | the per-column counts and the per-row report (count times rows) both add up to the frame's missing cells |
| Prune.Absent | wrangle.py:86 | the requested labels the frame lacks, and only those |
| Prune.RemoveColumns | wrangle.py:84-87 | fails naming exactly the absent labels when some requested label is absent; otherwise keeps exactly the columns at the positions whose label was not requested (every copy of a repeated label), in order with their cells, and every row |
| Prune.RemoveColumnsKeepsCells | wrangle.py:86 | with unique labels, each surviving label reads the same cell in every row as before |
| Prune.RemoveDefaultColumns | wrangle.py:84-87 | with the default list, the call succeeds exactly when all seven default labels are present, and then none of them is left |
| Binning.Cut | wrangle.py:106-132 | `pd.cut` with right-closed intervals: a found index's interval holds the value, and a value inside some interval finds that one |
| Binning.CountyBin | wrangle.py:106-108 | fips in (0, 6037] is Los Angeles, (6037, 6059] Orange, (6059, 6111] Ventura, anything else no county |
| Binning.SizeBin | wrangle.py:117-119 | area in (0, 1800], (1800, 4000], (4000, 6000], (6000, 25000] gives the four size bands, anything else none |
| Binning.RoomBin | wrangle.py:125-132 | count in (0, 2], (2, 4], (4, 6], (6, 15] gives the four room bands, anything else none |
| Binning.Boundaries | wrangle.py:106-132 | the edge values themselves: 1800 sq ft is Small, 6037 is Los Angeles, 0 is in no bin, 15 rooms is Extra-Large and 16 in no band |
| Eligibility.Compare | wrangle.py:203 | a comparison on a column fails exactly when the column is absent or holds a non-number |
| Eligibility.SizeStage | wrangle.py:203 | the size mask fails exactly on an absent or non-numeric compared column, and its error is `SizeFault`: the first of `bedroomcnt`, `bathroomcnt`, `unitcnt`, `calculatedfinishedsquarefeet` that is absent (`MissingColumns`) or holds a non-number (`NotNumeric`), in the order the comparisons are written; otherwise keeps, in order, every copy of each row meeting the four size conditions and no other row |
| Eligibility.SingleFamilyHomes | wrangle.py:192-205 | fails exactly when a named column is absent or a land-use-kept row holds a non-number in a compared column, and its error is `SingleFamilyFault`: `MissingColumns([propertylandusetypeid])` first, then the first compared column, in the order written, that is absent or holds a non-number on a land-use-kept row; otherwise keeps, in order with every column, every copy of each row meeting all five conditions and no other row |
| Eligibility.SingleFamilyCount | wrangle.py:198-203 | the land-use mask followed by the size mask keeps each row as often as one mask by all five conditions would |
| Eligibility.ComparableIff | wrangle.py:199-203 | the compared columns of the land-use-kept rows are numeric exactly when every single-use row is comparable |
| Eligibility.NumericIff | wrangle.py:199-203 | after the land-use mask, a compared column holds only numbers or missing cells exactly when every row the mask kept does in the original frame |
| Eligibility.SingleFamilyFaultIsSizeFault | wrangle.py:199-203 | the error the size mask raises on the land-use-kept rows is the error stated on the whole frame by `SingleFamilyFault` |
| Eligibility.SingleFamilyIdempotent | wrangle.py:192-205 | filtering an already filtered frame returns it unchanged |
| Prep.BinCell | wrangle.py:106 | a binned cell is present only for a present number inside an interval, and is then that interval's code |
| Prep.BinColumn | wrangle.py:106-108 | `pd.cut(df.<name>)` fails exactly when the column is absent or non-numeric; otherwise bins each row's cell |
| Prep.SumColumns | wrangle.py:122 | the room total fails on an absent or non-numeric count column, in the order evaluated; otherwise a row's total is present exactly when both counts are, and is their sum |
| Prep.CodeCounty | wrangle.py:106-114 | fails exactly on an absent or non-numeric `fips`; otherwise the labels are the frame's, then `county_code_bin` unless already present, then the Orange and Ventura indicators at the end; the county cell is the bin of the fips cell, the indicators flag it when the frame lacked them, and every other cell is as it was |
| Prep.Derive | wrangle.py:117-132 | fails exactly on an absent or non-numeric area or count column, with the error of the first one evaluated; otherwise appends `home_sizes`, `total_rooms`, `bedroom_bins` and `bathroom_bins` in that order (each unless already present), computed from each row, leaving every other cell as it was |
| Prep.PreparedColumnsAppend | wrangle.py:106-130 | on a frame without any of the assigned labels, the returned labels are the frame's followed by the seven new ones in the order assigned |
| Prep.Prepare | wrangle.py:106-134 | fails exactly with the first fault among the four columns read; otherwise the labels are the county stage's then the second stage's appended to the frame's, and every returned row is complete, with its county, size and room bands naming the categories of its values and its room total their sum |
| Prep.Prep | wrangle.py:101-135 | `data_prep` on a frame value: fails exactly with the first fault of the reduced frame; otherwise its labels are the reduced frame's with the seven assigned labels appended as `Prepare` states, and every returned row is prepared |
| Prep.PrepareFlagsCounty | wrangle.py:111-114 | on a frame without indicator-named columns, every returned row's indicators flag exactly its county: Orange for Orange, Ventura for Ventura, neither for Los Angeles |
| Prep.PrepFlagsCounty | wrangle.py:101-135 | the same for `data_prep` itself |
| Prep.PrepareRows | wrangle.py:106-133 | the `n`-th returned row extends the row of the given frame at the `n`-th surviving position; the surviving positions ascend, each holds a binnable row, and there is one returned row per position; with unique labels and no indicator-named column, the surviving positions are exactly the binnable rows' |
| Prep.PrepRows | wrangle.py:101-135 | `data_prep` returns one row per binnable row of the reduced frame, in order: the `n`-th returned row extends the `n`-th binnable row with its kept cells. A binnable row has every cell under a label the pipeline does not assign present, and a fips, an area and two room counts inside their bins |
| Prep.CallerAfter | wrangle.py:103-108 | what the caller's frame holds afterwards: the reduction, plus `county_code_bin` when binning `fips` succeeded |
| Prep.DeriveInPlace | wrangle.py:117-132 | the four assignments on the concatenated frame fail exactly when `Derive` does, with its error, and otherwise leave the frame equal to `Derive` of its old contents; a failure while binning the area leaves the frame as it was, and one in the room total leaves it with the size band assigned |
| Prep.DataPrep | wrangle.py:101-135 | the method on a mutable frame fails exactly when `Prep` does, with its error; otherwise returns a new frame equal to `Prep`'s result; either way it leaves the caller's frame as `CallerAfter` says |

## Left out

- `get_db_url` and `get_zillow` (wrangle.py:41-61): database access, the SQL query and the CSV cache are I/O.
- The de-duplication in `get_zillow` (wrangle.py:58), which keeps the first row for each `parcelid`, is a table rule. It is left out only because it runs inside the loader, on the query's result.
- `split` (wrangle.py:213-221): it is scikit-learn's seeded random `train_test_split`, whose shuffle is not visible here.
- `summary_info` and the `print(df.shape)` in `data_prep`: output only.
- The commented-out older `data_prep` (wrangle.py:154-190) is a string literal, not code.
- `imports.py` is not part of this model, and neither is anything else in the repository.
- Floating point: numbers are exact reals. Rounding `prop * len` and the bin comparisons are therefore exact, where pandas works on IEEE doubles.
- Category labels (`'Small: 0 - 1799sqft'` and the rest) are not modelled. A binned cell holds the interval's index, and `Binning` maps that index to the county or band.
- Row index labels, column dtypes and `reset_index` columns are not modelled. A table is labels plus rows of cells.
- Audit.MissingPerColumn: the order among columns with equal missing counts is left open, because pandas' default sort is not stable.
- Audit.MissingPerColumn: with a repeated column label, pandas raises whenever the sort reorders the columns, because `concat(axis=1)` must then reindex a duplicated index; when the order is unchanged it returns the same report as the model. The model returns a report in both cases.
- Exact exception types and messages are not modelled. An absent label is `MissingColumns` and a non-number is `NotNumeric`.
- Prep.SumColumns: a text cell in a count column is an error. Pandas, on an object column, retries the addition on the cells where both values are present: two texts are concatenated, a text next to a missing cell gives a missing total, and only a text next to a number raises. Through `data_prep` this cannot be seen, because binning the same column raises first.
- The county indicators are the numbers 0 and 1. Pandas versions differ in whether `get_dummies` gives integers or booleans.
- Duplicate column labels: a lookup reads the first column with that label. Pandas would return a sub-frame.
- Tables.SetColumn: with a repeated label, the assignment writes only the first column with that label. Pandas writes the values into every copy. Through `Frames.Frame.Assign`, `Prep.CodeCounty` and `Prep.Derive`, a later copy of an assigned label, such as a second `total_rooms`, keeps its old cells, so the final `dropna()` can drop a row that pandas keeps.
- Prep.PrepFlagsCounty: it requires that the input has no columns already named like the indicators. With such columns, `pd.concat` duplicates the label.
- Prep.PrepareFlagsCounty: the same requirement, for the same reason.
- Prep.PrepRows: it requires unique labels and no indicator-named columns, for the same reason.
- Prep.PrepareRows: without unique labels, or with an indicator-named column, it says which positions survive only as those whose row comes out complete, not as the binnable rows.
