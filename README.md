# Traffic-fatality aggregation: a Dafny model

This project models the two row-aggregation routines of the traffic-fatality analysis
helpers in `analysis.py`. The rest of the repository loads files and draws charts.

- **Time-of-day bucketing** (`group_by_time`, module `TimeBuckets`). A table of crash
  records is an array of rows. Each row holds its `HOUR` and its entry in the
  `category` column. `GroupByTime` runs over the eight slot start hours 0, 3, ..., 21.
  For each one it writes that slot's label, in place, into every row whose hour lies in
  [hour, hour + 3). It then returns the count of each label, as pandas' `value_counts`
  does: missing entries are skipped and only labels that occur are reported.
  `LabelTable` states the labelling and `Tally` states the counting. The lemmas cover:
  the partition of [0, 24) into eight half-open slots, boundary hours going to the later
  slot, which labels are reported, counts of at least one, and counts that add up to the
  number of rows whose hour lies in [0, 24).
- **Category-total extraction** (`values`, module `CategoryTotals`). `Values` walks the
  rows (`Vehicle Type`, `Person Type`, `Occupants Killed`) in order. It records the
  number killed under the vehicle type in two cases: a subtotal row of any vehicle type
  but `Total`, or the `Total` row of `Motorcyclists` or `Nonoccupants`. `TotalsOf` is the
  same walk as a function. Its lemmas state what the dictionary holds: exactly the
  recorded vehicle types, each with the value of its last recorded row (last write wins),
  never the key `Total`. They also state that a skipped row changes nothing, wherever it
  stands in the table.

The number of occupants killed is only copied, never computed with, so it is a type
parameter `V`. A `category` entry that was never written (pandas' NaN) is `None`.

## Model

| member | source | states |
|---|---|---|
| TimeBuckets.SlotIndex | analysis.py:243-244 | an hour is in some slot exactly when 0 <= hour < 24; that slot contains the hour, and no other slot does (the eight half-open intervals are disjoint and cover [0, 24)) |
| TimeBuckets.BoundaryHourGoesToLaterSlot | analysis.py:243-244 | hour 3k gets the label of slot k and hour 3k - 1 that of slot k - 1: an edge hour goes to the later slot |
| TimeBuckets.LabelTable | analysis.py:243-244 | labelling keeps the number of rows |
| TimeBuckets.LabelTableRows | analysis.py:241-244 | after labelling, every hour is unchanged; a row with 0 <= HOUR < 24 has category `time_slots[HOUR / 3]`; any other row is exactly as before |
| TimeBuckets.Tally | analysis.py:245 | every count reported by `value_counts` is at least 1 |
| TimeBuckets.TallyCountsOccurrences | analysis.py:245 | a label is reported exactly when it occurs in the `category` column, and its count is its number of occurrences there (missing entries are never counted) |
| TimeBuckets.TallyKeysAreSlotLabels | analysis.py:241-245 | with a new `category` column, every reported label is one of the eight in `time_slots` |
| TimeBuckets.TallyReportsOccupiedSlots | analysis.py:241-245 | with a new `category` column, slot k's label is reported exactly when some row's hour lies in slot k; empty slots are absent |
| TimeBuckets.EightLabelsAtMost | analysis.py:236-245 | at most eight labels are reported, and exactly eight if and only if every slot holds a row (the doctest's `len(...) == 8`) |
| TimeBuckets.SlotCountIsReported | analysis.py:236-245 | with a new `category` column, the count reported for slot k's label (zero when absent) is the number of rows with 3k <= HOUR < 3k + 3 (the general form of the doctest's count for `'9pm - 11:59pm'`) |
| TimeBuckets.LabelTableIdempotent | analysis.py:243-245 | labelling an already labelled table changes nothing, so a second call on the same table leaves it as it is and reports the same counts |
| TimeBuckets.EightDistinctLabels | analysis.py:241-242 | the eight slot labels are pairwise different |
| TimeBuckets.CountsSumToInRangeRows | analysis.py:243-245 | with a new `category` column, the counts over the eight labels add up to the number of rows with 0 <= HOUR < 24 |
| TimeBuckets.AppendedRowCounts | analysis.py:243-245 | one more row with an in-range hour adds one to its slot's count; a row with any other hour (such as the code 99) changes no count |
| TimeBuckets.GroupByTime | analysis.py:224-246 | the table is relabelled in place (in-range rows get their slot's label, other rows are untouched) and the result is `value_counts` of the new `category` column |
| CategoryTotals.TotalsOf | analysis.py:121-130 | `Total` is never a key of the dictionary |
| CategoryTotals.TotalsOfLastWriteWins | analysis.py:122-127 | the keys are exactly the vehicle types of recorded rows, and each maps to the `Occupants Killed` of the last recorded row of that type |
| CategoryTotals.EveryKeyHasALastRow | analysis.py:122-127 | every key's value comes from a recorded row of that vehicle type that no later recorded row overwrites |
| CategoryTotals.SkippedRowChangesNothing | analysis.py:128-129 | a row meeting neither condition, wherever it stands, leaves the dictionary unchanged |
| CategoryTotals.Values | analysis.py:101-130 | the loop builds the dictionary of the recorded rows: keys exactly the recorded vehicle types, values from the last recorded row of each type |

## Left out

- `read_file` and `read_file_excel` (analysis.py:8-62) read files from disk through pandas, with an encoding retry. They are I/O and are not modelled.
- `bar_line_chart`, `plot_line`, `plotpie`, `percent_change_plot`, `chloropleth` and `group_by_plot_bar` only draw figures through matplotlib, plotly and geopandas. They are not modelled.
- `states_shape_merge` reads a shapefile and calls a geopandas merge. Both are foreign calls and are not modelled.
- The doctest fixtures (1384 rows in `'9pm - 11:59pm'`, 5 keys and `'Passenger Car'` mapping to 12491.0) come from data files that are not part of this model. The general properties behind them are stated instead: `SlotCountIsReported` for a slot's count, `EightLabelsAtMost` for the number of keys, `TotalsOfLastWriteWins` for a vehicle type's value.
- `HOUR` is an integer. A NaN or fractional hour in the data is not modelled.
- `Occupants Killed` is an opaque value `V`. Floating point and NaN in that column are not modelled.
- Only the `HOUR` and `category` columns of a row are modelled. The table's other columns are not written by `group_by_time`.
- The lemmas about reported labels and counts assume the `category` column is new, as in the doctest. If the caller's table already had a `category` column, rows outside [0, 24) keep their old entry, and `value_counts` counts it. `GroupByTime` and `TallyCountsOccurrences` cover that case only for string entries: `category` holds an optional string, so a non-string entry left in an older column, such as a number, is not modelled.
- GroupByTime: on a table with no rows and no `category` column, pandas refuses the first masked write of a scalar into a new column and raises `ValueError`; the model has no error path there and returns an empty map.
- The ordering of the result of `value_counts` (by descending count) and of the dictionary's insertion order are not modelled. A Dafny `map` has no order.
