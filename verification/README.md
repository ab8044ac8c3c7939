# Police-shootings dashboard: the data pipeline behind the map, in Dafny

The dashboard (`dash_src.py`) draws a choropleth of the United States from a
table of police-shooting incidents. It has a time-range slider and dropdowns
that pick a dimension (race, gender, flee, ...) and a category of it. This
project models the pure data pipeline behind that map and proves properties
of it:

- **Load-time de-duplication** (`Dedup`). Grouping the loaded rows by their
  twelve key columns leaves one row per distinct key, in sorted key order. Its
  `age` is the mean of the known ages of the colliding rows.
- **Slider marks** (`Calendar`, `Labels`, `Marks`). `get_marks` starts at the
  first date and adds one calendar month at a time (`relativedelta`) while the
  date is not after the last date. Each visited date becomes a mark keyed by
  its epoch milliseconds and labelled `YYYY-MM`.
- **Time window** (`TimeFrame`). `get_time_frame` keeps the rows whose date
  lies between the two slider positions, both ends included. The positions are
  cut to whole seconds by `gmtime`.
- **The map table** (`Events`, `Pivot`, `MapUpdate`). The data-shaping half of
  the `update_map` callback:
  - the category options of the selected dimension;
  - the metric column, with its fallback to `Total`;
  - the per-state pivot of counts with a `Total`;
  - in ratio mode, the percentage columns.
  The `age` dimension is not aggregated: the windowed rows pass through.

`Ordering` and `Sequences` supply what pandas does implicitly. `Ordering`
gives the sorted distinct keys of a `groupby` and the lexicographic order on
strings and key tuples. `Sequences` gives the first-appearance order of
`unique()`.

`Scenario` works one example through `update_map`. There are three incidents:
two in California, with a Black and a White victim, and one in Texas, with a
White victim. They are listed in key order, and the example proves that the
load-time grouping gives them back unchanged. So they form a table the
dashboard can hold. The example derives the options, the metric and the
whole per-state table, in count mode and in ratio mode.

Modelling choices:

- Dates are proleptic Gregorian `(year, month, day)` triples at midnight.
  Epoch milliseconds come from the day number, as Python's `toordinal` gives
  it.
- Slider positions are integer milliseconds.
- Category values are strings. The two boolean columns are turned into
  `"True"`/`"False"` when selected, as `astype(str)` does.
- After the load-time `groupby`, no key column holds a missing value. So every
  category of every row is a real string.
- The pivoted table is a sequence of `StateRow`s. Each holds its counts by
  category, its `Total` and its percentages by category as separate fields.
  The percentage of category `v` is the source's column `v%`.

Behaviour of the code worth noting:

- The marks start at the first date itself, on whatever day of the month it
  falls. The day drifts: Jan 31, Feb 29, Mar 29, ... So the number of marks
  is the month span plus one, or the month span when the drifted day
  overshoots the last date (`Marks.WalkCount`, `Marks.DriftMissesLastMonth`).
- The category options come in order of first appearance in the window
  (`unique()`). The window is a subsequence of the load-time table, in its
  key order.
- The `age` dimension computes no mean. The windowed rows pass through with
  missing ages filled in with 0, and the option list is empty.
- Ratio mode adds `v%` columns beside the count columns and keeps the
  counts. The percentages divide by the count-based `Total`.

## Model

| member | source | states |
|---|---|---|
| Calendar.AddMonth | dash_src.py:56 | `+ relativedelta(months=1)` moves to the next month, keeps the day when it fits and clamps it to the month's length otherwise; the result is a valid, strictly later date |
| Calendar.BeforeIsEpochOrder | dash_src.py:38-39 | epoch milliseconds order dates exactly as the calendar does, and distinct dates get distinct instants |
| Calendar.EpochIsDayZero | dash_src.py:35-39 | 1970-01-01 is instant 0, day 719163 of the proleptic calendar |
| Labels.LabelRoundTrip | dash_src.py:57 | a `%Y-%m` label reads back as exactly its date's year and month |
| Labels.LabelIdentifiesMonth | dash_src.py:57 | two dates share a label exactly when they lie in the same month |
| Labels.ParseDigitsOfDigits | dash_src.py:57 | zero-padded decimal writing of a number reads back as the number |
| Marks.GetMarks | dash_src.py:42-60 | the visited dates are exactly those of the month-stepping loop; no marks when start is after end; otherwise the first is the start, one mark per visited date keyed by its instant and labelled with its month, keys strictly increasing |
| Marks.WalkMonths | dash_src.py:52-56 | the `while current <= end` loop visits exactly the dates of the recursive walk: the date itself when not after end, then the walk from one month later |
| Marks.WalkShape | dash_src.py:52-56 | the walk is empty exactly when start is after end; otherwise it starts at start, its i-th date is valid, not after end and in the i-th month after start's, and the step after its last date passes end |
| Marks.WalkSteps | dash_src.py:54-56 | every visited date is `relativedelta(months=1)` after its predecessor |
| Marks.WalkInYears | dash_src.py:52-56 | every visited date lies between start and end |
| Marks.WalkCount | dash_src.py:52-56 | one mark per month of the span, except that the month of end is missed when the drifted day lies after end's day; never missed when start's day is at most end's day |
| Marks.KeysIncrease | dash_src.py:57 | dates in later months get strictly larger keys |
| Marks.LabelsDistinct | dash_src.py:57-60 | marks in distinct months never share a label |
| Marks.DriftMissesLastMonth | dash_src.py:52-56 | from 2020-01-31 to 2020-03-15 the loop visits Jan 31 and Feb 29 only: March gets no mark |
| TimeFrame.WholeSecond | dash_src.py:72-73 | `gmtime(ms / 1000.0)` keeps the whole second at or before the position |
| TimeFrame.GetTimeFrame | dash_src.py:63-74 | a row is kept iff its date lies in the window, and each kept row occurs as often as in the input, unchanged |
| TimeFrame.InFrameBounds | dash_src.py:71-74 | in milliseconds, a date is kept iff its instant is at most the end and less than one second before the start |
| TimeFrame.TimeFrameDistributes | dash_src.py:74 | filtering a concatenation filters each part in place, so the rows keep their order |
| TimeFrame.TimeFrameIdempotent | dash_src.py:71-74 | the window of a window is itself |
| TimeFrame.TimeFrameExtremes | dash_src.py:71-74 | a window covering every date keeps all rows; a window whose end is a second or more before its start keeps none |
| Events.ColumnNamesRoundTrip | dash_src.py:98-100 | each dropdown dimension is read back from its column name |
| Events.KeyLessIsStrictTotalOrder | dash_src.py:82-85 | the lexicographic order on the twelve key columns is a strict total order |
| Ordering.StrLessIsStrictTotalOrder | dash_src.py:262-263 | Python's string comparison is a strict total order |
| Ordering.SortedSet | dash_src.py:262-263 | the group keys: strictly sorted, with exactly the elements of the input |
| Ordering.SortedUnique | dash_src.py:262-263 | two strictly sorted sequences with the same elements are equal |
| Sequences.Unique | dash_src.py:255 | `unique()`: every element exactly once, no duplicates, ordered by first occurrence |
| Pivot.Categories | dash_src.py:255 | the categories are the distinct values of the dimension in the window, in order of first appearance |
| Pivot.CountTable | dash_src.py:262-264 | one row per state of the window, states strictly sorted, each row holding its category counts and a `Total` equal to the state's row count, at least 1 |
| Pivot.TotalIsStateCount | dash_src.py:264 | the row-wise sum of a state's category counts is its row count in the window |
| Pivot.StateCountPositive | dash_src.py:264 | a state that occurs in the window has at least one row |
| Pivot.CellAtMostState | dash_src.py:262-267 | a category count never exceeds its state's row count |
| Pivot.PercentBounds | dash_src.py:267 | a count between 0 and the `Total` gives a percentage between 0 and 100 |
| Pivot.RatiosOfCountRow | dash_src.py:264-267 | in a ratio row every percentage is within [0, 100] and together they make 100 |
| MapUpdate.CategoryView | dash_src.py:254-269 | any other dimension: options are the categories then `Total`, one row per window state in sorted order, metric fallback, percentages only in ratio mode with a category selected |
| MapUpdate.UpdateMap | dash_src.py:243-270 | the table is the unaggregated window exactly for `age`, which alone gets no options; for `age`, the rows are the window's with missing ages set to 0 |
| MapUpdate.OptionsAreWindowValues | dash_src.py:251-257 | the options list each distinct window value once, in first-appearance order, then `Total`; for `age` they are empty |
| MapUpdate.MetricFallsBack | dash_src.py:258-268 | the metric is the selected category (with `%` in ratio mode) iff it is not `Total` and occurs in the window; `Total` otherwise; `age` for the age dimension |
| MapUpdate.AgesFilled | dash_src.py:270 | `fillna(0)` in the age view: no age stays missing, known ages are kept, missing ones become 0, and filling again changes nothing |
| MapUpdate.PivotRowPerState | dash_src.py:262-263 | the table has exactly one row per state of the window, in sorted order |
| MapUpdate.PivotCellsAreCounts | dash_src.py:262-264 | each cell is the number of the state's rows in the category (0 when none); `Total` is the row-wise sum, equals the state's row count and is at least 1 |
| MapUpdate.RatiosArePercentages | dash_src.py:265-269 | percentages appear only in ratio mode with a window category selected, then one per category, each `count / Total * 100` within [0, 100], summing to 100 |
| MapUpdate.PercentagesOfCountRow | dash_src.py:266-267 | percentages of a count row are within [0, 100] and sum to 100 when every category has one |
| Scenario.ShootingsAreGrouped | dash_src.py:82-85 | worked example: the three incidents have distinct keys in sorted order, so the load-time grouping returns them unchanged |
| Scenario.WindowKeepsAll | dash_src.py:63-74 | worked example: the slider at its initial range, 2020-01-05 to 2020-02-01 (1578182400000 to 1580515200000 ms), keeps all three incidents, in order |
| Scenario.RaceCategories | dash_src.py:255 | worked example: the race column Black, White, White gives the categories Black then White |
| Scenario.RaceView | dash_src.py:243-270 | worked example, count mode with "Black" selected: options Black, White, Total; metric "Black"; rows CA (Black 1, White 1, Total 2) then TX (Black 0, White 1, Total 1) |
| Scenario.RaceRatioView | dash_src.py:265-269 | worked example, ratio mode: metric "Black%"; CA at 50% White and 50% Black, TX at 100% White and 0% Black |
| Dedup.MeanAge | dash_src.py:83-84 | the mean skips missing ages: missing exactly when no age is known, otherwise times the number of known ages it gives their sum |
| Dedup.Dedup | dash_src.py:82-85 | one row per distinct key of the input, keys strictly sorted, each with the mean age of its group |
| Dedup.DedupKeysDistinct | dash_src.py:82-85 | no two rows of the result share a key |
| Dedup.MeanOfSingleRow | dash_src.py:83-84 | the mean of a one-row group is that row's age |
| Dedup.DedupOfSorted | dash_src.py:82-85 | a table whose keys are already strictly sorted is returned unchanged by the grouping: same rows, same order, each age its own |
| Dedup.DedupIdempotent | dash_src.py:82-85 | de-duplicating a de-duplicated table changes nothing |

## Left out

- `load_csv` (dash_src.py:18-32): reading the file, the empty-file check and `exit(1)` are I/O and process termination. The model starts from the parsed rows.
- Dedup: rows with a missing value in a key column are dropped by pandas' `groupby`. The model's key fields are never missing. Likewise, the `id` and `name` columns the grouping discards are not modelled.
- Floating point: `unix_time_millis` works in float seconds, and the ratio and the load-time `mean()` of ages divide floats. The model uses exact integers and reals, so `Dedup.MeanAge` is an exact quotient and its `mean * count == sum` holds only in the reals.
- TimeFrame.GetTimeFrame: slider positions outside the pandas `Timestamp` range make the program's date comparison fail. The model filters such positions as plain integers. The slider never produces them, because it spans only the first through the last date.
- Time of day: parsed dates are at midnight. Dates are modelled without a time part.
- Dates outside the range of a pandas `Timestamp`: `Marks.GetMarks` requires both dates in the whole years inside that range, 1678 to 2261, so the partial years 1677 (from September 21) and 2262 (to April 11) are not covered.
- Column-name collisions of the flat pandas table: a category literally named `Total` or `state`, or a category `x` beside a category `x%`. The model keeps counts, total and percentages in separate fields.
- `Total` sums only the count columns: pandas of the program's era drops the non-numeric `state` column from `sum(axis=1)`.
- The figure: `px.choropleth`, `range_color` and hover formatting (dash_src.py:274-285) belong to a rendering library. The hover column names are kept.
- The show/hide style dicts (dash_src.py:286-288), the layout and widget definitions (dash_src.py:93-222), the callbacks, `PreventUpdate` and the comparison toggle (dash_src.py:292-344), and server startup are UI and framework glue.
- The slider's mark `style` dicts (dash_src.py:58-59) are presentation only. A mark keeps its key and label.
- The option dicts (dash_src.py:257) are not modelled: their `label` and `value` are the category text itself, because every category is a string.
- `update_map` takes the dimension as a `Column` value. Dropdown names are parsed by `Events.ParseColumn`; a name outside the dropdown is not a case the callback receives.
