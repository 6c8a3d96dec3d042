# Synthetic operational-metrics table, modelled in Dafny

`generate_synthetic_data.py` builds a table of telemetry for one host
(`app-01`) and one service (`payments-api`). It has one row every 5 minutes
for five 365-day years (525,600 rows). It fills CPU, memory, disk and
error-rate columns from random draws. It then edits the table in place:

- it overwrites CPU and memory on rows 100..143 with a sustained spike;
- it flags a change deployment in the 30 minutes before the spike;
- it labels the five rows 96..100 as "incident open in the next 2 h";
- it marks row 100 as the "P1" incident.

Finally it selects the eleven columns in a fixed order and writes a CSV file.

The model has two modules.

- `Series` (`series.dfy`) holds the column-level meaning of each step as
  functions on sequences. These are the timestamp grid, numpy's `clip`, the
  positional and label-slice assignments pandas performs, the change-window
  comparison, the label columns and the column order. It also holds the
  lemmas that state the table's properties: exact rows and exact counts
  (6 change rows, 5 label rows, 1 P1 row), bounds, and the final column
  permutation.
- `SyntheticData` (`metrics_table.dfy`) is the table the script mutates.
  `MetricsTable` is a class with one array per data column. The arrays are
  `const`, so no step can change the row count. A `columns` field lists the
  columns that exist so far, in frame order. Each step of the script is
  a method. Its `modifies` clause names the only columns it may touch, and
  its `ensures` gives the new contents as a `Series` function of the inputs
  and the old contents. The script has no loops: each vectorised assignment
  is a `forall` statement over the rows it writes. `Generate` runs the whole
  script.

Modelling decisions:

- Timestamps are integer minutes: row `i` is `start + 5*i`.
- The row count `n` is a parameter. The script's own count is
  `ScriptRowCount`. Smaller counts behave as pandas does:
  - `df.index[100:144]` clamps to the rows that exist;
  - reading the spike's first row fails with an `IndexError` when
    `n <= 100`, and `ok == false` models that failure;
  - a label slice `.loc[a:b]` includes both ends and selects only labels
    that exist.
- Random draws are inputs: the normal draws for CPU and memory, the two
  columns of the uniform spike matrix, the disk ramp plus noise and the
  rounded error rates.
- Floats are modelled as `real`.

Where the comments and the code disagree, the model follows the code:

- Line 6 says "one-day", but line 7 builds five years.
- Line 21 says "2-hour", but the spike is 44 rows (220 minutes).
- The column `change_deployed_prev_1h` covers 30 minutes, not an hour.
- The "next 2h" label covers the 20 minutes up to and including the spike's
  first row.

The code also has no explicit guard for a spike that starts in the first
four rows. The label slice needs none, because pandas clamps it.
`LabelSliceSet` models that clamping.

## Model

| member | source | states |
|---|---|---|
| `Series.TimestampsEvenlySpaced` | generate_synthetic_data.py:7 | the timestamp column has exactly n rows, starts at `start` and each row is exactly 5 minutes after the previous one |
| `Series.TimestampsStrictlyIncreasing` | generate_synthetic_data.py:7 | a later row always has a strictly later timestamp (no duplicates, no reordering) |
| `Series.TimestampRow` | generate_synthetic_data.py:7 | inverse of the column: an instant occurs iff it lies on the 5-minute grid within the n rows, and then it is row (t - start) / 5 |
| `Series.ScriptRowCountHoldsSpike` | generate_synthetic_data.py:7 | the script's 288*365*5 = 525600 rows contain the whole 44-row spike window |
| `Series.Clip` | generate_synthetic_data.py:16-17 | np.clip, min(max(x, lo), hi): the result never exceeds hi; when lo <= hi it is at least lo, equals x when x is in range, lo when x is below and hi when x is above; when lo > hi it is hi |
| `Series.ClipAll` | generate_synthetic_data.py:16-17 | element-wise clip keeps the length, puts every row in [lo, hi] and leaves rows already in range unchanged |
| `Series.Overwrite` | generate_synthetic_data.py:23 | assigning a block of values to a row window replaces exactly those rows, in order, and keeps every other row and the length |
| `Series.SpikeRowCount` | generate_synthetic_data.py:22 | the slice df.index[100:144] of an n-row table ends within the table, has 44 rows when n >= 144, and is empty exactly when n <= 100 |
| `Series.SpikedColumnRows` | generate_synthetic_data.py:16-23 | with n >= 144, rows 100..143 of cpu/mem hold the 44 spike draws in order and every other row keeps its clipped baseline value |
| `Series.SpikedColumnBounds` | generate_synthetic_data.py:16-23 | when the spike draws lie in [90, 97], every spike row lies in [90, 97] and every row of cpu lies in [5, 98] and of mem in [10, 98] |
| `Series.ChangeFlagRows` | generate_synthetic_data.py:26-28 | on the 5-minute grid, the timestamp comparison "30 minutes before row k, up to but excluding it" flags exactly rows k-6 .. k-1 with 1 and all other rows with 0 |
| `Series.ChangeFlagCount` | generate_synthetic_data.py:26-28 | with the spike at row 100, exactly the 6 rows 94..99 carry the change flag and the other n - 6 rows are 0 |
| `Series.NoHolidays` | generate_synthetic_data.py:31 | the broadcast 0 leaves no holiday row: 0 on all n rows, 1 on none |
| `Series.LabelSliceSet` | generate_synthetic_data.py:37 | a .loc label-slice assignment sets exactly the existing rows lo..hi, both ends included, and keeps every other row and the length |
| `Series.IncidentLabelRows` | generate_synthetic_data.py:36-37 | incident_open_in_next_2h is 1 exactly on the 5 contiguous rows 96..100 ending at the spike's first row, and 0 on the other n - 5 |
| `Series.PriorityRows` | generate_synthetic_data.py:38-39 | p1_or_p2_next_incident is "P1" on exactly one row, the spike's first (row 100), and "None" on the other n - 1 |
| `Series.SelectPermutation` | generate_synthetic_data.py:42-46 | when the frame's labels are distinct, df[wanted] succeeds whenever `wanted` is a reordering of the existing columns, and the selected frame keeps every column exactly as often as before |
| `Series.InsertionOrderValue` | generate_synthetic_data.py:8-39 | the assignments leave the columns in insertion order, with change_deployed_prev_1h added before is_holiday |
| `Series.InsertionOrderDistinct` | generate_synthetic_data.py:8-39 | the frame the assignments build carries no column label twice |
| `Series.FinalColumnsDistinct` | generate_synthetic_data.py:42-46 | the final selection names 11 columns, none twice |
| `Series.NamesDistinct` | generate_synthetic_data.py:42-46 | two columns have the same header name only if they are the same column |
| `Series.FinalColumnOrder` | generate_synthetic_data.py:42-46 | the final order differs from the insertion order only by moving is_holiday ahead of change_deployed_prev_1h |
| `Series.FinalSelectionKeepsAll` | generate_synthetic_data.py:42-46 | the final selection succeeds and is a permutation of the columns the script created, so no column is lost or added |
| `SyntheticData.MetricsTable.constructor` | generate_synthetic_data.py:7-12 | a table of n rows with the 5-minute timestamp grid, the two identifier constants and the three initial columns |
| `SyntheticData.MetricsTable.AddBaseline` | generate_synthetic_data.py:16-19 | cpu and mem become their draws clipped to [5, 98] and [10, 98], disk and error rate the given values, and the four columns are appended in that order |
| `SyntheticData.MetricsTable.InjectSpike` | generate_synthetic_data.py:22-23 | cpu and mem are overwritten on the spike rows with the two draw columns and nothing else changes (only cpu and mem may be modified) |
| `SyntheticData.MetricsTable.AddChangeFlag` | generate_synthetic_data.py:26-28 | the flag column becomes the 30-minute comparison against the spike's first timestamp; when the table has no row 100 the step fails and changes nothing |
| `SyntheticData.MetricsTable.AddHolidayFlag` | generate_synthetic_data.py:31 | is_holiday becomes 0 on every row and is appended |
| `SyntheticData.MetricsTable.LabelIncidentWindow` | generate_synthetic_data.py:36-37 | the label column is created as zeros and, when row 100 exists, set to 1 on the inclusive label slice 96..100; otherwise the step fails leaving the zero column |
| `SyntheticData.MetricsTable.LabelPriority` | generate_synthetic_data.py:38-39 | the priority column is "None" everywhere and, when row 100 exists, "P1" on row 100; otherwise the step fails |
| `SyntheticData.MetricsTable.SelectColumnsInPlace` | generate_synthetic_data.py:42-46 | on a frame with distinct labels, the column list becomes the requested one iff every requested column exists (KeyError otherwise); no data column changes |
| `SyntheticData.MetricsTable.SelectFinalColumns` | generate_synthetic_data.py:42-46 | applied to the frame the assignments build, the final selection cannot raise and leaves the columns in the final order |
| `SyntheticData.MetricsTable.DeriveFlagsAndLabels` | generate_synthetic_data.py:26-46 | after the baseline, the flag, holiday and label columns take their specified contents and the columns end in the final order; the step fails exactly when row 100 is missing, and then no column and no column list changes |
| `SyntheticData.Generate` | generate_synthetic_data.py:7-46 | the whole script: n rows, the timestamp grid, clipped-then-spiked cpu/mem, the change, holiday and label columns and the final column order, and failure exactly when n <= 100 |

## Left out

- Random sampling and seeding (`np.random.seed`, `normal`, `uniform`, `exponential`, lines 15-23): the draws are inputs. Determinism for a fixed seed is therefore not stated.
- `disk_used_pct` (line 18): the `np.linspace` ramp plus noise is float arithmetic, so its values are an input.
- `error_rate` (line 19): the `np.round(..., 3)` of the exponential draws is float arithmetic, so its values are an input.
- Floating point: `real` stands for float64. NaN, rounding and infinities are not modelled.
- Series.SpikedColumnBounds: takes the spike draws as lying in the closed interval [90, 97]. numpy documents `uniform` as half-open [90, 97), but also says that floating-point rounding may produce the high limit. For float64 draws the closed bound is therefore the one that holds, and the model does not state the half-open one.
- Calendar semantics of `pd.date_range` and `timedelta` (lines 3, 7, 26): timestamps are integer minutes from an arbitrary origin.
- The CSV export to a fixed absolute path (lines 49-50) is file I/O. The commented-out display calls (lines 4, 53) are not modelled either.
- `df[[...]]` (line 42) builds a new frame. The model updates the column list of the same table in place, because nothing else holds the old frame.
- Series.SelectPermutation: takes the frame's column labels to be distinct. With a repeated label pandas returns every column carrying it, which is not modelled. Every frame the script builds has distinct labels (`Series.InsertionOrderDistinct`).
- SyntheticData.MetricsTable.SelectColumnsInPlace: requires the frame's column labels to be distinct, for the same reason. `SelectFinalColumns` establishes that for the script's own frame.
- pandas' enlargement is not modelled. The script's fixed step order never triggers it: `.loc` would create missing columns or rows. The methods are specified for the order the script uses.
