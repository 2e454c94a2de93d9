# BRL/EUR exchange-rate forecasting pipeline, modelled in Dafny

This project models the core of a small exchange-rate forecasting pipeline
written in Python with pandas, scikit-learn and FastAPI. It has three parts:

- **Preprocessing** (`preprocess.py`, class `DataPreprocessor`):
  - load the exchange-rate table, index it by date, sort it and drop incomplete rows;
  - derive fifteen features from the close series: differences, lags, rolling means, the rolling median, volatilities, a trend and calendar fields;
  - drop the rows whose windows are not yet full;
  - left-join the macro-economic table and forward-fill then back-fill its columns;
  - prepare the table that is written out, with `interest_rate` removed and the index saved as a `date` column.
- **Forecasting** (`src/forecast.py`, class `Forecasting`):
  - put the preprocessed table on a daily calendar and interpolate the gaps linearly in time;
  - recompute `diff_close`, drop incomplete rows and split chronologically into train and test;
  - standardize six feature columns with parameters fitted on train alone;
  - fit each model of a roster on the training rows and rebuild its price forecast from the predicted differences (a cumulative sum anchored at the last training close);
  - score each forecast on the non-missing pairs;
  - pick the first model with the smallest mean squared error;
  - extend its forecast past the last test day by feeding it the same last test row again and again.
- **Lookup** (`predict.py`, endpoint `predict(date)`): find the first row of the forecast table whose date equals the query, and say which HTTP status each failure ends in.

How the model represents these:

- Dates are integer day numbers, with day 0 = 1970-01-01.
- Prices are `real`; a NaN cell is `None` in an `Option<real>`.
- A DataFrame is a column-major value `Frame`: index name, index, column order, and a map from label to column.
- A regression model is an uninterpreted function value: a learner maps the training features and targets to a predictor, and a predictor maps one feature row to a predicted change.
- Library numerics are parameters: the square root inside the scaler, the rolling median and std, and `pd.to_datetime` on text.
- `Forecasting` is a class whose methods update its fields (`df`, `train`, `test`, `scaler`, `models`, `bestModel`).
- Every step of `DataPreprocessor` is a pure operation from table to table. Its object holds only file paths.

Files and modules:

| file | module | contents |
|---|---|---|
| base.dfy | `Base` | options, results, exceptions, ranges |
| series.dfy | `Series` | column operations: `diff`, `shift`, rolling windows, forward and backward fill |
| calendar.dfy | `Calendar` | civil dates, weekdays, `YYYY-MM-DD` text |
| frames.dfy | `Frames` | frames: selection, slicing, `dropna`, column assignment |
| preprocess.dfy | `Preprocess` | `DataPreprocessor` |
| daily.dfy | `Daily` | `asfreq("D")` and time interpolation |
| scaling.dfy | `Scaling` | `StandardScaler` |
| evaluation.dfy | `Evaluation` | metrics, level reconstruction, model selection, the future progression |
| forecast.dfy | `Forecast` | the `Forecasting` class and its output table |
| lookup.dfy | `Lookup` | `predict(date)` |

Three behaviours of the code that are easy to misread:

- **Training size.** `int(len(df) * 0.8)` is taken from the row count before `diff_close` is added and incomplete rows are dropped (src/forecast.py:38, before lines 41-44).
- **`diff_close`.** It is always recomputed from `close`, even when the preprocessed table already has it (src/forecast.py:41).
- **Errors of `predict(date)`.** The blanket `except` turns every error into a 400, the 404 and the 500 included (see Findings).

## Model

| member | source | states |
|---|---|---|
| Preprocess.DateKey | preprocess.py:22-28 | the index column is `date` when the header has it, otherwise the first column |
| Preprocess.ParseDays | preprocess.py:23-27 | every date cell converts exactly when the whole column converts, and each day is its cell's conversion |
| Preprocess.Indexed | preprocess.py:22-28 | the indexed table has the date column as index, the other columns in header order, and each cell converted |
| Preprocess.SortOrder | preprocess.py:30 | the sort order is a permutation of the row positions that lists the dates in ascending order |
| Preprocess.Insert | preprocess.py:30 | inserting a position into a sorted order keeps it sorted and adds exactly that position |
| Preprocess.InsertDistinct | preprocess.py:30 | inserting a new position keeps the order free of repeats |
| Preprocess.Load | preprocess.py:17-33 | fails without columns or on an unparsable date; otherwise the result is well formed, has no missing cell, is indexed by the date column and is sorted by date |
| Preprocess.LoadKeepsCompleteRows | preprocess.py:30-31 | the loaded table is the parsed table's rows in date order, keeping exactly the complete rows, each once |
| Preprocess.LoadSelects | preprocess.py:30-31 | loading is the selection, in sorted order, of the complete rows |
| Preprocess.KeepCompleteSorted | preprocess.py:30-31 | dropping incomplete rows keeps the date order |
| Preprocess.FeatureColumns | preprocess.py:39-70 | fifteen feature columns, each as long as the close series |
| Preprocess.DifferenceFeatures | preprocess.py:40-63 | at row t: `diff_close = close[t]-close[t-1]`, `momentum_10 = close[t]-close[t-10]`, `lag_k = close[t-k]` for k = 1, 3, 7 |
| Preprocess.MovingAverageFeature | preprocess.py:46-48 | `ma_k[t]` is the mean of `close[t-k+1..t]` for k = 3, 7, 30 |
| Preprocess.TrendFeature | preprocess.py:66 | `trend_5[t]` is the mean of the last 5 closes minus the mean of the last 10 |
| Preprocess.CalendarFeatures | preprocess.py:69-70 | `day_of_week[t]` and `month[t]` are the weekday and month of the row's date |
| Preprocess.MedianFeature | preprocess.py:43 | `rolling_median_10[t]` is the median of the last 10 closes |
| Preprocess.VolatilityFeature | preprocess.py:54-55 | `volatility_k[t]` is the std of the last k day-to-day changes |
| Preprocess.VolatilityRatioFeature | preprocess.py:58 | `volatility_ratio_10[t]` is the std of the last 10 changes divided by `close[t]` |
| Preprocess.VolatilityAt | preprocess.py:54 | the 10-day std of `diff_close` at row t is the std of the ten changes ending at t |
| Preprocess.FeaturesPresent | preprocess.py:40-70 | on a complete close series with no zero close, each feature is present from its own first full window on, and no later than row 30 |
| Preprocess.AddFeatures | preprocess.py:36-75 | without `close` it fails with a KeyError; otherwise the result is the table with the features assigned, minus its incomplete rows |
| Preprocess.AssignColumns | preprocess.py:39-70 | assigning the columns one by one gives the table with every one of them assigned |
| Preprocess.AssignAllData | preprocess.py:39-70 | after assignment each named column holds its values and every other column is unchanged |
| Preprocess.AssignAllKeys | preprocess.py:39-70 | the labels after assignment are the old labels plus the assigned names |
| Preprocess.AssignAllAssigned | preprocess.py:39-70 | each assigned name holds the column assigned to it |
| Preprocess.AssignAllUntouched | preprocess.py:39-70 | columns not assigned keep their values |
| Preprocess.AssignAllColumns | preprocess.py:39-70 | new labels are appended in assignment order after the existing ones |
| Preprocess.AssignedColumn | preprocess.py:39-70 | the j-th assigned name holds the j-th column |
| Preprocess.FeatureColumnOf | preprocess.py:39-70 | in the featured table each feature label holds its feature column |
| Preprocess.AddFeaturesKeepsTail | preprocess.py:40-73 | on a complete table with nonzero closes, `add_features` keeps exactly the rows from position 30 on, in order |
| Preprocess.AssignedKeepsTail | preprocess.py:72-73 | when the last column to fill starts at row s, dropping incomplete rows keeps exactly the rows from s on |
| Preprocess.AssignedRowComplete | preprocess.py:72-73 | a row of the featured table is complete exactly when it lies at or after the latest start |
| Preprocess.FirstShared | preprocess.py:87 | finds a label the two tables share exactly when one exists |
| Preprocess.NoSharedLabel | preprocess.py:87 | when no label is shared, the macro columns are new to the table |
| Preprocess.Join | preprocess.py:87 | the left join keeps every row and column of the table and appends the macro columns |
| Preprocess.JoinMatchesDays | preprocess.py:87 | a joined macro cell is the macro value of the same day, or missing when the macro table has no such day |
| Preprocess.FillAll | preprocess.py:90-92 | filling keeps the index, the column order and the labels |
| Preprocess.FillAllData | preprocess.py:90-92 | each macro column is forward-filled then back-filled; the other columns are unchanged |
| Preprocess.FillAllStep | preprocess.py:90-92 | the fill loop handles one more column per iteration |
| Preprocess.WithMacro | preprocess.py:87-92 | the joined and filled table keeps the index and has the labels of both tables |
| Preprocess.AddMacroData | preprocess.py:77-94 | without a macro file the table is returned unchanged; a shared label fails; otherwise the result is the joined and filled table |
| Preprocess.MacroColumns | preprocess.py:87-92 | the table's own columns are unchanged, and each macro column is the fill of its joined column |
| Preprocess.MacroCellNearest | preprocess.py:89-92 | each macro cell takes the nearest earlier value if there is one, else the nearest later one |
| Preprocess.MacroNoGap | preprocess.py:89-92 | a macro column with a value on some day of the table ends with no gaps |
| Preprocess.Save | preprocess.py:96-112 | `interest_rate` is removed and every other column kept in order; the first header is `date`; dates are written `YYYY-MM-DD`; it fails when the index name is already a column |
| Preprocess.SavedHeaderDistinct | preprocess.py:105-109 | the written header has no repeated label exactly when no column is named `date` |
| Preprocess.SavedDatesReadBack | preprocess.py:112 | every written date reads back as the same day |
| Preprocess.RangeCovered | preprocess.py:30 | n distinct positions below n cover every position |
| Preprocess.PigeonHole | preprocess.py:30 | distinct positions below m are at most m |
| Preprocess.DayColumn | preprocess.py:69-70 | a calendar column holds the function's value on each row's date |
| Preprocess.Fresh | preprocess.py:39-70 | the new labels are exactly the assigned names not already present |
| Preprocess.SortOrderCovers | preprocess.py:30 | the sort order lists every row position |
| Preprocess.KeptPositions | preprocess.py:30-31 | the kept positions are distinct and are exactly the complete rows |
| Preprocess.FeatureNamesDistinct | preprocess.py:39-70 | the fifteen feature labels are distinct |
| Preprocess.CloseComplete | preprocess.py:40 | in a table without missing cells the close column is complete |
| Series.Values | preprocess.py:40-66 | the values of a complete column, cell by cell |
| Series.Lift | src/forecast.py:88 | a sequence of values as a complete column, cell by cell |
| Series.SumConcat | src/forecast.py:70-71 | the sum of a concatenation is the sum of its parts |
| Series.SumBounds | preprocess.py:46-48 | a sum of k values between lo and hi lies between k·lo and k·hi |
| Series.Window | preprocess.py:43-66 | a window of k cells ending at row i exists exactly when it lies in the column and has no missing cell, and it holds those cells |
| Series.WindowIsSpan | preprocess.py:43-66 | a full window is the span of the column it covers |
| Series.SpanAt | preprocess.py:43-66 | the j-th value of a span is the column's cell at that offset |
| Series.RollingMeanAt | preprocess.py:46-48 | the rolling mean at row i is the sum of the last k values divided by k |
| Series.RollingAt | preprocess.py:43-55 | a rolling aggregate at row i is the aggregate of the last k values |
| Series.RollingMeanWithinWindow | preprocess.py:46-48 | the rolling mean is present exactly from row k-1 on, and it lies between the window's bounds |
| Series.RollingMeanSlides | preprocess.py:46-48 | from one row to the next the rolling mean changes by (entering - leaving)/k |
| Series.WindowSumSlides | preprocess.py:46-48 | sliding the window by one row changes its sum by the entering value minus the leaving one |
| Series.MeanDifferenceAt | preprocess.py:66 | a difference of two rolling means is the difference of the window averages |
| Series.Changes | preprocess.py:54-55 | the day-to-day changes over a range, one per row |
| Series.SpanOfDiff | preprocess.py:54-55 | a span of `diff(1)` is the list of day-to-day changes |
| Series.DiffWindowIsChanges | preprocess.py:54-55 | a window of `diff(1)` holds the day-to-day changes it covers |
| Series.RatioAt | preprocess.py:58 | the ratio at a row is the quotient of the two cells |
| Series.DiffIsMinusLag | preprocess.py:51-63 | `diff(k)` is the column minus its `shift(k)` |
| Series.DiffPresentFrom | preprocess.py:40-51 | `diff(k)` of a column present from row a is present from row a+k |
| Series.ShiftPresentFrom | preprocess.py:61-63 | `shift(k)` of a column present from row a is present from row a+k |
| Series.RollingPresentFrom | preprocess.py:43-55 | a k-window aggregate of a column present from row a is present from row a+k-1 |
| Series.RollingMeanPresentFrom | preprocess.py:46-48 | a k-window mean of a column present from row a is present from row a+k-1 |
| Series.DifferencePresentFrom | preprocess.py:66 | a difference is present from the later of its operands' starts |
| Series.RatioPresentFrom | preprocess.py:58 | a ratio by a complete nonzero column is present where the numerator is |
| Series.LastPresent | preprocess.py:91 | the nearest present cell at or before row i, or none when every earlier cell is missing |
| Series.NextPresent | preprocess.py:92 | the nearest present cell at or after row i, or none when every later cell is missing |
| Series.ForwardFillAt | preprocess.py:91 | forward fill gives each cell the nearest present value at or before it |
| Series.BackwardFillAt | preprocess.py:92 | back fill gives each cell the nearest present value at or after it |
| Series.FillNearest | preprocess.py:91-92 | forward then back fill gives the nearest earlier value, else the nearest later one |
| Series.FillLeavesNoGap | preprocess.py:91-92 | a column with any value has no gap after both fills |
| Series.LastPresentPrefix | preprocess.py:91 | the nearest earlier value does not depend on later cells |
| Series.NextPresentSuffix | preprocess.py:92 | the nearest later value in a column is the one in its tail, shifted by one |
| Series.LastPresentIs | preprocess.py:91 | a present cell with only gaps after it up to row i is the nearest earlier value at i |
| Series.NextPresentIs | preprocess.py:92 | a present cell with only gaps before it back to row i is the nearest later value at i |
| Series.NextPresentNone | preprocess.py:92 | with only gaps from row i on, there is no later value |
| Calendar.DaysBeforeMonthStep | preprocess.py:69-70 | the days before month m+1 are the days before m plus m's length; a year's months add up to the year |
| Calendar.YearStartStep | preprocess.py:69-70 | a year starts one year-length after the previous one |
| Calendar.YearForwardSound | preprocess.py:69-70 | counting years forward from a day keeps the day number |
| Calendar.YearBackwardSound | preprocess.py:69-70 | counting years backward from a day keeps the day number |
| Calendar.MonthOfSound | preprocess.py:69-70 | finding the month keeps the day of the year |
| Calendar.ToDate | preprocess.py:69-70 | every day number has a valid civil date |
| Calendar.DayNumberOfDate | preprocess.py:69-70 | converting a day to its date and back gives the day |
| Calendar.DateOfDayNumber | preprocess.py:69-70 | converting a valid date to its day and back gives the date |
| Calendar.YearStartGrows | preprocess.py:69-70 | later years start after earlier years end |
| Calendar.DayNumberInjective | preprocess.py:69-70 | distinct valid dates have distinct day numbers |
| Calendar.DayOfWeek | preprocess.py:69 | the weekday is between 0 (Monday) and 6, and 1970-01-01 is a Thursday |
| Calendar.DayOfWeekAdvances | preprocess.py:69 | the weekday advances by one each day and repeats every seven days |
| Calendar.MonthOfDay | preprocess.py:70 | the month is between 1 and 12 |
| Calendar.Digits | predict.py:27 | decimal text of a number is a non-empty run of digits |
| Calendar.DigitValue | predict.py:27 | a digit character stands for its value |
| Calendar.DigitsValue | predict.py:27 | the text of a number reads back as the number |
| Calendar.DigitsWidth | predict.py:27 | a number below 10^w is written in exactly w digits |
| Calendar.DigitsRoundTrip | predict.py:27 | digits read back as the number, with the padded width |
| Calendar.ValueOfRoundTrip | predict.py:27 | a run of digits read as a number and written back at the same width is the original text |
| Calendar.LastDigit | predict.py:27 | appending a digit is undone by division and remainder by 10 |
| Calendar.CharOfDigit | predict.py:27 | a digit character is the digit of its value |
| Calendar.FormatIsoShape | predict.py:27 | a date of a four-digit year is written as `DDDD-DD-DD` |
| Calendar.FormatIsoParts | predict.py:27 | the year, month and day fields of the text are the zero-padded numbers |
| Calendar.ParseFormatted | predict.py:27 | a written date parses back to the same day |
| Calendar.FormatParsed | predict.py:27 | a `YYYY-MM-DD` text that parses is written back as itself |
| Base.Range | src/forecast.py:31 | the consecutive days from lo to hi |
| Base.RangeSnoc | src/forecast.py:31 | a range is the range one shorter plus its last day |
| Frames.RowAt | src/forecast.py:140 | a row holds every column's cell at that position |
| Frames.Pick | preprocess.py:30-31 | picking positions of a column gives the cells at those positions |
| Frames.Select | preprocess.py:30-31 | selecting rows keeps every column and takes the chosen rows' cells and dates |
| Frames.Slice | src/forecast.py:46 | `iloc[lo:hi]` keeps every column and takes rows lo to hi |
| Frames.Append | src/forecast.py:46 | concatenating two tables with the same columns concatenates the index and each column |
| Frames.SliceAppend | src/forecast.py:46 | the head and the tail of a split, concatenated, are the table |
| Frames.CompleteRows | preprocess.py:31 | the complete rows below n, in order, each once |
| Frames.DropNa | preprocess.py:31 | `dropna` leaves no missing cell, keeps the columns and never adds rows; a date order is kept |
| Frames.RangeLength | preprocess.py:31 | increasing positions below n are at most n |
| Frames.DropNaKeepsTail | preprocess.py:73 | when exactly the rows from a on are complete, `dropna` is the slice from a |
| Frames.SelectRange | src/forecast.py:46 | selecting a range of rows is slicing |
| Frames.CompleteRowsTail | preprocess.py:73 | when exactly the rows from a on are complete, the complete rows below n are a to n |
| Frames.CompleteRowsTailStep | preprocess.py:73 | one more row keeps that description |
| Frames.Lookup | preprocess.py:87 | the value of the first row dated d, or missing when no row is |
| Frames.WithColumn | preprocess.py:40-70 | assigning a column replaces or appends that label and leaves the index alone |
| Frames.Without | preprocess.py:100-102 | removing a label keeps the other labels, in order |
| Frames.DropColumn | preprocess.py:100-102 | dropping a column removes that label and its data only |
| Frames.KeepComplete | preprocess.py:31 | keeps only positions of complete rows |
| Frames.KeepCompleteMembers | preprocess.py:31 | the kept positions are exactly the given positions whose rows are complete; no repeat is introduced |
| Frames.DropNaSelect | preprocess.py:30-31 | dropping incomplete rows after a selection is selecting the complete ones |
| Frames.SelectCompose | preprocess.py:30-31 | a selection of a selection is one selection |
| Frames.CompleteRowsSelect | preprocess.py:30-31 | the complete rows of a selection correspond to the kept positions |
| Frames.CompleteRowsSelectStep | preprocess.py:30-31 | that correspondence extends by one position |
| Frames.KeepCompleteStep | preprocess.py:31 | keeping complete rows goes one position at a time |
| Daily.Earliest | src/forecast.py:31 | the first date of the index |
| Daily.Latest | src/forecast.py:134 | the last date of the index |
| Daily.AsFreq | src/forecast.py:31 | `asfreq("D")` fails on repeated dates; otherwise the index is every day from the first to the last date, with the columns kept |
| Daily.AsFreqKeepsRows | src/forecast.py:31 | each original row keeps its values at its own day |
| Daily.AsFreqFillsGapsWithMissing | src/forecast.py:31 | an inserted day has missing cells |
| Daily.Interpolate | src/forecast.py:32 | interpolation keeps the column's length |
| Daily.InterpolateFills | src/forecast.py:32 | present cells are kept; a cell is present afterwards exactly when some cell at or before it was |
| Daily.LineBetween | src/forecast.py:32 | a point on the line between two values lies between them |
| Daily.FractionWithinUnit | src/forecast.py:32 | the elapsed fraction of a gap lies in [0, 1] |
| Daily.ScaledWithin | src/forecast.py:32 | a difference scaled by such a fraction stays between 0 and the difference |
| Daily.InterpolateBetween | src/forecast.py:32 | a gap cell is the value on the line between its neighbours, at its elapsed days, and lies between them |
| Daily.InterpolateLinear | src/forecast.py:32 | inside a gap, consecutive values differ in proportion to the days between them |
| Daily.InterpolateTrailing | src/forecast.py:32 | cells after the last value repeat it |
| Daily.InterpolateFrame | src/forecast.py:32 | every column of the table is interpolated on its dates |
| Daily.RangeIncreasing | src/forecast.py:31 | consecutive days increase strictly |
| Daily.LoadDaily | src/forecast.py:26-34 | loading fails on repeated dates; otherwise the index is every day from the first to the last date, in order |
| Daily.LoadDailyKeepsValues | src/forecast.py:31-32 | each value at an original date is kept at that day |
| Forecast.TrainSize | src/forecast.py:38 | the training size is the floor of 4n/5 |
| Forecast.Cleaned | src/forecast.py:41-44 | the cleaned table has `diff_close` and `close`, no missing cell, and keeps the date order |
| Forecast.Partition | src/forecast.py:46-49 | splitting fails exactly when train or test would be empty; otherwise it is the first k rows and the rest |
| Forecast.PartitionRejoins | src/forecast.py:46 | train followed by test is the cleaned table, with k training rows |
| Forecast.PartitionInside | src/forecast.py:46 | a split inside the table succeeds, and train is the first k rows |
| Forecast.ChangedRowsComplete | src/forecast.py:41-44 | after adding `diff_close` to a complete table only the first row is incomplete |
| Forecast.ChangedRowComplete | src/forecast.py:41-44 | a row is complete after adding `diff_close` exactly when it is not the first |
| Forecast.CleanedOfComplete | src/forecast.py:41-44 | cleaning a complete table drops exactly its first row |
| Forecast.CleanedIndex | src/forecast.py:41-44 | the cleaned index is the original without its first day |
| Forecast.CleanedChanges | src/forecast.py:41-44 | `diff_close` of the cleaned table is `close[t+1] - close[t]` |
| Forecast.CleanedColumn | src/forecast.py:41-44 | the cleaned `diff_close` is `diff(1)` without its first cell |
| Forecast.ChangesAfterFirst | src/forecast.py:41 | `diff(1)` after its first cell is the sequence of day-to-day changes |
| Forecast.SplitOfCompleteTable | src/forecast.py:36-51 | a complete table of n ≥ 6 rows splits into floor(4n/5) training rows and n-1-floor(4n/5) test rows |
| Forecast.Inputs | src/forecast.py:79-80 | the model inputs are the rows without `diff_close` |
| Forecast.ColumnComplete | src/forecast.py:88 | a column of a table without missing cells is complete |
| Forecast.Predicted | src/forecast.py:85 | one prediction per row, the model applied to that row |
| Forecast.TestForecast | src/forecast.py:88 | one forecast level per test row |
| Forecast.TestForecastSteps | src/forecast.py:88 | the first level is the last training close plus the first predicted change; each next level adds the next predicted change |
| Forecast.Score | src/forecast.py:90 | scoring a fitted model on the test rows always yields metrics |
| Forecast.ScoreExact | src/forecast.py:90 | both errors are non-negative; MAE is zero exactly when the forecast equals every test close; an exact forecast has zero MSE |
| Forecast.MeanSquaredErrors | src/forecast.py:123 | one MSE per result |
| Forecast.Scores | src/forecast.py:107-108 | one result per model |
| Forecast.Forecasts | src/forecast.py:107-108 | one forecast per model |
| Forecast.Errors | src/forecast.py:123 | the k-th entry is the k-th model's MSE |
| Forecast.ScoresStep | src/forecast.py:107-108 | results grow by the next model's score, in roster order |
| Forecast.ForecastsStep | src/forecast.py:107-108 | forecasts grow by the next model's forecast, in roster order |
| Forecast.TrainedKeys | src/forecast.py:107-109 | `self.models` holds exactly the roster's names |
| Forecast.TrainedAt | src/forecast.py:107-109 | each name maps to its model fitted on the training rows |
| Forecast.TrainedStep | src/forecast.py:107-109 | each iteration stores one more fitted model under its name |
| Forecast.RosterDistinct | src/forecast.py:98-105 | the six roster names are distinct |
| Forecast.TestRows | src/forecast.py:127-131 | test row i holds the test date, its actual close and its forecast |
| Forecast.FutureRows | src/forecast.py:134-146 | future row k is dated k+1 days after the last test day, with no actual and the k-th future value |
| Forecast.Dates | src/forecast.py:149 | the dates of the rows |
| Forecast.OutputDatesIncrease | src/forecast.py:127-149 | the dates of the output table increase strictly |
| Forecast.Best | src/forecast.py:123 | the chosen model is one of the roster |
| Forecast.LastInput | src/forecast.py:140 | the frozen input is the last test row without `diff_close` |
| Forecast.OutputTable | src/forecast.py:127-149 | the output table has `len(test) + future_days` rows |
| Forecast.FutureAfter | src/forecast.py:134-146 | past the test rows, row j is future row j minus the test length |
| Forecast.OutputTableDatesIncrease | src/forecast.py:127-149 | the output dates increase strictly |
| Forecast.OutputTableTestRows | src/forecast.py:127-131 | the first `len(test)` rows are the test rows with their actual closes and forecasts |
| Forecast.OutputTableFutureRows | src/forecast.py:134-146 | the k-th future row is dated k+1 days after the last test day and holds the last close plus (k+1) predicted changes |
| Forecast.Forecasting.Start | src/forecast.py:19-24 | the object starts with the loaded table, empty parts, an unfitted scaler and no models |
| Forecast.SplitStep | src/forecast.py:36-51 | `split_data` leaves a well-formed table; its parts are well formed with the same columns, and ready for the models when the dates increase |
| Forecast.ScaleStep | src/forecast.py:53-63 | `scale_data` keeps parts that are ready for the models ready |
| Forecast.Initialized | src/forecast.py:21-24 | after `split_data`, the assignment and `scale_data` on a table with increasing dates, a success leaves parts ready for the models |
| Forecast.SplitReady | src/forecast.py:38-46 | both parts of a split of a table with increasing dates have rows, the same columns, `close` and `diff_close`, no missing cell, and increasing test dates |
| Forecast.ScaledReady | src/forecast.py:53-63 | scaling parts that are ready for the models keeps them ready |
| Forecast.SliceKeepsReady | src/forecast.py:46 | `iloc[lo:hi]` of a table without missing cells and with increasing dates keeps both |
| Scaling.ScaledComplete | src/forecast.py:60-61 | scaling complete tables with parameters fitted on a non-empty train part leaves no missing cell |
| Forecast.Forecasting.SplitData | src/forecast.py:36-51 | `df` and the returned parts become `SplitStep` of the old table: without `close` nothing changes and it fails; otherwise `df` is the cleaned table, cut at the training size counted before cleaning |
| Forecast.Forecasting.ScaleData | src/forecast.py:53-63 | train, test, scaler and the outcome become `ScaleStep` of the old fields: a missing feature column fails and changes nothing; otherwise the scaled parts and the parameters fitted on train |
| Forecast.Forecasting.Init | src/forecast.py:21-24 | `df`, train, test, scaler and the outcome are `Initialized` of the old fields (split, parts assigned, then scaled; the first failure ends it), and a success leaves the object `Valid`, ready for the model methods |
| Forecast.Forecasting.RunModel | src/forecast.py:77-90 | the model is fitted on the training rows; the forecast is its reconstructed levels; the metrics are its score |
| Forecast.Forecasting.CompareModels | src/forecast.py:92-116 | `self.models` maps each name to its fitted model; results and forecasts are per model, in roster order |
| Forecast.Forecasting.BestModelForecast | src/forecast.py:119-155 | the models are stored, the best is the first with the smallest MSE, and the table is that model's output table |
| Forecast.FutureValues | src/forecast.py:137-143 | the loop's values are the arithmetic progression from the last close by the single predicted change |
| Scaling.Present | src/forecast.py:60 | the non-missing values of a column, none exactly when all are missing |
| Scaling.Deviations | src/forecast.py:60 | squared deviations are non-negative |
| Scaling.Variance | src/forecast.py:60 | the variance is non-negative |
| Scaling.Fit | src/forecast.py:60 | the fitted mean is the mean of the present values; the scale is the root of the variance, or 1 for a constant column |
| Scaling.Standardize | src/forecast.py:60-61 | standardizing keeps the length and exactly the present cells |
| Scaling.Restore | src/forecast.py:60-61 | restoring keeps the length and exactly the present cells |
| Scaling.UnscaledScaled | src/forecast.py:60-61 | un-scaling a scaled value gives it back |
| Scaling.ScaledUnscaled | src/forecast.py:60-61 | scaling an un-scaled value gives it back |
| Scaling.RestoreStandardized | src/forecast.py:60-61 | restoring a standardized column gives it back |
| Scaling.StandardizeRestored | src/forecast.py:60-61 | standardizing a restored column gives it back |
| Scaling.Centred | src/forecast.py:60 | centring keeps the length |
| Scaling.SumShifted | src/forecast.py:60 | subtracting m from every value lowers the sum by n·m |
| Scaling.SumDivided | src/forecast.py:60 | dividing every value by a scale divides the sum |
| Scaling.SumCentred | src/forecast.py:60 | the sum of centred values is (sum - n·m)/scale |
| Scaling.CentredMeanZero | src/forecast.py:60 | values centred on their own mean have mean zero |
| Scaling.StandardizedValues | src/forecast.py:60 | a complete column standardizes to its centred values |
| Scaling.StandardizedMeanZero | src/forecast.py:60 | a complete training column standardized with its own fit has mean zero |
| Scaling.FirstMissing | src/forecast.py:60 | finds the first feature that is not a column, exactly when one exists |
| Scaling.FitFeatures | src/forecast.py:60 | the parameters cover exactly the six features, each fitted on the training column |
| Scaling.Apply | src/forecast.py:60-61 | transforming keeps the index, the columns and the labels |
| Scaling.ScaleFeatures | src/forecast.py:55-61 | fails exactly when a feature column is missing from train, naming it |
| Scaling.ScaleFeaturesColumns | src/forecast.py:55-61 | only the six features change; train and test are standardized with parameters fitted on train alone; `close`, `diff_close` and the rest are untouched |
| Scaling.ScaledTrainCentred | src/forecast.py:60 | each scaled training feature has mean zero |
| Scaling.ScaledFeaturesRestore | src/forecast.py:60-61 | the scaled train and test features restore to the originals with the same parameters |
| Evaluation.Pairs | src/forecast.py:67-68 | the kept pairs are no more than the positions |
| Evaluation.PairsMembers | src/forecast.py:67-68 | a pair is kept exactly when both values at some position are present |
| Evaluation.PairsOfComplete | src/forecast.py:67-68 | on complete columns every position is kept, in order |
| Evaluation.PairsConcat | src/forecast.py:67-68 | masking a concatenation is concatenating the masked parts, so order is kept |
| Evaluation.SquaredErrors | src/forecast.py:70 | squared errors are non-negative and zero on equal pairs |
| Evaluation.AbsoluteErrors | src/forecast.py:71 | absolute errors are non-negative and zero exactly on equal pairs |
| Evaluation.SumOfNonNegative | src/forecast.py:70-71 | a sum of non-negative values is non-negative, and zero exactly when every value is |
| Evaluation.MeanOfNonNegative | src/forecast.py:70-71 | a mean of non-negative values is non-negative |
| Evaluation.NonNegativeQuotient | src/forecast.py:70-71 | a non-negative total over a positive count is non-negative |
| Evaluation.Evaluate | src/forecast.py:65-75 | fails exactly when no pair survives the mask; otherwise MSE ≥ 0 and MAE ≥ 0 |
| Evaluation.ExactExactlyWhenErrorless | src/forecast.py:70-71 | MAE is zero exactly when every kept pair is equal; then MSE is zero too |
| Evaluation.SquaredErrorsZero | src/forecast.py:70 | equal pairs give zero MSE |
| Evaluation.AbsoluteErrorsZero | src/forecast.py:71 | MAE is zero exactly when the pairs are equal |
| Evaluation.MeanZero | src/forecast.py:70-71 | a mean of non-negative values is zero exactly when all are zero |
| Evaluation.Reconstruct | src/forecast.py:88 | one level per predicted change |
| Evaluation.Differences | src/forecast.py:88 | one change per level |
| Evaluation.ReconstructSteps | src/forecast.py:88 | level 0 is anchor + d[0]; level i is level i-1 + d[i] |
| Evaluation.DifferencesOfReconstruct | src/forecast.py:88 | differencing the reconstructed levels gives the changes back |
| Evaluation.ReconstructOfDifferences | src/forecast.py:88 | reconstructing the differences of levels gives the levels back |
| Evaluation.Telescopes | src/forecast.py:88 | any sequence that follows the cumulative-sum steps is the reconstruction |
| Evaluation.ReconstructExample | src/forecast.py:88 | anchor 100 and changes [1, -0.5, 2] give [101, 100.5, 102.5] |
| Evaluation.FirstBest | src/forecast.py:123 | the chosen index has the smallest score, and every earlier index has a larger one |
| Evaluation.FirstBestUnique | src/forecast.py:123 | an index with those two properties is the chosen one |
| Evaluation.Progression | src/forecast.py:139-143 | the progression has n values |
| Evaluation.ProgressionStep | src/forecast.py:139-143 | each further value is the previous plus the step |
| Evaluation.SumConstant | src/forecast.py:139-143 | n copies of d sum to n·d |
| Evaluation.ProgressionIsReconstruct | src/forecast.py:139-143 | the future values are the reconstruction of a constant change from the last close |
| Lookup.FirstMatch | predict.py:25-26 | a found position lies in the table |
| Lookup.FirstMatchFinds | predict.py:25-26 | no match exactly when no row has the day; a match has the day and no earlier row does |
| Lookup.Attempt | predict.py:16-29 | a found answer needs a parsed date and a read table, and carries the date written `YYYY-MM-DD` |
| Lookup.Predict | predict.py:13-32 | a found answer carries the queried day written `YYYY-MM-DD` |
| Lookup.PredictIntended | predict.py:28-29 | with distinct statuses, a 400 comes only from an unparsable query or an unreadable file |
| Lookup.IntendedStatuses | predict.py:17-29 | the intended endpoint finds the forecast exactly when a row has the day, gives 500 exactly for a missing file, 404 exactly for an absent day, and 400 exactly for unreadable input |
| Lookup.PredictFound | predict.py:25-27 | with a parsed date and a matching row, the first match's forecast is returned under the formatted date |
| Lookup.PredictExactOnly | predict.py:25 | a forecast is returned only for a day some row has exactly |
| Lookup.PredictFailsAs400 | predict.py:31-32 | every failure reaches the caller as a 400 with the "Invalid date format" prefix |
| Lookup.AbsentDateBecomes400 | predict.py:28-32 | an absent day gets 400 where the intended endpoint gives 404 |
| Lookup.MissingFileBecomes400 | predict.py:19-32 | a missing file gets 400 where the intended endpoint gives 500 |
| Lookup.AbsentDateExample | predict.py:28-32 | 2030-01-01 asked of a table without rows: 400 as written, 404 as intended |
| Lookup.PredictFoldsIntended | predict.py:16-32 | the endpoint as written is the intended one with every non-400 error folded into a 400 |
| Lookup.PredictEchoesIsoQuery | predict.py:27 | a `YYYY-MM-DD` query that is found is echoed exactly |
| Lookup.PredictIncreasing | predict.py:25-26 | in a table with increasing dates, asking for row p's date returns row p's forecast |
| Lookup.FutureDayRow | predict.py:25-26 | in a written forecast table, the row for the k-th future day is that day's future row |
| Lookup.PredictFutureDay | predict.py:25-27 | asking the written table for the k-th future day returns the last test close plus k+1 predicted changes |

## Left out

- Reading and writing files is left out: CSV parsing, `to_csv`, `os.path.exists` and `os.makedirs`. Each file is given as what reading it produces (`Csv`, `Option<Frame>`, `ForecastFile`), and the written table is a `Written` value.
- Printing, the plots and `print_next_day_forecast` are output only and are not modelled. So are `DataPreprocessor.run` and the `home()` endpoint.
- Model fitting and prediction by scikit-learn, XGBoost and LightGBM are foreign code. Each model is an uninterpreted learner, and the roster is given to `CompareModels` as names and learners. `model_comparison.csv` and the `results_df` table are not modelled.
- Floating point is not modelled. Prices are reals, so rounding, NaN propagation inside arithmetic and `inf` do not arise.
- The square root in `StandardScaler` and in the rolling std, and the rolling median, are parameters (`root`, `std`, `median`). The scaler's only assumption is that the root of a positive variance is positive.
- `Series.Ratio`: division by a zero close gives a missing cell, where pandas gives `inf`, which `dropna` keeps. `AddFeaturesKeepsTail` therefore requires nonzero closes.
- `Preprocess.AddMacroData`: requires distinct macro dates. With repeated dates the left join would duplicate rows, and that is not modelled.
- `Preprocess.Load`: the text-to-date and text-to-number conversions are parameters. An unparsable date, `NaT` included, is a failure.
- The time of day is not modelled: a date is a whole day.
- `Forecast.TrainSize`: uses floor(4n/5). `int(n * 0.8)` gives the same for every row count a table can realistically have.
- `Evaluation.SquaredErrors`: states that equal pairs give zero squared error, not the converse. So `Evaluation.ExactExactlyWhenErrorless` proves the zero-error iff for MAE, and only the forward direction for MSE.
- `Evaluation.Evaluate`: R² is computed as scikit-learn does: absent for fewer than two pairs, and 1 or 0 when the actual values are constant. No property of it is proved.
- `Forecast.Forecasting.CompareModels`: results and forecasts are sequences in roster order, not dictionaries keyed by name. The names themselves are the keys of `models`.
- `__init__` is `Forecasting.Start` (with `LoadDaily` giving the loaded table) followed by `Forecasting.Init`. `Init` requires increasing dates, which `LoadDaily` guarantees.
- `Preprocess.SortOrder`: rows with the same date are kept in their file order. pandas' default `sort_index()` does not promise any order for ties, so the model fixes one order the code leaves open.
- pandas' copy-on-write and view semantics are not modelled: every in-place update changes the table it is applied to, as in pandas 2.x. So `self.train.loc[...] = ...` on a slice updates train alone, and `df[col].fillna(method=..., inplace=True)` (preprocess.py:91-92) fills the column of `df`. Under copy-on-write (pandas 3) that chained call would leave `df` unchanged, and `method=` no longer exists there.

## Findings

| source | as written | input that shows it | evidently intended | confidence | as-written member | corrected member |
|---|---|---|---|---|---|---|
| predict.py:28-32 | the `except Exception` around the whole body also catches the `HTTPException`s raised for an absent date (404) and a missing forecast file (500), and re-raises them as 400 "Invalid date format. Use YYYY-MM-DD. Error: 404: Prediction for this date is not available." | a well-formed date such as `2030-01-01` that no row of the forecast file has | 404 for an absent date and 500 for a missing file, with 400 only for a date that does not parse | not executed | Lookup.Predict | Lookup.PredictIntended |
