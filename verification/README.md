# nordpool-predict-fi: the rolling window and the forecast freeze, in Dafny

This project models the data-handling core of the daily prediction run of
nordpool-predict-fi. The run loads the previous table of hourly rows and
rounds the clock up to the next full hour. It extends the hour index 120
hours ahead, refreshes the nuclear power column (ENTSO-E override, then a
fall-back to the previous snapshot) and merges in the day-ahead spot prices
fetched from Nord Pool. It then derives the calendar features, selects the
complete rows for training, and writes the model's predictions into every
row after tomorrow's first hour. The rows up to and including that cutoff
row keep their earlier prediction, so each day's forecast is frozen once
the day arrives.

A table is a sequence of rows. Each row has a timestamp (microseconds since
the Unix epoch, UTC) and a map from column names to optional cells; `None`
stands for pandas' NaN. After `reset_index` a row's label is its position,
and the model uses positions wherever the source uses labels. Values are an
opaque type `V`. Parsing, the clock, the feature adapters and the
prediction model are parameters.

Modules, in pipeline order:

- `Frame`: tables, rows, well-formedness, and the column operations pandas provides (`drop`, column assignment, lookup by timestamp).
- `Window`: the hour rounding, the 120-hour forward index, the sorted union, and `reindex` (`Reindex`, `RowAt`).
- `Nuclear`: the ENTSO-E override loop and the row-by-row NaN fall-back.
- `Nordpool`: the URL builder, the flattening of the API payload, and the sorted price table.
- `Coalesce`: `clean_up_df_after_merge`.
- `Spot`: the left merge of `update_spot` and its clean-up.
- `Calendar`: `day_of_week`, `hour` and `month` from a UTC timestamp, via a civil-date conversion.
- `Freeze`: `dropna` and the cutoff write-back.
- `Pipeline`: one daily run as the composition of the stages.

Where the code and its comments or names suggest different behaviour, the
model follows the code:

- The coalesce prefers the existing `_x` value and falls back to `_y`. Its docstring says `_y` is kept.
- The nuclear fall-back looks the snapshot up by row label, not by timestamp. Row `i` of the extended table takes row `i` of the snapshot. `Window.LabelsAlign` gives the condition under which these are the same hour, and `Window.LabelsShift` shows a case where they are not.
- A run with no row at the cutoff hour fails: `row.index[0]` raises, and nothing is written. It does not skip the write-back.
- A fall-back label beyond the end of the snapshot fails, as `tmp.loc[index, ...]` raises `KeyError`.

## Model

| member | source | states |
|---|---|---|
| Window.CeilHour | automation.py:61-62 | the result is hour-aligned, is not before the clock and is less than an hour after it; an already aligned clock is returned unchanged, so rounding twice equals rounding once |
| Window.ForwardIndex | automation.py:68-70 | exactly 120 timestamps, the k-th being now + (k+1) hours, from now+1h to now+120h inclusive, strictly increasing |
| Window.Extend | automation.py:71 | succeeds exactly when the snapshot's timestamps are distinct; the result keeps the columns, its timestamps are strictly increasing and are exactly the old ones together with the forward hours, every old row is carried over unchanged, and every added row is all-missing |
| Window.ExtendIdempotent | automation.py:68-71 | extending an extended table again with the same clock changes nothing |
| Window.ExtendCovered | automation.py:68-71 | a table in time order that already holds every forward hour comes out of the extension unchanged |
| Window.LabelsAlign | automation.py:71-75 | for a snapshot in time order whose missing forward hours all come after its rows, every snapshot row keeps its position in the extended table, so a lookup by label reads the same hour |
| Window.LabelsShift | automation.py:71-75 | when a snapshot's first row is later than its second, the first row of the extended table has a different hour, so a lookup by label reads another hour |
| Nuclear.Override | automation.py:93-95 | each row whose timestamp matches a reading takes the last matching reading's nuclear value, even over a known value; other rows keep theirs; no other column changes; rows and timestamps are kept; no readings leave the table unchanged |
| Nuclear.Fallback | automation.py:97-99 | fails when the nuclear column is missing from a non-empty table, or a missing cell's label is beyond the snapshot or the snapshot lacks the column; on success rows with a known value are untouched, missing cells take the snapshot cell at the same label, and no other column changes |
| Calendar.HourOfDay | automation.py:115 | the hour is in 0..23 and is the whole hours elapsed since the start of the UTC day |
| Calendar.DayOfWeek | automation.py:114 | the day of the week is in 1..7 |
| Calendar.DayOfWeekCycle | automation.py:114 | a day later the day of the week advances by one, Sunday (7) wrapping to Monday (1) |
| Calendar.EpochAnchor | automation.py:114-116 | 1970-01-01 is day 0 of the civil calendar and a Thursday (4 with Monday = 1) |
| Calendar.MonthOf | automation.py:116 | the month is in 1..12 |
| Calendar.CivilRoundTrip | automation.py:116 | converting a day number to a civil date and back gives the same day number, for every day |
| Calendar.LeapDayAnchor | automation.py:116 | day 11016 is 2000-02-29, a leap day of a century year |
| Calendar.AddCalendar | automation.py:113-116 | adds the three calendar columns to every row, each a function of that row's timestamp only; rows, timestamps and every other cell are kept |
| Freeze.TrainingRows | automation.py:132 | every selected row is complete and comes from the table |
| Freeze.CompletePositions | automation.py:132 | the positions listed are in range, strictly increasing, and are exactly those of the complete rows |
| Freeze.TrainingRowsSelect | automation.py:132 | the training set is the complete rows and only them, in table order: its k-th row is the row at the k-th complete position |
| Freeze.SetCell | automation.py:140 | sets one cell, adds the column (missing in every other row) when it is absent, and changes nothing else |
| Freeze.WriteFrom | automation.py:139-140 | every row from the start position on holds its own prediction; every earlier row, and every other column, keeps its cells |
| Freeze.WriteBack | automation.py:130-140 | fails exactly when no row has the cutoff timestamp; otherwise, with k the first such row, the legacy `PricePredict_cpkWh` column is gone, rows after k hold their predictions, rows 0..k keep their earlier prediction, and every other cell and timestamp is kept |
| Freeze.PredictionFrozen | automation.py:137-140 | two write-backs in a row on one table: a prediction the first writes after its cutoff row is still there after the second, for every row up to the second cutoff row |
| Coalesce.CleanUp | util/sahkotin.py:128-156 | the clean-up keeps the table well formed, keeps every row and each row's timestamp |
| Coalesce.CoalesceColumns | util/sahkotin.py:137-154 | a column survives exactly when it was there, does not end in `_x` and is not the `_y` partner of an `_x` column, or when it is the base name of an `_x`/`_y` pair |
| Coalesce.CoalescePrecedence | util/sahkotin.py:143-145 | for a base name with both `_x` and `_y` columns, each cell of the base column is the `_x` value when known, else the `_y` value |
| Coalesce.CoalesceDropsSiblings | util/sahkotin.py:147-154 | every `_x` column is removed, and so is its `_y` partner when there is one |
| Coalesce.CoalesceUnpaired | util/sahkotin.py:143-151 | an `_x` column without a `_y` partner neither creates nor changes its base column |
| Coalesce.CoalescePassThrough | util/sahkotin.py:136-156 | a column that is neither an `_x` column, a `_y` partner nor a rebuilt base keeps every cell |
| Spot.LeftJoin | util/sahkotin.py:177 | refuses a merge whose suffixed price columns would clash with existing ones. Otherwise the joined columns are the table's with the price column added, or split into `_x` and `_y` when it was already there. Table row i, in table order, yields a block of max(1, number of price rows at its timestamp) rows. Each carries row i's timestamp and cells and one matching fetched value, in price order, or a missing value when none matches. Nothing else is produced |
| Spot.LeftJoinUnique | util/sahkotin.py:177 | with unique price timestamps the merge keeps every row in order with its timestamp and cells, and each row's new price is the fetched value at the same timestamp, or missing |
| Spot.DuplicatePricesRepeatRows | util/sahkotin.py:177 | two fetched prices for one hour turn that hour's single row into two rows, carrying the two prices in fetched order |
| Spot.UpdateSpot | util/sahkotin.py:174-184 | an empty price table returns the input unchanged; otherwise the update fails exactly when the suffixed columns would clash, and yields a well-formed table with no fewer rows |
| Spot.UpdateSpotFills | util/sahkotin.py:175-181 | with unique price timestamps and plain column names, rows, order and every other cell are kept; the price cell keeps a known price and otherwise takes the fetched price at its hour |
| Spot.UpdateSpotStamps | util/sahkotin.py:177-179 | the update neither loses nor invents an hour, and with unique price timestamps keeps the timestamp column exactly |
| Nordpool.NordpoolUrl | util/sahkotin.py:12-39 | fails exactly for a market type other than `dayahead` and `regulationmarket`; otherwise the URL starts with the host and market type and ends with the quoted `&startTime=…&endTime=…` query |
| Nordpool.DayaheadPriceUrl | util/sahkotin.py:13-38 | the day-ahead price URL is exactly the host, `dayahead/prices/area?deliveryArea=` and the region, `&currency=EUR`, then the quoted start and end times |
| Nordpool.Flatten | util/sahkotin.py:77-84 | the loop emits one triple per value, as many as all items' values together, equal to the reference flattening |
| Nordpool.FlattenOrder | util/sahkotin.py:78-83 | value j of item i lands at the position counting all values of earlier items plus j: item order, then value order |
| Nordpool.SortByTs | util/sahkotin.py:117 | the result is sorted by timestamp and is a permutation of the input |
| Nordpool.PriceTable | util/sahkotin.py:110-124 | no payload gives the empty table; otherwise the table is the parsed triples, each with its start time and value, sorted by timestamp |
| Pipeline.Prepare | automation.py:67-103 | a snapshot with repeated timestamps fails with duplicate labels; on success the table covers exactly the snapshot's hours and the forward hours, and with unique price timestamps they are strictly increasing |
| Pipeline.Finish | automation.py:112-140 | fails exactly when the cutoff hour is missing. On success timestamps are kept, the calendar columns are present and the legacy prediction column is gone. The result is the calendar-featured table frozen at its first cutoff row k: rows after k hold the prediction made from their own featured row, rows up to k keep their earlier prediction, and every other cell is kept |
| Pipeline.Run | automation.py:57-140 | the whole run: failure on repeated snapshot timestamps; on success a well-formed table covering exactly the old and forward hours, containing the cutoff hour, with the calendar columns and without the legacy column, in strict time order when price timestamps are unique |
| Pipeline.ExtendForecast | automation.py:67-71 | the reindex keeps the forecast of every hour the snapshot had and gives every added hour none |
| Pipeline.OverrideForecasts | automation.py:93-95 | the ENTSO-E override leaves every row's prediction cell and the timestamps alone, and adds no `_x` or `_y` column |
| Pipeline.FallbackForecasts | automation.py:97-99 | the nuclear back-fill leaves every row's prediction cell and the timestamps alone, and adds no `_x` or `_y` column |
| Pipeline.UpdateSpotForecasts | automation.py:103 | with unique price timestamps the price update succeeds on a table without `_x`/`_y` columns, leaves every row's prediction cell and the timestamps alone, and adds no such column |
| Pipeline.FilledForecasts | util/sahkotin.py:175-181 | a price fill that keeps every other cell keeps every row's prediction cell and adds no `_x` or `_y` column |
| Pipeline.CalendarForecasts | automation.py:114-116 | the calendar columns leave every row's prediction cell and the timestamps alone; they end in neither `_x` nor `_y` |
| Pipeline.CalendarPlain | automation.py:114-116 | the calendar columns add no `_x` or `_y` column, so a table without them keeps that shape |
| Pipeline.PrepareForecast | automation.py:67-103 | with adapters that keep forecasts and unique price timestamps, every stage up to the price merge keeps the snapshot's forecast for every hour and adds no `_x` or `_y` column |
| Pipeline.FrozenForecast | automation.py:137-140 | in time order, after the write-back at cutoff row k, an hour up to the cutoff keeps the forecast it had and a later hour holds its own row's prediction |
| Pipeline.FinishForecast | automation.py:112-140 | an hour up to the cutoff keeps its forecast through the calendar and write-back stages; a later hour holds the prediction made from its calendar-featured row |
| Pipeline.RunKeepsSettled | automation.py:19-20 | a whole run leaves the forecast of every hour up to the cutoff exactly as the snapshot had it, and no forecast for such an hour the snapshot lacked |
| Pipeline.RunPlain | automation.py:57-142 | a run's output has no `_x` or `_y` column, so it can be the next run's snapshot |
| Pipeline.ForecastFrozen | automation.py:19-20 | two consecutive runs, day two starting from day one's output: an hour after day one's cutoff and up to day two's holds, after day two, the prediction day one made for it, whatever day two's model predicts |

## Left out

- HTTP token exchange, the GET request, status-code handling and the `raise` of plain strings (util/sahkotin.py:47-90) are network I/O. The payload is an input, `None` when nothing was returned.
- `.env.local` loading, `os.getenv`, `get_mandatory_env_variable` and the FMI station lists (automation.py:25-48, util/sahkotin.py:41-54) are environment I/O.
- The CSV read and write (automation.py:50, 142) and every `print` are file and console I/O.
- `train_model` and `rf_trained.predict` (automation.py:134-136) are an opaque model. The prediction is a per-row function parameter. The selection of feature columns before predicting is not modelled, including the `KeyError` a missing feature column would raise.
- `update_wind_speed`, `update_temperature`, `update_nuclear` and `entso_e_nuclear` (automation.py:79-90) are not part of this model. Their combined effect is the parameter `adapt`, and the ENTSO-E readings are an input sequence.
- Pipeline.Run: assumes the adapters keep the table well formed and its timestamp column unchanged (`KeepsHours`). Nothing else is assumed about them.
- Pipeline.RunKeepsSettled: also assumes the adapters leave the prediction column alone and add no column ending in `_x` or `_y` (`KeepsForecasts`), the snapshot has no such column, and the fetched price timestamps are unique. With repeated price timestamps the merge duplicates rows, so an hour's forecast is then not pinned down.
- Pipeline.ForecastFrozen: the same assumptions as `Pipeline.RunKeepsSettled`, on both days.
- The clock reads are parameters: `now` in automation.py:58, and update_spot's fetch window in util/sahkotin.py:168-172. The naive local midnight and its conversion to UTC (automation.py:120-127) are also replaced by a cutoff parameter, because they depend on the host's time zone.
- `pd.to_datetime`, `pd.to_numeric` and `urllib.parse.quote` are uninterpreted function parameters. A parse failure and its `sys.exit` (util/sahkotin.py:118-120) are not modelled.
- Float arithmetic and `np.isnan` are not modelled. Values are opaque and NaN is `None`.
- The commented-out one-week eviction (automation.py:65) is not live code.
- Nordpool.SortByTs: a stable insertion sort. pandas' default sort is not stable, so rows with equal start times may come out in another order there.
- Spot.LeftJoin: only the shape `update_spot` uses is modelled: the right side is the price table with one value column, `true_spot_price`. When the suffixed name `true_spot_price_x` already exists, pandas refuses the merge. When only `true_spot_price_y` exists, pandas would yield two columns with one name. The model refuses both as a failure.
- Coalesce.CoalesceColumns, CoalescePrecedence, CoalesceDropsSiblings, CoalesceUnpaired and CoalescePassThrough assume no column is an `_x` column whose base also ends in `_x` or `_y` (for example `a_y_x`). For such nested names the result depends on column order. `Coalesce.CleanUp` itself models every order.
- Spot.UpdateSpotFills: assumes unique fetched timestamps and that no column of the input ends in `_x` or `_y`. With repeated timestamps the merge duplicates rows, as `Spot.DuplicatePricesRepeatRows` shows.
- The time-zone conversions of the timestamp column (automation.py:113, 129; util/sahkotin.py:176) are the identity on UTC microseconds.
