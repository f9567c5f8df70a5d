# frcast feature pipeline: time grid and feature alignment

This project models the data layer of `frcast`, a forecaster of day-ahead clearing
prices for GB frequency-response (FR) auctions. The forecaster works on the EFA grid.
EFA blocks are the six 4-hour blocks of a trading day, and the first one opens at
23:00 on the previous calendar day. The model covers these parts:

- **Time windows** (`TimePeriods`): the API query dates, the EFA index and the
  settlement-period window.
- **Frames** (`Frames`): a small model of the pandas frames the code builds. It
  covers column lookup, column selection, row trimming and column-wise
  concatenation. It also has the `Table` class, which stands for a frame filled in
  column by column with `.loc[:, name] = ...`.
- **Preprocessing** (`Preprocessing`): aggregation of half-hourly data into 4-hour
  bins (min, max, mean), the pivot of auction records into one price column per
  product, and the calendar features on the EFA index.
- **The four sources**:
  - FR clearing prices and their lagged copies (`FrPrices`);
  - balancing-reserve (BR) price statistics (`BrPrice`);
  - forecast system margins (`SystemMargins`);
  - the national demand forecast (`SystemDemand`).
- **Feature assembly** (`TrainPredictData`): the training and prediction feature sets.

Time is measured in whole minutes from 0001-01-01 00:00 (proleptic Gregorian, no
time zone). A trading date is a day number, where day 0 is a Monday. `Calendar`
converts day numbers to and from dates and `YYYY-MM-DD` strings. A frame is either
`Blank` (the `pd.DataFrame()` the code uses when it has no data) or `Indexed`. An
indexed frame has a timestamp index, column labels and column-major cells, and a
missing cell (NaN) is `None`.

Each API call is a parameter of the function that uses it. A `Fetch` is either the
fetched records or `Failed`. A pandas exception that reaches the caller is an `Err`
that names the exception (`TypeError`, `KeyError`, `UnboundLocalError`,
`ValueError`, `InvalidIndexError`).

The model states what the code does. Some of it is easy to misread:

- A BR or demand source with no records reaches `aggregate_sp_to_efa` as
  `pd.DataFrame()`. `resample` then raises `TypeError`, so `AggregateSpToEfa`
  returns `Err(TypeError)` rather than an empty frame. A failed BR or demand request
  raises UnboundLocalError before that, in the fetch itself.
- A margins fetch with no records builds a frame without columns, so the column
  selection fails and the fetch gives `pd.DataFrame()`; resampling it raises
  `TypeError`.
- A failed BR fetch leaves the local `br_auctions` unbound, so `FetchBrPrice` returns
  `Err(UnboundLocalError)`.
- The margins are forward-filled only. Nothing back-fills the leading gap, so
  `ResampleMarginsColumns` proves that a gap can only be a leading one.
- `aggregate_br_price` returns a frame indexed by EFA block start, with the six
  `pbr`/`nbr` price statistics as columns. Its docstring
  (frcast/data/br_price.py:73-79) describes a `(date, efa_block)` multi-index with
  `min`/`max`/`mean` columns, which the code does not build.
- A null `date` or `publish_date` in the margins parses to NaT. Such a record fails the
  two-days-ahead filter and is dropped; the other records are kept.

## Model

| member | source | states |
|---|---|---|
| TimePeriods.QueryPeriods | frcast/data/time_periods.py:33-38 | the two query strings parse back to the day before the start date and the day after the end date |
| TimePeriods.QueryPeriodsOf | frcast/data/time_periods.py:34-36 | the query strings are the `YYYY-MM-DD` forms of start − 1 day and end + 1 day |
| TimePeriods.QueryPeriodsExample | frcast/data/time_periods.py:29-31 | the documented example: 2025-06-12..2025-06-13 gives ("2025-06-11", "2025-06-14") |
| TimePeriods.DateRangeMembers | frcast/data/time_periods.py:91 | a date range holds lo + step·k exactly for the k with lo + step·k ≤ hi, and every point lies in [lo, hi] |
| TimePeriods.EfaIndexSpec | frcast/data/time_periods.py:84-93 | the EFA index has six points per trading day; point k opens block k mod 6 + 1 of day start + k div 6; it starts at 23:00 of the previous day and ends at 19:00 of the end day; it is empty when end < start |
| TimePeriods.EfaIndexStep | frcast/data/time_periods.py:91 | consecutive EFA points are 4 hours apart, so the index is strictly increasing |
| TimePeriods.EfaTimesOfDay | frcast/data/time_periods.py:47-60 | every EFA point falls at 23:00, 03:00, 07:00, 11:00, 15:00 or 19:00 |
| TimePeriods.EfaIndexSingleDay | frcast/data/time_periods.py:77-81 | one trading day gives exactly the six openings from 23:00 of the day before to 19:00 |
| TimePeriods.SettlementPeriodsSpec | frcast/data/time_periods.py:133-139 | the settlement window opens at the first EFA point and closes at 22:30, the start of the last half hour of EFA-6; its 48 half hours per day fall eight to an EFA block, in order |
| TimePeriods.QueryCoversSettlement | frcast/data/time_periods.py:33-38 | the settlement window lies inside the query window [start − 1 day, end + 1 day) |
| Calendar.FormatDateRoundTrip | frcast/data/time_periods.py:34-36 | `strftime("%Y-%m-%d")` gives a 10-character string that parses back to the same date |
| Calendar.DayNumberRoundTrip | frcast/data/preprocessing.py:86-95 | the date fields (day, month) read off a timestamp are those of its day number, which converts back without loss |
| Calendar.FromDayNumberInjective | frcast/data/time_periods.py:34-36 | distinct day numbers give distinct dates |
| Frames.Column | frcast/data/fr_prices.py:84 | `frame[name]` succeeds exactly when the column exists, returns the cells of the first column with that label (repeated labels, see Left out), and raises KeyError(name) otherwise |
| Frames.SelectColumns | frcast/data/br_price.py:85 | `frame[names]` succeeds exactly when every name is a column, keeps the rows, and raises KeyError on a missing name |
| Frames.SelectDistinct | frcast/data/system_margins.py:58 | with distinct columns, `frame[names]` has exactly the columns `names` in that order, each with its cells |
| Frames.SelectedFrom | frcast/data/br_price.py:85 | every selected column is one of the requested names and carries the cells of a source column with that label |
| Frames.TrimRows | frcast/data/fr_prices.py:59-60 | the boolean mask keeps exactly the rows whose timestamp lies in [lo, hi] and keeps the columns |
| Frames.TrimRowsSorted | frcast/data/fr_prices.py:59-60 | trimming keeps a sorted index sorted |
| Frames.TrimRowsCells | frcast/data/fr_prices.py:59-60 | each kept row carries all its cells unchanged |
| Frames.Concat | frcast/data/train_predict_data.py:46 | `pd.concat(axis=1)` succeeds when the frames share their rows or each has a unique index (a repeated timestamp otherwise fails, see Left out); the columns are concatenated in order and the rows are the union |
| Frames.RealignSpec | frcast/data/train_predict_data.py:46 | after concatenation a cell holds the frame's value at that timestamp, or NaN when the frame has no such row |
| Frames.AllRowsSame | frcast/data/train_predict_data.py:46 | frames with identical rows concatenate onto those rows |
| Frames.Table.constructor | frcast/data/preprocessing.py:82-84 | `pd.DataFrame(index, columns)` has those rows and columns, every cell empty |
| Frames.Table.Assign | frcast/data/fr_prices.py:90 | `.loc[:, name] = values` replaces or appends column name and changes nothing else |
| Frames.Table.Drop | frcast/data/preprocessing.py:101 | `drop(name, axis=1)` removes that column and its cells only |
| Seqs.KeepFirstSpec | frcast/data/preprocessing.py:63 | `~index.duplicated(keep='first')` leaves distinct keys, and for each key the first record with it |
| Seqs.KeepLastSpec | frcast/data/system_demand.py:35 | `~index.duplicated(keep='last')` leaves distinct keys, and for each key the last record with it |
| Seqs.SortedDistinctSpec | frcast/data/preprocessing.py:64-67 | the unstacked index and product labels are strictly sorted and hold exactly the values present |
| Strings.LStripSpec | frcast/data/system_demand.py:24 | `lstrip('_')` removes exactly the leading run of '_' |
| Strings.IntToStringInjective | frcast/data/fr_prices.py:90 | `str(lag)` is injective on integers |
| Preprocessing.AggregateSpToEfa | frcast/data/preprocessing.py:4-27 | aggregation succeeds exactly on an indexed frame with at least one statistic; a blank frame raises TypeError |
| Preprocessing.AggregateSpToEfaSpec | frcast/data/preprocessing.py:19-22 | the rows are the 4-hour bin starts from the first timestamp; column c·|stats| + s is statistic s of input column c, labelled lower(column + '_' + stat) |
| Preprocessing.BinOfTimestamp | frcast/data/preprocessing.py:20 | with `origin='start'`, each timestamp of the input falls into exactly one bin, number (t − first) div freq |
| Preprocessing.BinsNonEmpty | frcast/data/preprocessing.py:20 | every bin starts at or before some input timestamp |
| Preprocessing.StatMissingIff | frcast/data/preprocessing.py:20 | a bin's statistic is NaN exactly when the bin holds no value |
| Preprocessing.BinStatsOrdered | frcast/data/preprocessing.py:20 | min, mean and max of a bin are all present or all missing, and min ≤ mean ≤ max |
| Preprocessing.ConstantBin | frcast/data/preprocessing.py:20 | a bin whose values all equal v has min, mean and max v |
| Preprocessing.MinMeanMax | frcast/data/preprocessing.py:20 | the mean of a non-empty sample lies between its minimum and maximum |
| Preprocessing.PivotAuctions | frcast/data/preprocessing.py:29-69 | the pivot is blank exactly when the extracted value is neither 'volume' nor 'price' |
| Preprocessing.PivotAuctionsSpec | frcast/data/preprocessing.py:46-68 | index = sorted distinct delivery starts; columns = lower(product + '_' + value) for the sorted distinct products; each cell is the value of the first record for that (start, product), or NaN |
| Preprocessing.KeptCoordinates | frcast/data/preprocessing.py:63 | dropping duplicate (start, product) keys loses no delivery start and no product |
| Preprocessing.TrimmedPricesRows | frcast/data/fr_prices.py:57-60 | the trimmed price frame's index is sorted and holds exactly the delivery starts within [lo, hi] |
| Preprocessing.TrimmedPricesColumns | frcast/data/preprocessing.py:65-68 | its columns are `<product>_price`, lower-cased, one per distinct product in order |
| Preprocessing.TrimmedPricesCells | frcast/data/preprocessing.py:61-64 | each cell is the clearing price of the first record for that (start, product), or NaN |
| Preprocessing.CreateTemporalFeatures | frcast/data/preprocessing.py:71-103 | on the EFA index, succeeds exactly when every feature is known (or the index is empty) and otherwise raises ValueError (the unfilled object column holds NaN); each column holds its calendar value at each row |
| Preprocessing.FillFeatures | frcast/data/preprocessing.py:85-101 | the five conditional fills together leave every requested known feature filled with its calendar column |
| Preprocessing.FillColumn | frcast/data/preprocessing.py:85-95 | one `.loc[:, name] = index.<field>` fill keeps the filled-so-far invariant and adds that feature |
| Preprocessing.FillWorkingDay | frcast/data/preprocessing.py:97-101 | working day is 0 on weekdays 0–4 and 1 otherwise; the helper weekday column is dropped unless requested |
| Preprocessing.CastFilled | frcast/data/preprocessing.py:102 | `astype('int64')` succeeds exactly when no requested column was left unfilled, and yields the feature frame |
| Preprocessing.CalendarColumns | frcast/data/preprocessing.py:86-95 | the hour, day, month and weekday columns are the per-row calendar values |
| Preprocessing.EfaCalendarDay | frcast/data/preprocessing.py:81-95 | point k of the EFA index lies on day start + k div 6 (the previous day for EFA-1), with hour 23 or 4·(k mod 6) − 1, and that day's day, month and weekday |
| Preprocessing.EfaDays | frcast/data/preprocessing.py:81 | every EFA point lies on a day from start − 1 to end |
| Preprocessing.TemporalValueRanges | frcast/data/preprocessing.py:85-99 | hour ∈ 0..23, day ∈ 1..31, month ∈ 1..12, weekday ∈ 0..6, working day = 1 exactly on weekdays 5 and 6; the five names are the only known features |
| FrPrices.CamelToSnakeSpec | frcast/data/fr_prices.py:46 | the normalised name has no capitals, equals the lower-cased original once underscores are ignored, and normalising twice changes nothing |
| FrPrices.NoUpperUnchanged | frcast/data/fr_prices.py:46 | a name without capitals is left unchanged |
| FrPrices.HistoricalFrPrice | frcast/data/fr_prices.py:10-64 | the price frame is blank exactly when the fetch failed or returned no records |
| FrPrices.FrQueryCoversKept | frcast/data/fr_prices.py:27-36 | the query window [from − 1 day, to + 1 day] strictly contains the kept window [from 23:00 previous day, to 19:00] |
| FrPrices.HistoricalFrPriceRows | frcast/data/fr_prices.py:53-60 | on fetched records the rows are sorted and are exactly the delivery starts inside the kept EFA window |
| FrPrices.LagNameInjective | frcast/data/fr_prices.py:90 | `<param>_lag_<lag>` names differ for different (param, lag) |
| FrPrices.ShiftedLookup | frcast/data/fr_prices.py:86-90 | the shifted lookup succeeds exactly when every EFA point minus 4·lag hours is a row, gives the value found there, and raises KeyError otherwise |
| FrPrices.CreateLagShifted | frcast/data/fr_prices.py:66-91 | on the EFA index, the lag frame exists exactly when every lagged lookup into the history from start − 2 days to end + 1 day succeeds; its columns are the distinct lag names in order and each equals its shifted lookup; otherwise KeyError |
| FrPrices.BuildLags | frcast/data/fr_prices.py:83-91 | the loop over parameters and lags builds exactly the lag columns, or stops with KeyError when a parameter or a lagged row is missing |
| FrPrices.AddParam | frcast/data/fr_prices.py:83-90 | one parameter's step either fails with KeyError (so the lags are not all available) or adds all its lag columns while keeping the earlier ones |
| FrPrices.AddLags | frcast/data/fr_prices.py:85-90 | the inner loop over lags stores each lagged lookup under its name, or fails with KeyError on the first unavailable lag |
| FrPrices.TableFrameColumns | frcast/data/fr_prices.py:75-91 | the frame read back from the table holds every lag column as computed, and availability reduces to every parameter being a column |
| FrPrices.AssignKeepsLag | frcast/data/fr_prices.py:90 | assigning one lag column keeps every other stored lag column intact |
| FrPrices.LagWindow | frcast/data/fr_prices.py:76-79 | for lags −6..12 every shifted EFA point lies in the fetched history window |
| FrPrices.LagBeyondWindow | frcast/data/fr_prices.py:76-90 | any lag outside −6..12 always raises KeyError, since its lookups fall outside the history |
| FrPrices.MissingLagPoint | frcast/data/fr_prices.py:90 | one missing shifted row is enough to make the lag lookup fail |
| BrPrice.FetchBrPrice | frcast/data/br_price.py:9-56 | a failed fetch raises UnboundLocalError(br_auctions); otherwise the frame is blank exactly when no records came back, and every row lies in the settlement window |
| BrPrice.FetchBrPriceRows | frcast/data/br_price.py:46-51 | on fetched records the rows are sorted and are exactly the delivery starts from 23:00 of the previous day to 22:30 of the end day |
| BrPrice.AggregateBrPrice | frcast/data/br_price.py:58-86 | a failed fetch raises UnboundLocalError, no records raise TypeError, and a missing feature raises KeyError |
| BrPrice.AggregateBrPriceAvailable | frcast/data/br_price.py:82-85 | on fetched records the BR features exist exactly when both PBR and NBR products occur |
| BrPrice.FeaturesInAggregate | frcast/data/br_price.py:82-85 | all six `pbr`/`nbr` price statistics are columns of the aggregate exactly when both products occur |
| BrPrice.ProductFeatures | frcast/data/br_price.py:82-84 | `<q>_price_min`, `_max` and `_mean` are columns exactly when product q occurs |
| BrPrice.LabelInAggregate | frcast/data/br_price.py:82 | a label `<q>_price_<stat>` is an aggregate column exactly when some record's product lower-cases to q |
| BrPrice.ProductLabel | frcast/data/br_price.py:82 | every record's product gives its three statistic labels |
| BrPrice.LabelProduct | frcast/data/br_price.py:82 | every aggregate label comes from a product that occurs |
| BrPrice.AggregateBrPriceColumns | frcast/data/br_price.py:82-85 | the rows are the 4-hour bin starts, and each selected column is one of the six features, holding that statistic of its product's half-hourly prices |
| SystemMargins.NormaliseNameSpec | frcast/data/system_margins.py:34 | the normalised name has no capitals, spaces or slashes, and starts with '_' only if the original had a slash |
| SystemMargins.NormaliseNameOrder | frcast/data/system_margins.py:34 | the order of steps matters: a slash before a leading underscore keeps that underscore |
| SystemMargins.RequiredNames | frcast/data/system_margins.py:35-37 | the selected columns include date, publish_date and the six margins |
| SystemMargins.PublishedTwoDaysAhead | frcast/data/system_margins.py:38-41 | keeps, in order, exactly the rows whose date is two days after their publish date; a null (NaT) on either side is never kept |
| SystemMargins.NullDateDropped | frcast/data/system_margins.py:38-41 | a null date or publish date drops only its own record and keeps every other qualifying record |
| SystemMargins.FetchMargins | frcast/data/system_margins.py:8-50 | the margins frame is blank on a failed fetch, no records, a missing column or an unparsable date, and otherwise has the six margin columns (`publish_date` is left out, see below) |
| SystemMargins.MarginIndexSpec | frcast/data/system_margins.py:41-44 | the index holds exactly the dates minus one hour of the rows published two days ahead |
| SystemMargins.LabelKept | frcast/data/system_margins.py:41-44 | every row published two days ahead appears at its date minus one hour |
| SystemMargins.LatestAtOrBefore | frcast/data/system_margins.py:54 | finds the latest label at or before a time, when one exists |
| SystemMargins.UpsampleFfill | frcast/data/system_margins.py:54 | upsampling raises TypeError on a blank frame and ValueError on a duplicate label, and keeps the columns |
| SystemMargins.UpsampleFfillSpec | frcast/data/system_margins.py:54 | rows are the 4-hour grid from the first label; each row carries the row of the latest label at or before it |
| SystemMargins.LatestPresent | frcast/data/system_margins.py:57 | the last non-missing cell of a column prefix, missing only when all are missing |
| SystemMargins.ForwardFillInPlace | frcast/data/system_margins.py:57 | `ffill(inplace=True)` on a column leaves exactly its forward-filled form |
| SystemMargins.FilledForwardSpec | frcast/data/system_margins.py:57 | forward fill keeps present cells and leaves a cell missing exactly when nothing before it is present |
| SystemMargins.FilledForwardIdempotent | frcast/data/system_margins.py:57 | forward-filling twice equals forward-filling once |
| SystemMargins.FillFrame | frcast/data/system_margins.py:57 | the frame's forward fill keeps its rows and columns |
| SystemMargins.FillFrameGaps | frcast/data/system_margins.py:57 | after the fill, every missing cell of a column precedes all of its present cells |
| SystemMargins.ResampleMargins | frcast/data/system_margins.py:52-59 | blank margins raise TypeError (a failed fetch and no records included) and duplicate labels raise ValueError; otherwise the result is a frame |
| SystemMargins.ResampleMarginsColumns | frcast/data/system_margins.py:57-58 | the result has exactly the three features, and each has at most a leading gap |
| SystemMargins.ResampleMarginsRows | frcast/data/system_margins.py:54-56 | the rows are exactly the 4-hour grid points inside the settlement window, ascending and without duplicates |
| SystemDemand.NormaliseDemandName | frcast/data/system_demand.py:24 | the normalised name has no capitals and does not start with '_' |
| SystemDemand.NormaliseDemandNameSpec | frcast/data/system_demand.py:24 | normalising is idempotent and maps `_id`, `TARGETDATE`, `CP_ST_TIME` and `FORECASTDEMAND` to their lower-case forms |
| SystemDemand.StartTimeOfDay | frcast/data/system_demand.py:27-32 | an HHMM start time lands hh hours mm minutes into its target date, on that day |
| SystemDemand.Floor30 | frcast/data/system_demand.py:37 | the half-hour slot containing a time starts at or before it, less than 30 minutes earlier |
| SystemDemand.HalfHourGridSpec | frcast/data/system_demand.py:37 | the resampled index is strictly increasing and on half-hour boundaries |
| SystemDemand.HalfHourGridCovers | frcast/data/system_demand.py:37 | every on-boundary forecast time is a grid point |
| SystemDemand.GridValueSpec | frcast/data/system_demand.py:34-37 | each grid value is the last forecast at that time, or missing when none exists |
| SystemDemand.DemandFrame | frcast/data/system_demand.py:34-40 | the demand frame has the single column `forecastdemand` |
| SystemDemand.DemandFrameRows | frcast/data/system_demand.py:34-37 | its index is sorted, on half hours, and holds every on-boundary forecast time |
| SystemDemand.DemandFrameValues | frcast/data/system_demand.py:34-37 | every row holds the last forecast for its time |
| SystemDemand.FetchedDemand | frcast/data/system_demand.py:20-40 | the fetched frame is blank exactly when no records, or records without a start time, came back; rows lie in the settlement window |
| SystemDemand.FetchedDemandRows | frcast/data/system_demand.py:37-39 | the rows are exactly the demand-frame times inside the settlement window, sorted |
| SystemDemand.FetchedDemandValues | frcast/data/system_demand.py:34-39 | each kept row holds the last forecast for its time |
| SystemDemand.FetchDemand | frcast/data/system_demand.py:9-45 | as written: a failed fetch raises UnboundLocalError(demand_forecast) |
| SystemDemand.FailedFetchRaises | frcast/data/system_demand.py:41-45 | the as-written fetch fails on a failed request, while the corrected one returns an empty frame |
| SystemDemand.FetchDemandCorrected | frcast/data/system_demand.py:41-45 | corrected: a failed fetch gives an empty frame, and otherwise it agrees with the as-written fetch |
| SystemDemand.AggregateDemand | frcast/data/system_demand.py:47-50 | as written: a failed fetch raises UnboundLocalError(demand_forecast); otherwise aggregation succeeds exactly when stamped records came back, and raises TypeError when they did not |
| SystemDemand.AggregateDemandCorrected | frcast/data/system_demand.py:41-50 | over the corrected fetch: succeeds on the same inputs, raises only TypeError, and agrees with the as-written aggregation whenever the records were fetched |
| SystemDemand.AggregateDemandColumns | frcast/data/system_demand.py:48-49 | rows are the 4-hour bin starts, with columns `forecastdemand_min/_max/_mean` holding those statistics of the half-hourly demand |
| TrainPredictData.FrEacFloorDate | frcast/data/train_predict_data.py:32-34 | the floor day is 2024-03-13 |
| TrainPredictData.TrainStart | frcast/data/train_predict_data.py:31-34 | the training start is end − 365 days, raised to 2024-03-13 when not later than it |
| TrainPredictData.TrainWindowSpec | frcast/data/train_predict_data.py:31-34 | an unclipped window has 6·366 EFA rows, a clipped one between 6 and 6·366, and an end before the floor gives no rows |
| TrainPredictData.LagSpecColumns | frcast/data/train_predict_data.py:40-41 | the lag specification yields the four columns dcl/drl_price_lag_6/12 |
| TrainPredictData.MarginsPart | frcast/data/train_predict_data.py:36 | the margins part has the three margin features and no repeated timestamp |
| TrainPredictData.DemandPart | frcast/data/train_predict_data.py:37 | the demand part has the three demand features and no repeated timestamp |
| TrainPredictData.BrPart | frcast/data/train_predict_data.py:38 | the BR part's columns are all BR features, and it has no repeated timestamp |
| TrainPredictData.SourceFeatures | frcast/data/train_predict_data.py:36-38 | succeeds exactly when margins, demand and BR each succeed; the parts have their schemas and no repeated timestamps; a failed margins, demand or BR fetch fails |
| TrainPredictData.LagPart | frcast/data/train_predict_data.py:40-41 | the lag part succeeds exactly when the FR history has every lagged price; it is indexed by the EFA index with the four lag columns, and fails when the FR history fetch failed |
| TrainPredictData.TemporalPart | frcast/data/train_predict_data.py:43-44 | the temporal part always succeeds, on the EFA index, with columns month and working day |
| TrainPredictData.ConcatFeatures | frcast/data/train_predict_data.py:46 | the concatenated columns follow the feature schema, every EFA point is a row, and it succeeds whenever no part repeats a timestamp |
| TrainPredictData.ConcatSchema | frcast/data/train_predict_data.py:46 | the schema is margins, demand, BR statistics, lags, then month and working day |
| TrainPredictData.NoMarginsNoFeatures | frcast/data/system_margins.py:32-35 | a margins fetch with no records makes the features unavailable, since its resample raises |
| TrainPredictData.AssembleFeatures | frcast/data/train_predict_data.py:36-46 | assembly succeeds exactly when margins, demand, BR and the lags can each be built; the features then follow the schema and cover the EFA index; any failed source fetch makes assembly fail |
| TrainPredictData.TrainFeaturesTarget | frcast/data/train_predict_data.py:26-49 | succeeds exactly when the window's features can be built and the FR prices have a `dcl_price` column; the training features follow the schema over the clipped window; the target is the DCL price column of the FR prices on that window, within its EFA bounds |
| TrainPredictData.PredictionFeatures | frcast/data/train_predict_data.py:69-87 | succeeds exactly when the prediction day's features can be built; they follow the schema and have a row at each of the day's six EFA openings; a failed source fetch fails |

## Left out

- HTTP requests, JSON decoding and the SQL query text are left out. Each fetch is a parameter: the records, or `Failed`.
- A failure after the records were decoded (for example a missing `clearingPrice` field) is modelled like a transport failure. This is exact for the FR and margins fetches, whose handlers reset the frame. It is not exact for BR: the handler at frcast/data/br_price.py:39-44 leaves `br_auctions` bound to the decoded records, so the source goes on to the pivot. The pivot raises KeyError when `clearingPrice` is missing and succeeds when only `clearedVolume` is missing, where the model gives UnboundLocalError in both cases.
- `print` diagnostics are left out, because they have no effect on the results.
- UTC to Europe/London conversion and the `shift_forward` handling of non-existent local times are left out. Records carry local, time-zone-naive minutes.
- Floating-point prices and demand are modelled as reals. The mean is an exact quotient.
- The `astype('float64')` casts of prices and volumes are left out.
- SystemDemand.FetchedDemand: quadratic interpolation of the resampled demand is not modelled. A half hour with no forecast stays missing.
- SystemDemand.FetchedDemand: when the quadratic interpolation raises (for example a ValueError on fewer than three forecast points), the source returns the de-duplicated frame with all its record columns, untrimmed. The model returns the trimmed one-column frame instead, because it does not model the interpolation or its failure.
- SystemDemand.FetchedDemand: a fetch whose records lack a start time returns, in the source, the partly renamed raw records. The model returns `Blank`, and both make `aggregate_demand` raise TypeError.
- The `targetdate` field is a day number, not a parsed date string.
- Upper-to-lower-case conversion covers ASCII letters only.
- Dates range over years 1 to 9999 (`ValidDay`, with the day before and after in range). pandas' narrower nanosecond Timestamp range (years 1677 to 2262) is not modelled.
- The single-column branch of `aggregate_sp_to_efa` (lines 23-25) is not modelled. It is never reached for a DataFrame input, where `agg` with a list always gives multi-level columns.
- Frames.Concat: a frame with a repeated timestamp is modelled as an error unless every frame has the same rows. pandas reindexes only a frame whose index differs from the union, so some such concatenations succeed there (`[t, t]` with `[t]` gives two rows). The only call, in `ConcatFeatures`, passes frames without repeated timestamps, where both agree.
- Duplicate column labels from the API are not modelled. Record field names are distinct.
- Frames.Column: auction product codes are assumed distinct after lower-casing. Two products that differ only in case (`DCL` and `dcl`) give two columns labelled `dcl_price`. The source's `df['dcl_price']` then returns a two-column frame: the lag builder's `pd.Series(...)` raises ValueError (frcast/data/fr_prices.py:84-88), and the training target becomes a frame rather than a series (frcast/data/train_predict_data.py:48). The model's `Column` takes the first such column, so `CreateLagShifted`, `AssembleFeatures` and `TrainFeaturesTarget` succeed in that case.
- SystemMargins.FetchMargins: in the source, `publish_date` stays a seventh column of the fetched margins until the feature selection at frcast/data/system_margins.py:58. The model drops it already in `MarginRows`. Upsampling and the forward fill treat each column on its own, so no cell of the result depends on it. The `date` column becomes the index, as in the source.
- SystemMargins.MarginRows: a present number in a date column stands for a value `pd.to_datetime` rejects, which empties the frame. pandas would read a number as nanoseconds since 1970; date columns from the API hold strings.
- Training dates are whole days. `pd.Timestamp.now().normalize()` is the `today` parameter.
- Volume extraction (`extracting_value='volume'`) is modelled in `PivotAuctions` but is not used by any caller.
- TrainPredictData.ConcatFeatures: the BR columns are stated only as a subset of the six BR features. Their exact order is not stated.
- BrPrice.AggregateBrPriceColumns: states that each column is one of the six features with its product's statistic. It does not state that all six appear in order.
- `frcast/model/train.py` and `main.py` (model fitting, prediction and saving) are not part of this model.

## Findings

| source | as written | input that shows it | evidently intended | confidence | as-written member | corrected member |
|---|---|---|---|---|---|---|
| frcast/data/system_demand.py:41-45 | the `except` branch assigns `demand_forecasat`, so `demand_forecast` stays unbound and `return demand_forecast` raises UnboundLocalError | a demand request that fails before `demand_forecast` is first assigned (the `requests.get` or `response.json()` call raises) | return an empty frame, as the FR and margins fetches do | high; not executed | SystemDemand.FetchDemand (shown by SystemDemand.FailedFetchRaises) | SystemDemand.FetchDemandCorrected (used by SystemDemand.AggregateDemandCorrected) |

The feature pipeline follows the code as written: `SourceFeatures` aggregates the demand through `AggregateDemand`, so a failed demand request fails the assembly with UnboundLocalError. The corrected fetch would fail it with TypeError instead, since an empty frame cannot be aggregated.
