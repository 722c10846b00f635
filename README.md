# Historical temperature analysis — a Dafny model

This project models the analysis core of a city-temperature monitor
(`utils/data_processing.py`). The core has three parts:

- `clean_data` drops every row that has a missing cell.
- `analyze_historical_data` adds a 30-value rolling mean and standard deviation
  to a city's temperature series. It computes the mean and standard deviation of
  each season's temperatures. It flags every temperature that lies outside
  mean ± 2σ.
- `forecast_temperature` checks its input and fits an ARIMA(5, 1, 0) model. It
  returns one prediction per day for the requested number of days.

All three are modelled as pure functions over sequences of records. The source
changes only private copies of its input, so the caller's data is unchanged by
construction.

Modelling choices:

- Temperatures are exact `real`s.
- Timestamps are integer day numbers.
- pandas' NaN ("not computable") is `Option.None`.
- Dafny has no square root, so the standard deviation is carried as its square,
  the sample variance (N − 1 denominator). The band test `t < m − 2σ or
  t > m + 2σ` becomes `(t − m)² > 4·variance`. `Stats.BandEquivalence` and
  `HistoricalAnalysis.AnomalyIsBandTest` prove the two forms agree for every
  non-negative σ whose square is the variance.

Modules:

- `Wrappers`: `Option`, `Result`.
- `Stats`: sum, mean, sample variance, min and max, and their lemmas.
- `Ordering`: code-point order on strings. It gives the sorted key order in
  which `groupby` visits groups and the first-appearance order of `unique()`.
- `Records`: raw rows with possibly missing cells, and complete records.
- `Cleaning`: `clean_data`.
- `Seasonal`: per-season grouping and statistics.
- `HistoricalAnalysis`: rolling statistics, the anomaly flag, and
  `analyze_historical_data`.
- `Forecast`: `forecast_temperature`.

Points where the model follows the code closely:

- `dropna()` drops a row with a missing cell in *any* column, not only
  temperature, timestamp or season. `Records.Row.others` stands for the file's
  other columns.
- The window is fixed at 30 and is not a parameter.
- The ARIMA model is fitted on the temperatures in row order. The source does
  not sort by timestamp.
- The errors are the ones the source raises. A missing `timestamp` column fails
  first, because it is read at line 51. Then a missing `temperature` column
  fails, then fewer than 30 rows.
- The analysis fails where the source raises, checked in the source's order.
  `HistoricalAnalysis.AnalyzeHistoricalData` takes the frame's column names, as
  `Forecast.ForecastTemperature` does:
  - A missing `temperature` column fails first. It is read at line 21.
  - Then a missing `season` column fails. It is grouped on at line 30.
  - Then an empty frame fails. `pd.concat` at line 32 has no season group to
    join, so the model returns `Failure(NoObjectsToConcatenate)`.

  An empty frame is reachable: the app filters the cleaned data by city, and a
  city whose every row had a missing cell leaves nothing.
- The source can pair the season labels with the wrong groups. This happens
  whenever the seasons do not first appear in ascending order (see Findings).
  The model records that pairing as `Seasonal.SeasonalStatsAsWritten`. The
  analysis itself returns the intended pairing, `Seasonal.SeasonalStats`, in
  which each group carries its own season.

## Model

| member | source | states |
|---|---|---|
| `Cleaning.CleanData` | utils/data_processing.py:7-9 | every kept row is complete; each complete row is kept as often as it occurs and no incomplete row is kept; the result is a subsequence of the input (order preserved); empty input gives empty output |
| `Cleaning.CleanCompleteIsIdentity` | utils/data_processing.py:8 | data with no missing cell comes through unchanged |
| `Cleaning.CleanDataIdempotent` | utils/data_processing.py:8 | cleaning already-cleaned data changes nothing |
| `Cleaning.CleanRecords` | utils/data_processing.py:7-9 | the cleaned rows read as complete records, one per row and in order; each record gives back exactly its row |
| `Cleaning.CleanDataLength` | utils/data_processing.py:8 | the output is shorter than the input by exactly the number of rows with a missing cell (five rows, two incomplete, leave three) |
| `Records.RowRoundTrip` | utils/data_processing.py:8 | a row that survives cleaning is exactly the row of its record: reading it as a record loses no cell |
| `Stats.SampleVariance` | utils/data_processing.py:22 | the sample variance is defined exactly from two values on and is never negative |
| `Stats.MeanWithinRange` | utils/data_processing.py:26 | a mean lies between the smallest and the largest value |
| `Stats.BandEquivalence` | utils/data_processing.py:36-37 | for any sd ≥ 0, `t < m − 2sd or t > m + 2sd` holds iff `(t − m)² > 4·sd²` (strict, both directions) |
| `HistoricalAnalysis.RollingMean` | utils/data_processing.py:21 | the rolling mean at position i is defined iff i ≥ 29, i.e. once 30 values are available |
| `HistoricalAnalysis.RollingVariance` | utils/data_processing.py:22 | the rolling variance at position i is defined iff i ≥ 29 and is then non-negative |
| `HistoricalAnalysis.OutsideBand` | utils/data_processing.py:35-39 | the anomaly test; it is never true where the mean or the spread is undefined, as a comparison with NaN is false |
| `HistoricalAnalysis.AnalysisRows` | utils/data_processing.py:18-22 | one row per input row in order with the record untouched; mean and variance undefined before position 29 and from there the mean and sample variance of the values i−29..i; flag iff outside the band, never where the statistics are undefined |
| `HistoricalAnalysis.AnalyzeHistoricalData` | utils/data_processing.py:11-41 | fails with a missing `temperature` column, then with a missing `season` column, then with "no objects to concatenate" for an empty frame; it succeeds iff both columns are present and the frame is non-empty, and then gives the annotated rows and a non-empty list of season statistics in the intended pairing (`Seasonal.SeasonalStats`, each group under its own season), not the source's mislabelled pairing, which is `Seasonal.SeasonalStatsAsWritten` |
| `HistoricalAnalysis.AnomalyIsBandTest` | utils/data_processing.py:35-39 | where defined, the flag equals the source's two strict comparisons against mean ± 2·sd for sd the square root of the rolling variance |
| `HistoricalAnalysis.ShortSeriesHasNoStatistics` | utils/data_processing.py:21-22 | a series shorter than 30 has no rolling statistic and no anomaly anywhere |
| `HistoricalAnalysis.ConstantSeriesNeverFlagged` | utils/data_processing.py:21-39 | for a constant series, from position 29 on the mean is the constant and the variance 0, and no position is ever flagged |
| `HistoricalAnalysis.SingleSpikeFlaggedAlone` | utils/data_processing.py:35-39 | in a constant series with one different value at a position ≥ 29, exactly that position is flagged |
| `HistoricalAnalysis.SpikeWindow` | utils/data_processing.py:36-37 | in a full window of 29 equal values and one different value, the different value lies outside the band and the others inside |
| `Ordering.SortedKeys` | utils/data_processing.py:30 | the keys `groupby` visits: strictly ascending, exactly the distinct seasons |
| `Ordering.FirstAppearance` | utils/data_processing.py:32 | the labels `unique()` returns: without repetitions, exactly the distinct seasons, and one season before another iff its first occurrence in the column comes first |
| `Ordering.KeyCountsAgree` | utils/data_processing.py:30-32 | `groupby` and `unique()` produce the same number of keys |
| `Seasonal.GroupRecords` | utils/data_processing.py:30 | the group `groupby` forms for a season: every record of that season as often as it occurs and no other, in input order; its size is the season's count |
| `Seasonal.GroupSizePositive` | utils/data_processing.py:30 | a season's group is non-empty iff the season occurs in the data, so `groupby` forms no empty group |
| `Seasonal.GroupTemperatures` | utils/data_processing.py:26 | the temperature column of that group, element by element, with the group's size; non-empty iff the season occurs |
| `Seasonal.GroupStats` | utils/data_processing.py:25-26 | a group's statistics carry its own season; the mean lies between the group's lowest and highest temperature; the spread is undefined iff the group has one record and is otherwise non-negative |
| `Seasonal.SeasonalStatsNonEmpty` | utils/data_processing.py:28-32 | a frame with at least one record has at least one season group, so the concatenation has something to join |
| `Seasonal.SeasonalStats` | utils/data_processing.py:25-31 | one entry per group in ascending season order; the set of labels is the set of seasons in the input; each entry is its own group's mean and variance |
| `Seasonal.SeasonalStatsOneEntryEach` | utils/data_processing.py:28-32 | a season has an entry iff it occurs in the input, and no two entries share a season |
| `Seasonal.SeasonMeanWithinRange` | utils/data_processing.py:26 | each season's mean lies between that season's lowest and highest temperature |
| `Seasonal.SeasonVarianceDefinedness` | utils/data_processing.py:26 | a season's spread is undefined iff its group has a single record |
| `Seasonal.GroupsPartitionData` | utils/data_processing.py:30 | the season groups partition the records: their sizes add up to the number of records |
| `Seasonal.SeasonalStatsAsWritten` | utils/data_processing.py:28-32 | as written: the k-th group's statistics in ascending key order under the k-th label in first-appearance order |
| `Seasonal.AsWrittenMislabelsSeasons` | utils/data_processing.py:30-32 | for a winter row followed by a summer row, the source reports summer's mean under the label "winter" |
| `Forecast.LatestDay` | utils/data_processing.py:64 | the maximum timestamp: one of the inputs and not below any of them |
| `Forecast.ForecastTemperature` | utils/data_processing.py:43-68 | missing timestamp column, then missing temperature column, then fewer than 30 rows fail with their own error; success iff the checks pass and the model returns `steps` values; then exactly `steps` points dated max timestamp + 1 + k with the model's k-th value |
| `Forecast.ThirtyObservationsSuffice` | utils/data_processing.py:56-57 | exactly 30 rows pass the length check: only the model can make the call fail |
| `Forecast.DefaultHorizonCoversThirtyDays` | utils/data_processing.py:43 | with the default `steps=30`, a successful forecast has 30 points, dated from the day after the latest observation to 30 days after it |
| `Forecast.ForecastDatesFollowData` | utils/data_processing.py:64 | forecast dates strictly increase one day at a time, lie after every observed timestamp, and start one day after the latest one |

## Findings

| source | as written | input that shows it | evidently intended | confidence | as-written member | corrected member |
|---|---|---|---|---|---|---|
| utils/data_processing.py:28-32 | groups come from `groupby('season')` in ascending key order. `pd.concat` labels them with `data['season'].unique()`, which is in first-appearance order, so a group can carry another season's label | one "winter" row (−10.0) and then one "summer" row (20.0): the first entry reads "winter" with mean 20.0, while winter's mean is −10.0 | each group labelled with its own key | high for the logic (both orders are pandas' documented defaults); not executed | `Seasonal.SeasonalStatsAsWritten`, `Seasonal.AsWrittenMislabelsSeasons` | `Seasonal.SeasonalStats`, `Seasonal.SeasonalStatsOneEntryEach` |

## Left out

- The Streamlit UI (`app.py`): upload, widgets, session state, filtering by city and by anomaly, and the current-temperature band check. The last one compares like `Stats.BandEquivalence` but belongs to the UI.
- Plotting (`utils/plotting.py`) and the OpenWeatherMap clients (`utils/api_requests.py`): these are visualisation and network I/O.
- The ARIMA fit and forecast (statsmodels). The model takes them as a function parameter `Forecast.ArimaForecaster` of the order, the series and the step count. `None` stands for a fit that raises. A result of the wrong length fails as a `LengthMismatch`, as the column assignment at line 64 would.
- The `joblib.Parallel` fan-out. The groups are disjoint and each group's computation is independent, so it is modelled as a sequential map over the groups.
- Floating-point rounding and NaN arithmetic: values are exact reals, and undefined values are `Option.None`.
- `pd.to_datetime` parsing and time of day: timestamps are whole day numbers, so a malformed timestamp string is not modelled.
- Analysis of rows that still have missing cells: `analyze_historical_data` is modelled on complete records only, as the application always cleans first (app.py:92-94). pandas' treatment of NaN inside a rolling window is not modelled.
- `HistoricalAnalysis.RollingVariance`: gives the variance and not its square root, the `rolling_std` column. The band test is proved equivalent through `Stats.BandEquivalence`.
- `HistoricalAnalysis.AnalyzeHistoricalData`: returns the intended season pairing, `Seasonal.SeasonalStats`. It does not return what line 32 produces, which is `Seasonal.SeasonalStatsAsWritten` (see Findings).
- `Seasonal.SeasonalStats`: gives one record per season (label, mean, variance). The source's long-format frame is not modelled: two rows per season (`mean` and `std`) and the `level_0`/`level_1` columns from `reset_index`. The same record does for `std` what `RollingVariance` does.
- `Forecast.ForecastTemperature`: the horizon `steps` is a natural number. A negative horizon, which Python accepts and statsmodels rejects, is not modelled; the app only uses the default of 30 (app.py:126).
- `Forecast.ForecastTemperature`: returns a list of (day, prediction) points. The pandas frame indexed by `Дата` with a `Прогноз` column is not modelled, and neither are the model's confidence intervals.
