/**
 * `forecast_temperature`: checks the input, fits an ARIMA(5, 1, 0) model to
 * the temperature column and returns `steps` predictions dated on the
 * consecutive days after the latest timestamp. The fit and the forecast are
 * a numerical black box and enter the model as a function parameter.
 */
module Forecast {
  import opened Wrappers
  import opened Records

  /** Fewest observations the forecaster accepts. */
  const MinObservations: nat := 30

  /** Forecast horizon used when the caller gives none. */
  const DefaultSteps: nat := 30

  /** The (p, d, q) order of an ARIMA model. */
  datatype ArimaOrder = ArimaOrder(ar: nat, differencing: nat, ma: nat)

  /** The model order, fixed empirically and not selected from the data. */
  const Order := ArimaOrder(5, 1, 0)

  /**
   * Fitting a model of the given order to a series and forecasting a number
   * of steps ahead; `None` when fitting or forecasting raises.
   */
  type ArimaForecaster = (ArimaOrder, seq<real>, nat) -> Option<seq<real>>

  datatype ForecastError =
    | MissingColumn(column: string)
    | InsufficientData(required: nat, actual: nat)
    | ModelFailed
    | LengthMismatch(expected: nat, actual: nat)

  /** One forecast row: a day and the temperature predicted for it. */
  datatype ForecastPoint = ForecastPoint(date: int, predicted: real)

  /** The latest of a non-empty list of day numbers. */
  function LatestDay(days: seq<int>): (r: int)
    requires |days| > 0
    ensures r in days
    ensures forall k :: 0 <= k < |days| ==> days[k] <= r
  {
    if |days| == 1 then days[0]
    else
      var rest := LatestDay(days[1..]);
      if days[0] >= rest then days[0] else rest
  }

  function Timestamps(data: seq<Record>): (ts: seq<int>)
    ensures |ts| == |data|
    ensures forall i :: 0 <= i < |data| ==> ts[i] == data[i].timestamp
  {
    seq(|data|, i requires 0 <= i < |data| => data[i].timestamp)
  }

  /** The input passes the structural and the length checks and may be fitted. */
  predicate Forecastable(columns: set<string>, data: seq<Record>)
  {
    "timestamp" in columns && "temperature" in columns && |data| >= MinObservations
  }

  /**
   * The forecast of `steps` days. `columns` names the columns of the input
   * frame; a record's field is read only when its column is present. Reading
   * the timestamp column comes first, then the column check, then the
   * length check.
   */
  function ForecastTemperature(columns: set<string>, data: seq<Record>, steps: nat, arima: ArimaForecaster)
    : (r: Result<seq<ForecastPoint>, ForecastError>)
    ensures "timestamp" !in columns ==> r == Failure(MissingColumn("timestamp"))
    ensures "timestamp" in columns && "temperature" !in columns ==> r == Failure(MissingColumn("temperature"))
    ensures "timestamp" in columns && "temperature" in columns && |data| < MinObservations ==>
              r == Failure(InsufficientData(MinObservations, |data|))
    ensures r.Success? <==>
              Forecastable(columns, data) &&
              arima(Order, Temperatures(data), steps).Some? &&
              |arima(Order, Temperatures(data), steps).value| == steps
    ensures r.Success? ==>
              |r.value| == steps &&
              (forall k :: 0 <= k < steps ==>
                 r.value[k].date == LatestDay(Timestamps(data)) + 1 + k &&
                 r.value[k].predicted == arima(Order, Temperatures(data), steps).value[k])
  {
    if "timestamp" !in columns then Failure(MissingColumn("timestamp"))
    else if "temperature" !in columns then Failure(MissingColumn("temperature"))
    else if |data| < MinObservations then Failure(InsufficientData(MinObservations, |data|))
    else
      match arima(Order, Temperatures(data), steps)
      case None => Failure(ModelFailed)
      case Some(values) =>
        if |values| != steps then Failure(LengthMismatch(steps, |values|))
        else
          var start := LatestDay(Timestamps(data)) + 1;
          Success(seq(steps, k requires 0 <= k < steps => ForecastPoint(start + k, values[k])))
  }

  /** Exactly thirty complete observations pass the checks; the model alone decides the outcome. */
  lemma ThirtyObservationsSuffice(columns: set<string>, data: seq<Record>, steps: nat, arima: ArimaForecaster)
    requires "timestamp" in columns && "temperature" in columns && |data| == MinObservations
    ensures ForecastTemperature(columns, data, steps, arima).Failure? ==>
              ForecastTemperature(columns, data, steps, arima).error.ModelFailed? ||
              ForecastTemperature(columns, data, steps, arima).error.LengthMismatch?
  {
  }

  /**
   * With the default horizon, a successful forecast covers exactly the
   * thirty days after the latest observation.
   */
  lemma DefaultHorizonCoversThirtyDays(columns: set<string>, data: seq<Record>, arima: ArimaForecaster)
    requires ForecastTemperature(columns, data, DefaultSteps, arima).Success?
    ensures var points := ForecastTemperature(columns, data, DefaultSteps, arima).value;
            && |points| == 30
            && points[0].date == LatestDay(Timestamps(data)) + 1
            && points[29].date == LatestDay(Timestamps(data)) + 30
  {
  }

  /**
   * The dates of a successful forecast are strictly increasing, each one day
   * after the one before, and all after every observed timestamp.
   */
  lemma ForecastDatesFollowData(columns: set<string>, data: seq<Record>, steps: nat, arima: ArimaForecaster)
    requires ForecastTemperature(columns, data, steps, arima).Success?
    ensures var points := ForecastTemperature(columns, data, steps, arima).value;
            && (forall j, k :: 0 <= j < k < |points| ==> points[j].date < points[k].date)
            && (forall k :: 0 < k < |points| ==> points[k].date == points[k - 1].date + 1)
            && (forall k, i :: 0 <= k < |points| && 0 <= i < |data| ==> data[i].timestamp < points[k].date)
            && (|points| > 0 ==> exists i :: 0 <= i < |data| && points[0].date == data[i].timestamp + 1)
  {
    var points := ForecastTemperature(columns, data, steps, arima).value;
    var latest := LatestDay(Timestamps(data));
    assert latest in Timestamps(data);
    var i :| 0 <= i < |data| && Timestamps(data)[i] == latest;
    if |points| > 0 {
      assert points[0].date == data[i].timestamp + 1;
    }
  }
}
