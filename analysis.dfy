/**
 * `analyze_historical_data`: a 30-value trailing rolling mean and sample
 * standard deviation over the temperature column, the seasonal statistics,
 * and an anomaly flag for every temperature outside mean +- 2 standard
 * deviations. The standard deviation is carried as its square, the sample
 * variance; `AnomalyIsBandTest` ties the flag back to the +-2 sigma band.
 */
module HistoricalAnalysis {
  import opened Wrappers
  import opened Stats
  import opened Records
  import opened Seasonal

  /** The rolling window size; pandas then also needs 30 values before it reports a statistic. */
  const Window: nat := 30

  /** The `Window` values ending at position `i`, inclusive. */
  function Trailing(t: seq<real>, i: nat): (w: seq<real>)
    requires Window - 1 <= i < |t|
    ensures |w| == Window
    ensures forall k :: 0 <= k < Window ==> w[k] == t[i - (Window - 1) + k]
  {
    t[i - (Window - 1) .. i + 1]
  }

  /** The rolling mean at position `i`: undefined until the window is full. */
  function RollingMean(t: seq<real>, i: nat): (m: Option<real>)
    requires i < |t|
    ensures m.Some? <==> i >= Window - 1
  {
    if i < Window - 1 then None else Some(Mean(Trailing(t, i)))
  }

  /** The rolling sample variance at position `i`: undefined until the window is full. */
  function RollingVariance(t: seq<real>, i: nat): (v: Option<real>)
    requires i < |t|
    ensures v.Some? <==> i >= Window - 1
    ensures v.Some? ==> v.value >= 0.0
  {
    if i < Window - 1 then None else SampleVariance(Trailing(t, i))
  }

  /**
   * The anomaly test: the squared deviation from the mean exceeds four
   * variances. A comparison with an undefined statistic is false, as with NaN.
   */
  function OutsideBand(temperature: real, mean: Option<real>, variance: Option<real>): (b: bool)
    ensures b ==> mean.Some? && variance.Some?
  {
    && mean.Some? && variance.Some?
    && (temperature - mean.value) * (temperature - mean.value) > 4.0 * variance.value
  }

  /** An input record together with the three columns the analysis adds to it. */
  datatype AnalysisRow = AnalysisRow(
    record: Record,
    rollingMean: Option<real>,
    rollingVariance: Option<real>,
    anomaly: bool)

  datatype Analysis = Analysis(rows: seq<AnalysisRow>, seasonal: seq<SeasonStats>)

  /**
   * Why the analysis raises: a column it reads is absent, or a frame without
   * rows has no season group to concatenate.
   */
  datatype AnalysisError = MissingColumn(column: string) | NoObjectsToConcatenate

  /**
   * The input rows with the three added columns: one output row per input
   * row, in order, with the record untouched; the rolling statistics of the
   * trailing window from position 29 on; and the flag, which is never set
   * where the statistics are undefined.
   */
  function AnalysisRows(data: seq<Record>): (rows: seq<AnalysisRow>)
    ensures |rows| == |data|
    ensures forall i :: 0 <= i < |data| ==> rows[i].record == data[i]
    ensures forall i :: 0 <= i < |data| ==>
              (rows[i].rollingMean.Some? <==> i >= Window - 1) &&
              (rows[i].rollingVariance.Some? <==> i >= Window - 1)
    ensures forall i :: Window - 1 <= i < |data| ==>
              rows[i].rollingMean == Some(Mean(Trailing(Temperatures(data), i))) &&
              rows[i].rollingVariance == SampleVariance(Trailing(Temperatures(data), i))
    ensures forall i :: 0 <= i < |data| ==>
              (rows[i].anomaly <==> OutsideBand(data[i].temperature, rows[i].rollingMean, rows[i].rollingVariance))
    ensures forall i :: 0 <= i < |data| && i < Window - 1 ==> !rows[i].anomaly
  {
    var t := Temperatures(data);
    seq(|data|, i requires 0 <= i < |data| =>
      var m := RollingMean(t, i);
      var v := RollingVariance(t, i);
      AnalysisRow(data[i], m, v, OutsideBand(t[i], m, v)))
  }

  /**
   * The analysis of a frame whose columns are `columns`; a record's field is
   * read only when its column is present. Reading the temperature column for
   * the rolling statistics comes first, then grouping by season, then the
   * concatenation, which raises when the frame has no rows. Otherwise the
   * result is the annotated rows and one statistics entry for every season
   * that occurs, each labelled with its own season.
   */
  function AnalyzeHistoricalData(columns: set<string>, data: seq<Record>): (r: Result<Analysis, AnalysisError>)
    ensures "temperature" !in columns ==> r == Failure(MissingColumn("temperature"))
    ensures "temperature" in columns && "season" !in columns ==> r == Failure(MissingColumn("season"))
    ensures "temperature" in columns && "season" in columns && data == [] ==> r == Failure(NoObjectsToConcatenate)
    ensures r.Success? <==> "temperature" in columns && "season" in columns && data != []
    ensures r.Success? ==> r.value.rows == AnalysisRows(data) && r.value.seasonal == SeasonalStats(data)
    ensures r.Success? ==> |r.value.rows| == |data| && |r.value.seasonal| > 0
  {
    if "temperature" !in columns then Failure(MissingColumn("temperature"))
    else if "season" !in columns then Failure(MissingColumn("season"))
    else if data == [] then Failure(NoObjectsToConcatenate)
    else
      SeasonalStatsNonEmpty(data);
      Success(Analysis(AnalysisRows(data), SeasonalStats(data)))
  }

  /**
   * Where the statistics are defined, the flag is the source's two strict
   * comparisons `t < mean - 2 sd` or `t > mean + 2 sd`, for `sd` the
   * non-negative square root of the variance.
   */
  lemma AnomalyIsBandTest(data: seq<Record>, i: nat, sd: real)
    requires Window - 1 <= i < |data|
    requires sd >= 0.0
    requires AnalysisRows(data)[i].rollingVariance == Some(sd * sd)
    ensures var row := AnalysisRows(data)[i];
            var m := row.rollingMean.value;
            row.anomaly <==> (data[i].temperature < m - 2.0 * sd || data[i].temperature > m + 2.0 * sd)
  {
    var row := AnalysisRows(data)[i];
    BandEquivalence(data[i].temperature, row.rollingMean.value, sd);
  }

  /** A series shorter than the window has no statistics and no anomaly anywhere. */
  lemma ShortSeriesHasNoStatistics(data: seq<Record>)
    requires |data| < Window
    ensures forall i :: 0 <= i < |data| ==>
              var row := AnalysisRows(data)[i];
              row.rollingMean.None? && row.rollingVariance.None? && !row.anomaly
  {
  }

  /** A constant series: once the window is full, mean is the constant, spread zero, and nothing is flagged. */
  lemma ConstantSeriesNeverFlagged(data: seq<Record>, c: real)
    requires forall i :: 0 <= i < |data| ==> data[i].temperature == c
    ensures forall i :: Window - 1 <= i < |data| ==>
              AnalysisRows(data)[i].rollingMean == Some(c) &&
              AnalysisRows(data)[i].rollingVariance == Some(0.0)
    ensures forall i :: 0 <= i < |data| ==> !AnalysisRows(data)[i].anomaly
  {
    var rows := AnalysisRows(data);
    forall i | Window - 1 <= i < |data|
      ensures rows[i].rollingMean == Some(c) && rows[i].rollingVariance == Some(0.0) && !rows[i].anomaly
    {
      ConstantStats(Trailing(Temperatures(data), i), c);
    }
  }

  /**
   * Squared deviations within a full window holding 29 copies of `c` and one
   * `v`: `v` lies outside the band, `c` inside (for `v != c`).
   */
  lemma SpikeArithmetic(c: real, v: real, m: real, variance: real, e: real)
    requires e != 0.0 && c - m == -e && v - m == 29.0 * e
    requires variance == (29.0 * ((c - m) * (c - m)) + (v - m) * (v - m)) / 29.0
    ensures (v - m) * (v - m) > 4.0 * variance
    ensures !((c - m) * (c - m) > 4.0 * variance)
  {
    calc {
      (v - m) * (v - m);
      == (29.0 * e) * (29.0 * e);
      == 841.0 * (e * e);
      > 120.0 * (e * e);
      == { assert (c - m) * (c - m) == e * e; }
         4.0 * variance;
    }
    calc {
      (c - m) * (c - m);
      == e * e;
      <= 120.0 * (e * e);
      == 4.0 * variance;
    }
  }

  /** In a full window holding one spike `v` among copies of `c`, `v` is outside the band and `c` inside. */
  lemma SpikeWindow(w: seq<real>, q: nat, c: real, v: real)
    requires |w| == Window && q < |w| && w[q] == v && v != c
    requires forall k :: 0 <= k < |w| && k != q ==> w[k] == c
    ensures OutsideBand(v, Some(Mean(w)), SampleVariance(w))
    ensures !OutsideBand(c, Some(Mean(w)), SampleVariance(w))
  {
    var m := (29.0 * c + v) / 30.0;
    SpikeSums(w, q, c, v, m);
    assert Sum(w) == 29.0 * c + v;
    assert Mean(w) == m;
    assert SumSqDev(w, m) == 29.0 * ((c - m) * (c - m)) + (v - m) * (v - m);
    assert SampleVariance(w) == Some(SumSqDev(w, m) / 29.0);
    SpikeArithmetic(c, v, m, SumSqDev(w, m) / 29.0, (v - c) / 30.0);
  }

  /** In a full window of copies of `c`, `c` is inside the band. */
  lemma ConstantWindow(w: seq<real>, c: real)
    requires |w| == Window
    requires forall k :: 0 <= k < |w| ==> w[k] == c
    ensures !OutsideBand(c, Some(Mean(w)), SampleVariance(w))
  {
    ConstantStats(w, c);
  }

  /** The flag at a position with a full window, in terms of that window. */
  lemma FlagAt(data: seq<Record>, i: nat)
    requires Window - 1 <= i < |data|
    ensures AnalysisRows(data)[i].anomaly <==>
            OutsideBand(data[i].temperature, Some(Mean(Trailing(Temperatures(data), i))),
                        SampleVariance(Trailing(Temperatures(data), i)))
  {
  }

  /** At a position with a full window, in a constant series with one spike at `p`. */
  lemma SpikeFlagAt(data: seq<Record>, p: nat, c: real, v: real, i: nat)
    requires Window - 1 <= p < |data| && Window - 1 <= i < |data|
    requires data[p].temperature == v && v != c
    requires forall j :: 0 <= j < |data| && j != p ==> data[j].temperature == c
    ensures AnalysisRows(data)[i].anomaly <==> i == p
  {
    var t := Temperatures(data);
    var w := Trailing(t, i);
    var lo := i - (Window - 1);
    FlagAt(data, i);
    if lo <= p <= i {
      forall k | 0 <= k < |w| && k != p - lo
        ensures w[k] == c
      {
        assert w[k] == t[lo + k];
      }
      assert w[p - lo] == v;
      SpikeWindow(w, p - lo, c, v);
    } else {
      forall k | 0 <= k < |w|
        ensures w[k] == c
      {
        assert w[k] == t[lo + k];
      }
      ConstantWindow(w, c);
    }
  }

  /** A constant series with one spike after the window has filled: exactly the spike is flagged. */
  lemma SingleSpikeFlaggedAlone(data: seq<Record>, p: nat, c: real, v: real)
    requires Window - 1 <= p < |data|
    requires data[p].temperature == v && v != c
    requires forall i :: 0 <= i < |data| && i != p ==> data[i].temperature == c
    ensures forall i :: 0 <= i < |data| ==> (AnalysisRows(data)[i].anomaly <==> i == p)
  {
    forall i | Window - 1 <= i < |data|
      ensures AnalysisRows(data)[i].anomaly <==> i == p
    {
      SpikeFlagAt(data, p, c, v, i);
    }
  }
}
