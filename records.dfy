/**
 * The rows of the historical data set. A raw row may have a missing cell in
 * any column (the four named columns and any further columns of the file); a
 * complete row becomes a `Record` whose cells are all present. Timestamps are
 * day numbers.
 */
module Records {
  import opened Wrappers

  datatype Row = Row(
    city: Option<string>,
    timestamp: Option<int>,
    temperature: Option<real>,
    season: Option<string>,
    others: seq<Option<string>>)

  datatype Record = Record(
    city: string,
    timestamp: int,
    temperature: real,
    season: string,
    others: seq<string>)

  /** The temperature column, in row order. */
  function Temperatures(data: seq<Record>): (t: seq<real>)
    ensures |t| == |data|
    ensures forall i :: 0 <= i < |data| ==> t[i] == data[i].temperature
  {
    seq(|data|, i requires 0 <= i < |data| => data[i].temperature)
  }

  /** No cell of the row is missing, in whichever column. */
  predicate Complete(r: Row)
  {
    && r.city.Some?
    && r.timestamp.Some?
    && r.temperature.Some?
    && r.season.Some?
    && forall k :: 0 <= k < |r.others| ==> r.others[k].Some?
  }

  /** The record a complete row stands for. */
  function ToRecord(r: Row): (rec: Record)
    requires Complete(r)
  {
    Record(r.city.value, r.timestamp.value, r.temperature.value, r.season.value,
           seq(|r.others|, k requires 0 <= k < |r.others| => r.others[k].value))
  }

  /** The row with every cell of the record present; reading it back gives the record. */
  function FromRecord(rec: Record): (r: Row)
    ensures Complete(r)
    ensures ToRecord(r) == rec
  {
    Row(Some(rec.city), Some(rec.timestamp), Some(rec.temperature), Some(rec.season),
        seq(|rec.others|, k requires 0 <= k < |rec.others| => Some(rec.others[k])))
  }

  /** A complete row is the row of its own record: nothing is lost in between. */
  lemma RowRoundTrip(r: Row)
    requires Complete(r)
    ensures FromRecord(ToRecord(r)) == r
  {
    assert FromRecord(ToRecord(r)).others == r.others;
  }
}
