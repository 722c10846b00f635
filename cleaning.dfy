/**
 * `clean_data`: `DataFrame.dropna()` removes every row that has a missing
 * cell in any column and keeps the others in their order.
 */
module Cleaning {
  import opened Records
  import opened Ordering

  /**
   * The rows without a missing cell, in their original order: the result
   * holds every complete row as often as the input does and no other row.
   */
  function CleanData(rows: seq<Row>): (r: seq<Row>)
    ensures forall k :: 0 <= k < |r| ==> Complete(r[k])
    ensures forall x :: multiset(r)[x] == if Complete(x) then multiset(rows)[x] else 0
    ensures IsSubsequence(r, rows)
    ensures rows == [] ==> r == []
  {
    if rows == [] then []
    else
      var rest := CleanData(rows[1..]);
      assert rows == [rows[0]] + rows[1..];
      if Complete(rows[0]) then [rows[0]] + rest else rest
  }

  /** Data that has nothing missing goes through unchanged. */
  lemma {:induction false} CleanCompleteIsIdentity(rows: seq<Row>)
    requires forall k :: 0 <= k < |rows| ==> Complete(rows[k])
    ensures CleanData(rows) == rows
  {
    if rows != [] {
      CleanCompleteIsIdentity(rows[1..]);
      assert rows == [rows[0]] + rows[1..];
    }
  }

  /** Cleaning twice is cleaning once. */
  lemma CleanDataIdempotent(rows: seq<Row>)
    ensures CleanData(CleanData(rows)) == CleanData(rows)
  {
    CleanCompleteIsIdentity(CleanData(rows));
  }

  /** The number of rows with a missing cell. */
  function IncompleteCount(rows: seq<Row>): (n: nat)
  {
    if rows == [] then 0 else (if Complete(rows[0]) then 0 else 1) + IncompleteCount(rows[1..])
  }

  /** Exactly the incomplete rows are dropped: five rows of which two lack a value leave three. */
  lemma {:induction false} CleanDataLength(rows: seq<Row>)
    ensures |CleanData(rows)| == |rows| - IncompleteCount(rows)
  {
    if rows != [] {
      CleanDataLength(rows[1..]);
    }
  }

  /**
   * The cleaned rows read as records, one per row, in the same order: the
   * frame the analysis and the forecast receive.
   */
  function CleanRecords(rows: seq<Row>): (recs: seq<Record>)
    ensures |recs| == |CleanData(rows)|
    ensures forall k :: 0 <= k < |recs| ==> FromRecord(recs[k]) == CleanData(rows)[k]
  {
    var clean := CleanData(rows);
    var recs := seq(|clean|, k requires 0 <= k < |clean| => ToRecord(clean[k]));
    assert forall k :: 0 <= k < |recs| ==> FromRecord(recs[k]) == clean[k] by {
      forall k | 0 <= k < |recs| ensures FromRecord(recs[k]) == clean[k] {
        RowRoundTrip(clean[k]);
      }
    }
    recs
  }
}
