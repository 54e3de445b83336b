/**
 * The airport half of the pipeline: keep the delay rows of the selected
 * (bucket, day) and set each row's `outgoing` to one of its four stored
 * aggregates, picked by the arrival/departure toggle and the count/sum toggle.
 */
module Metrics {
  import opened Seqs
  import opened Records

  /** The four stored aggregates of a delay row. */
  datatype Metric = ArrCount | DepCount | ArrSum | DepSum

  /** The stored value of aggregate `m` in `row`. */
  function MetricValue(row: DelayRow, m: Metric): int
  {
    match m
    case ArrCount => row.arrcount
    case DepCount => row.depcount
    case ArrSum => row.arrsum
    case DepSum => row.depsum
  }

  /**
   * The source's if/else-if chain on `arrivalShow` and `isDelayCount`
   * ("0" counts, "1" sums); its final `else` catches every other combination.
   * On the two toggle values it is the 2x2 table; any other count/sum value
   * falls through to the departure sum.
   */
  function ChosenMetric(arrivalShow: bool, isDelayCount: string): (m: Metric)
    ensures isDelayCount == "0" || isDelayCount == "1" ==> m == TableMetric(arrivalShow, isDelayCount == "1")
    ensures isDelayCount != "0" && isDelayCount != "1" ==> m == DepSum
  {
    if !arrivalShow && isDelayCount == "0" then ArrCount
    else if arrivalShow && isDelayCount == "0" then DepCount
    else if !arrivalShow && isDelayCount == "1" then ArrSum
    else DepSum
  }

  /** The intended 2x2 table: (arrival toggle, sum toggle) to aggregate. */
  function TableMetric(arrivalShow: bool, isSum: bool): (m: Metric)
    ensures m.ArrCount? || m.ArrSum? <==> !arrivalShow
    ensures m.ArrSum? || m.DepSum? <==> isSum
  {
    match (arrivalShow, isSum)
    case (false, false) => ArrCount
    case (true, false) => DepCount
    case (false, true) => ArrSum
    case (true, true) => DepSum
  }

  /** Every aggregate is selected by exactly one toggle combination. */
  lemma TableIsBijection(m: Metric)
    ensures exists a: bool, s: bool :: TableMetric(a, s) == m
    ensures forall a: bool, s: bool, a': bool, s': bool ::
      TableMetric(a, s) == m && TableMetric(a', s') == m ==> a == a' && s == s'
  {
    match m
    case ArrCount => assert TableMetric(false, false) == m;
    case DepCount => assert TableMetric(true, false) == m;
    case ArrSum => assert TableMetric(false, true) == m;
    case DepSum => assert TableMetric(true, true) == m;
  }

  /** `airports.filter(a => a.time == hourData && a.year == yearData)`. */
  function ByBucket(rows: seq<DelayRow>, hourData: int, yearData: int): (r: seq<DelayRow>)
    ensures IsSubsequence(r, rows)
    ensures forall a :: a in r ==> a in rows
    ensures forall a :: a in rows ==> (a in r <==> a.time == hourData && a.year == yearData)
  {
    var p := (a: DelayRow) => a.time == hourData && a.year == yearData;
    FilterSpec(rows, p);
    Filter(rows, p)
  }

  /** The `forEach` that sets `outgoing` on every kept row; nothing else changes. */
  method AssignOutgoing(rows: seq<DelayRow>, arrivalShow: bool, isDelayCount: string)
    modifies set a | a in rows
    ensures forall a :: a in rows ==> a.outgoing == MetricValue(a, ChosenMetric(arrivalShow, isDelayCount))
  {
    var m := ChosenMetric(arrivalShow, isDelayCount);
    for i := 0 to |rows|
      invariant forall k :: 0 <= k < i ==> rows[k].outgoing == MetricValue(rows[k], m)
    {
      rows[i].outgoing := MetricValue(rows[i], m);
    }
  }
}
