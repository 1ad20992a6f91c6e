/**
  The per-snapshot reducers of the performance counters: `agg_sum` (and its
  older twin `agg_top`) add up every tab, `filter_one` keeps the tab of
  window 1, and the Sum / Filter1 experiment reducers apply one of them to
  every raw snapshot, keeping the snapshot's timestamp.
 */
module TabReduction {
  import opened Outcomes
  import opened Grouping
  import Timeline

  /** The two figures the reducers read from a tab: `tab['duration']` and
      `tab['dispatchCount']`. */
  datatype TabFigures = TabFigures(duration: int, dispatchCount: int)

  /** The series a reducer returns for one snapshot. */
  datatype Reduced = Reduced(duration: int, dispatchCount: int, numWindows: nat)

  function Duration(t: TabFigures): int {
    t.duration
  }

  function Dispatches(t: TabFigures): int {
    t.dispatchCount
  }

  /** What `agg_sum` computes, stated through sums over the table. */
  function Aggregate(tabs: Table<TabFigures>): Reduced {
    Reduced(Total(tabs, Duration), Total(tabs, Dispatches), |tabs|)
  }

  /** `agg_sum(x)` (and `agg_top(x)`): the loop over `x.iteritems()`. */
  method AggSum(tabs: Table<TabFigures>) returns (r: Reduced)
    ensures r.duration == Total(tabs, Duration)
    ensures r.dispatchCount == Total(tabs, Dispatches)
    ensures r.numWindows == |tabs|
  {
    var duration := 0;
    var dispatchCount := 0;
    var numWindows := |tabs|;
    var i := 0;
    while i < |tabs|
      invariant 0 <= i <= |tabs|
      invariant duration == Total(tabs[..i], Duration)
      invariant dispatchCount == Total(tabs[..i], Dispatches)
    {
      assert tabs[..i + 1][..i] == tabs[..i];
      duration := duration + tabs[i].1.duration;
      dispatchCount := dispatchCount + tabs[i].1.dispatchCount;
      i := i + 1;
    }
    assert tabs[..|tabs|] == tabs;
    return Reduced(duration, dispatchCount, numWindows);
  }

  /** The key of the primary tab. */
  const PrimaryTab := "1"

  /** `filter_one(x)`: the figures of tab '1' unchanged and the number of
      tabs; `x['1']` raises `KeyError` when there is no such tab. */
  function FilterOne(tabs: Table<TabFigures>): (r: Result<Reduced>)
    ensures r.Fail? <==> Lookup(tabs, PrimaryTab).None?
    ensures r.Fail? ==> r.error == KeyError
    ensures r.Ok? ==> exists i :: 0 <= i < |tabs| && tabs[i].0 == PrimaryTab
                        && r.value == Reduced(tabs[i].1.duration, tabs[i].1.dispatchCount, |tabs|)
  {
    match Lookup(tabs, PrimaryTab)
    case None => Fail(KeyError)
    case Some(tab) => Ok(Reduced(tab.duration, tab.dispatchCount, |tabs|))
  }

  datatype Reducer = SumReducer | Filter1Reducer

  /** One raw snapshot row: its timestamp and its `tabs` object. */
  datatype Snapshot = Snapshot(timestamp: int, tabs: Table<TabFigures>)

  datatype ReducedRow = ReducedRow(timestamp: int, reduced: Reduced)

  function ReduceOne(kind: Reducer, tabs: Table<TabFigures>): Result<Reduced> {
    match kind
    case SumReducer => Ok(Aggregate(tabs))
    case Filter1Reducer => FilterOne(tabs)
  }

  /** `raw_df.tabs.apply(...)` on a data frame that has rows: the reducer
      applied to each snapshot's tabs, with that snapshot's timestamp; the
      first failing snapshot aborts the whole reduction. */
  function ReduceEach(kind: Reducer, raw: seq<Snapshot>): (r: Result<seq<ReducedRow>>)
    ensures r.Fail? <==> exists i :: 0 <= i < |raw| && ReduceOne(kind, raw[i].tabs).Fail?
    ensures r.Fail? ==> r.error == KeyError
    ensures r.Ok? ==> |r.value| == |raw|
    ensures r.Ok? ==> forall i :: 0 <= i < |raw| ==>
      r.value[i] == ReducedRow(raw[i].timestamp, ReduceOne(kind, raw[i].tabs).value)
    decreases |raw|
  {
    if |raw| == 0 then Ok([])
    else
      var first := ReduceOne(kind, raw[0].tabs);
      var rest := ReduceEach(kind, raw[1..]);
      assert forall i :: 1 <= i < |raw| ==> raw[1..][i - 1] == raw[i];
      if first.Fail? then Fail(first.error)
      else if rest.Fail? then Fail(rest.error)
      else Ok([ReducedRow(raw[0].timestamp, first.value)] + rest.value)
  }

  /** `reduce_perf_counters(raw_df)`. A data frame built from no snapshot
      at all has no `tabs` column, so `raw_df.tabs` raises `AttributeError`;
      otherwise every snapshot is reduced. */
  function ReducePerfCounters(kind: Reducer, raw: seq<Snapshot>): (r: Result<seq<ReducedRow>>)
    ensures |raw| == 0 ==> r == Fail(AttributeError)
    ensures r.Fail? <==> |raw| == 0 || exists i :: 0 <= i < |raw| && ReduceOne(kind, raw[i].tabs).Fail?
    ensures r.Fail? && |raw| > 0 ==> r.error == KeyError
    ensures r.Ok? ==> |r.value| == |raw|
    ensures r.Ok? ==> forall i :: 0 <= i < |raw| ==>
      r.value[i] == ReducedRow(raw[i].timestamp, ReduceOne(kind, raw[i].tabs).value)
  {
    if |raw| == 0 then Fail(AttributeError) else ReduceEach(kind, raw)
  }

  /** The Sum reducer fails only on an empty input, and the Filter1 reducer
      fails exactly on an empty input or when some snapshot has no tab '1'. */
  lemma ReducerFailures(raw: seq<Snapshot>)
    ensures ReducePerfCounters(SumReducer, raw).Ok? <==> |raw| > 0
    ensures ReducePerfCounters(Filter1Reducer, raw).Fail? <==>
      |raw| == 0 || exists i :: 0 <= i < |raw| && Lookup(raw[i].tabs, PrimaryTab).None?
  {
  }

  function RowTime(r: ReducedRow): int {
    r.timestamp
  }

  /** What `parse_perf` returns: the rows, and the index they are resampled onto. */
  datatype Parsed = Parsed(rows: seq<ReducedRow>, grid: seq<int>)

  /** `parse_perf`: the reduced rows sorted by timestamp, and the index of
      the one-second grid they are resampled onto. There is at least one
      row, since an empty input already fails in the reducer. */
  function ParsePerf(kind: Reducer, raw: seq<Snapshot>): (r: Result<Parsed>)
    ensures r.Ok? <==> ReducePerfCounters(kind, raw).Ok?
    ensures |raw| == 0 ==> r == Fail(AttributeError)
    ensures r.Ok? ==>
      && Timeline.SortedBy(r.value.rows, RowTime)
      && multiset(r.value.rows) == multiset(ReducePerfCounters(kind, raw).value)
      && |r.value.rows| == |raw| > 0
      && (forall t :: t in r.value.grid <==>
            t % Timeline.Second == 0 && r.value.rows[0].timestamp <= t <= r.value.rows[|r.value.rows| - 1].timestamp)
  {
    var reduced := ReducePerfCounters(kind, raw);
    if reduced.Fail? then Fail(reduced.error)
    else
      var rows := Timeline.SortBy(reduced.value, RowTime);
      Ok(Parsed(rows, GridOf(rows)))
  }

  /** The resampling index of sorted rows: every whole second from the
      first row to the last. */
  function GridOf(rows: seq<ReducedRow>): (grid: seq<int>)
    ensures |rows| == 0 ==> grid == []
    ensures |rows| > 0 ==> forall t :: t in grid <==>
      t % Timeline.Second == 0 && rows[0].timestamp <= t <= rows[|rows| - 1].timestamp
  {
    if |rows| == 0 then [] else Timeline.Grid(rows[0].timestamp, rows[|rows| - 1].timestamp)
  }
}
