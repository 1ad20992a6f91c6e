/**
  The older experiment reducer: the experiment log is sorted, every raw
  snapshot's tabs are summed by `agg_top`, the reduced rows are sorted by
  timestamp, and each row is labelled with the action of the first event at
  or after it (the opposite direction from the newer reducer). No grid, no
  sync marker and no power logger.
 */
module LegacyReduction {
  import opened Outcomes
  import opened Grouping
  import opened Timeline
  import TabReduction
  import LegacyCounterSnapshot
  import ExperimentReduction

  type Row<V> = ExperimentReduction.Row<V>
  type Labelled<V> = ExperimentReduction.Labelled<V>

  /** `merge`: a copy of the counters with each row labelled by
      `exp_df.action[exp_df.timestamp >= t].iloc[0]`; the first row with no
      event at or after it raises `IndexError`. */
  function Merge<V>(events: seq<Event>, rows: seq<Row<V>>): (r: Result<seq<Labelled<V>>>)
    ensures r.Fail? <==> exists i :: 0 <= i < |rows| && ActionAtOrAfter(events, rows[i].timestamp).Fail?
    ensures r.Fail? ==> r.error == IndexError
    ensures r.Ok? ==> |r.value| == |rows|
    ensures r.Ok? ==> forall i :: 0 <= i < |rows| ==>
      r.value[i] == ExperimentReduction.Labelled(rows[i].timestamp, rows[i].values,
                                                 ActionAtOrAfter(events, rows[i].timestamp).value)
    decreases |rows|
  {
    if |rows| == 0 then Ok([])
    else
      var action := ActionAtOrAfter(events, rows[0].timestamp);
      var rest := Merge(events, rows[1..]);
      assert forall i :: 1 <= i < |rows| ==> rows[1..][i - 1] == rows[i];
      if action.Fail? then Fail(action.error)
      else if rest.Fail? then Fail(rest.error)
      else Ok([ExperimentReduction.Labelled(rows[0].timestamp, rows[0].values, action.value)] + rest.value)
  }

  /** On a log sorted by time (as `parse_exp` leaves it), the label of
      every row is the action of an event at or after the row that is no
      later than any other event at or after the row. */
  lemma MergeLabelsNextEvent<V>(events: seq<Event>, rows: seq<Row<V>>, i: nat)
    requires SortedBy(events, EventTime)
    requires Merge(events, rows).Ok?
    requires i < |rows|
    ensures exists j ::
      && 0 <= j < |events| && events[j].timestamp >= rows[i].timestamp
      && events[j].action == Merge(events, rows).value[i].action
      && forall k :: 0 <= k < |events| && events[k].timestamp >= rows[i].timestamp ==>
           events[j].timestamp <= events[k].timestamp
  {
    var t := rows[i].timestamp;
    var found := FirstAtOrAfter(events, t);
    assert ActionAtOrAfter(events, t).Ok?;
    FirstIsEarliest(events, t);
    var j := found.value;
    assert events[j].action == Merge(events, rows).value[i].action;
  }

  /** Every snapshot summed by `agg_top`, in the order collected. */
  function AggRows(raw: seq<TabReduction.Snapshot>): (r: seq<TabReduction.ReducedRow>)
    ensures |r| == |raw|
    ensures forall i :: 0 <= i < |raw| ==>
      r[i] == TabReduction.ReducedRow(raw[i].timestamp, TabReduction.Aggregate(raw[i].tabs))
  {
    seq(|raw|, i requires 0 <= i < |raw| => TabReduction.ReducedRow(raw[i].timestamp, TabReduction.Aggregate(raw[i].tabs)))
  }

  /** `parse_perf` with `AggExperimentReducer`: `agg_top` applied to every
      snapshot, the rows sorted by timestamp. `agg_top` is `agg_sum` under
      another name, so it never fails; only an empty input does, because
      its data frame has no `tabs` column. */
  function ParsePerf(raw: seq<TabReduction.Snapshot>): (r: Result<seq<TabReduction.ReducedRow>>)
    ensures r.Fail? <==> |raw| == 0
    ensures r.Fail? ==> r.error == AttributeError
    ensures r.Ok? ==> SortedBy(r.value, TabReduction.RowTime)
    ensures r.Ok? ==> multiset(r.value) == multiset(AggRows(raw))
  {
    var reduced := TabReduction.ReducePerfCounters(TabReduction.SumReducer, raw);
    TabReduction.ReducerFailures(raw);
    if reduced.Fail? then Fail(reduced.error)
    else
      assert reduced.value == AggRows(raw);
      Ok(SortBy(reduced.value, TabReduction.RowTime))
  }

  function AsRow(r: TabReduction.ReducedRow): Row<TabReduction.Reduced> {
    ExperimentReduction.Row(r.timestamp, r.reduced)
  }

  /** The reduced rows as the merge reads them. */
  function AsRows(perf: seq<TabReduction.ReducedRow>): (r: seq<Row<TabReduction.Reduced>>)
    ensures |r| == |perf|
    ensures forall i :: 0 <= i < |perf| ==> r[i] == AsRow(perf[i])
  {
    seq(|perf|, i requires 0 <= i < |perf| => AsRow(perf[i]))
  }

  /** `parse_exp`: the experiment log sorted by timestamp, as in the newer reducer. */
  function ParseExp(events: seq<Event>): (r: seq<Event>)
    ensures SortedBy(r, EventTime)
    ensures multiset(r) == multiset(events)
  {
    ExperimentReduction.ParseExp(events)
  }

  /** `run`: the sorted log merged with the sorted reduced counters. */
  function Run(events: seq<Event>, raw: seq<TabReduction.Snapshot>): (r: Result<seq<Labelled<TabReduction.Reduced>>>)
    ensures r.Ok? ==> |r.value| == |raw|
    ensures r.Ok? ==> SortedBy(r.value, (l: Labelled<TabReduction.Reduced>) => l.timestamp)
    ensures |raw| == 0 ==> r == Fail(AttributeError)
    ensures r.Fail? <==>
      |raw| == 0 || exists i :: 0 <= i < |raw| && ActionAtOrAfter(ParseExp(events), raw[i].timestamp).Fail?
  {
    var sorted := ParseExp(events);
    var perf :- ParsePerf(raw);
    var rows := AsRows(perf);
    RunSorted(sorted, perf);
    RunFailure(sorted, raw, perf);
    Merge(sorted, rows)
  }

  lemma RunSorted(sorted: seq<Event>, perf: seq<TabReduction.ReducedRow>)
    requires SortedBy(perf, TabReduction.RowTime)
    ensures var r := Merge(sorted, AsRows(perf));
      r.Ok? ==> SortedBy(r.value, (l: Labelled<TabReduction.Reduced>) => l.timestamp)
  {
    var r := Merge(sorted, AsRows(perf));
    if r.Ok? {
      forall i, j | 0 <= i < j < |r.value| ensures r.value[i].timestamp <= r.value[j].timestamp {
        assert TabReduction.RowTime(perf[i]) <= TabReduction.RowTime(perf[j]);
      }
    }
  }

  lemma RunFailure(sorted: seq<Event>, raw: seq<TabReduction.Snapshot>, perf: seq<TabReduction.ReducedRow>)
    requires multiset(perf) == multiset(AggRows(raw))
    ensures var rows := AsRows(perf);
      (exists i :: 0 <= i < |rows| && ActionAtOrAfter(sorted, rows[i].timestamp).Fail?)
        <==> (exists i :: 0 <= i < |raw| && ActionAtOrAfter(sorted, raw[i].timestamp).Fail?)
  {
    var rows := AsRows(perf);
    var agg := AggRows(raw);
    if exists i :: 0 <= i < |rows| && ActionAtOrAfter(sorted, rows[i].timestamp).Fail? {
      var i :| 0 <= i < |rows| && ActionAtOrAfter(sorted, rows[i].timestamp).Fail?;
      assert perf[i] in multiset(perf);
      assert perf[i] in agg;
      var k :| 0 <= k < |agg| && agg[k] == perf[i];
      assert raw[k].timestamp == rows[i].timestamp;
    }
    if exists k :: 0 <= k < |raw| && ActionAtOrAfter(sorted, raw[k].timestamp).Fail? {
      var k :| 0 <= k < |raw| && ActionAtOrAfter(sorted, raw[k].timestamp).Fail?;
      assert agg[k] in multiset(agg);
      assert agg[k] in perf;
      var i :| 0 <= i < |perf| && perf[i] == agg[k];
      assert rows[i].timestamp == raw[k].timestamp;
    }
  }

  /** The figures `agg_top` reads from a tab of the older snapshot. */
  function Figures(t: LegacyCounterSnapshot.Tab): TabReduction.TabFigures {
    TabReduction.TabFigures(t.duration, t.dispatchCount)
  }

  /** The snapshot as `agg_top` sees it, once serialised: each tab reduced
      to its figures, keys and order kept. */
  function AsFigures(t: Table<LegacyCounterSnapshot.Tab>): (r: Table<TabReduction.TabFigures>)
    ensures |r| == |t|
    ensures forall i :: 0 <= i < |t| ==> r[i] == (t[i].0, Figures(t[i].1))
  {
    seq(|t|, i requires 0 <= i < |t| => (t[i].0, Figures(t[i].1)))
  }

  lemma {:induction false} TotalAsFigures(t: Table<LegacyCounterSnapshot.Tab>)
    ensures Total(AsFigures(t), TabReduction.Duration) == Total(t, (tab: LegacyCounterSnapshot.Tab) => tab.duration)
    ensures Total(AsFigures(t), TabReduction.Dispatches) == Total(t, (tab: LegacyCounterSnapshot.Tab) => tab.dispatchCount)
    decreases |t|
  {
    if |t| > 0 {
      TotalAsFigures(t[..|t| - 1]);
      assert AsFigures(t)[..|t| - 1] == AsFigures(t[..|t| - 1]);
    }
  }

  /** From the collector to the reducer: `agg_top` of a snapshot of the older
      collector reports the duration and dispatch count summed over every
      record, whatever tab it went to, and one window per distinct window key. */
  lemma AggTopOfSnapshot(counters: seq<LegacyCounterSnapshot.Counter>)
    ensures TabReduction.Aggregate(AsFigures(LegacyCounterSnapshot.Snapshot(counters)))
      == TabReduction.Reduced(SumOver(counters, LegacyCounterSnapshot.Duration),
                              SumOver(counters, LegacyCounterSnapshot.DispatchCount),
                              |KeysOf(counters, LegacyCounterSnapshot.TabKey)|)
  {
    var snapshot := LegacyCounterSnapshot.Snapshot(counters);
    TotalAsFigures(snapshot);
    LegacyCounterSnapshot.SnapshotConservation(counters);
    GroupFoldKeys(counters, LegacyCounterSnapshot.TabKey, LegacyCounterSnapshot.NewTab,
                  LegacyCounterSnapshot.AddCounter);
  }
}
