/**
  The newer experiment reducer's alignment of its three streams: the
  experiment log (timestamped actions), the reduced performance counters
  (one row per grid second) and the power logger's rows.

  `merge_counters` labels every counter row with the action in force at its
  timestamp and makes sure the sync marker labels the row nearest to the
  sync event; `merge_hobo` optionally shifts the logger's clock so that its
  button-down row meets the sync-marked counter row, then joins the two
  tables on equal timestamps. The counters' own columns are a type
  parameter: the reducer copies them and never looks inside.
 */
module ExperimentReduction {
  import opened Outcomes
  import opened Timeline

  /** `hobo_sync_log_tag`: the action logged when the sync button is pressed. */
  const SyncTag := "hobo_sync_marker"

  datatype Row<V> = Row(timestamp: int, values: V)

  datatype Labelled<V> = Labelled(timestamp: int, values: V, action: string)

  /** The six data columns of the power logger. */
  datatype HoboData = HoboData(rmsVoltage: real, rmsCurrent: real, activePower: real,
                               activeEnergy: real, apparentPower: real, powerFactor: real)

  /** A logger row; `buttonDown` is whether its `btn_dwn` column holds a value. */
  datatype HoboRow = HoboRow(timestamp: int, data: HoboData, buttonDown: bool)

  datatype Merged<V> = Merged(timestamp: int, values: V, action: string, hobo: HoboData)

  /** `parse_exp`: the experiment log sorted by timestamp. */
  function ParseExp(events: seq<Event>): (r: seq<Event>)
    ensures SortedBy(r, EventTime)
    ensures multiset(r) == multiset(events)
  {
    SortBy(events, EventTime)
  }

  /** `timestamps.apply(get_action)` on a copy of the counters: each row
      keeps its timestamp and columns and gains the action in force at its
      timestamp; the first row with no earlier event raises. */
  function LabelAsOf<V>(events: seq<Event>, rows: seq<Row<V>>): (r: Result<seq<Labelled<V>>>)
    ensures r.Fail? <==> exists i :: 0 <= i < |rows| && ActionAsOf(events, rows[i].timestamp).Fail?
    ensures r.Fail? ==> r.error == IndexError
    ensures r.Ok? ==> |r.value| == |rows|
    ensures r.Ok? ==> forall i :: 0 <= i < |rows| ==>
      r.value[i] == Labelled(rows[i].timestamp, rows[i].values, ActionAsOf(events, rows[i].timestamp).value)
    decreases |rows|
  {
    if |rows| == 0 then Ok([])
    else
      var action := ActionAsOf(events, rows[0].timestamp);
      var rest := LabelAsOf(events, rows[1..]);
      assert forall i :: 1 <= i < |rows| ==> rows[1..][i - 1] == rows[i];
      if action.Fail? then Fail(action.error)
      else if rest.Fail? then Fail(rest.error)
      else Ok([Labelled(rows[0].timestamp, rows[0].values, action.value)] + rest.value)
  }

  /** The position of the first event carrying `tag`, or `|events|`. */
  function FirstTagged(events: seq<Event>, tag: string): (i: nat)
    ensures i <= |events|
    ensures forall j :: 0 <= j < i ==> events[j].action != tag
    ensures i < |events| ==> events[i].action == tag
    decreases |events|
  {
    if |events| == 0 then 0
    else if events[0].action == tag then 0
    else FirstTagged(events[1..], tag) + 1
  }

  /** `exp_df.timestamp[exp_df.action == tag].iloc[0]`. */
  function SyncTime(events: seq<Event>): (r: Result<int>)
    ensures r.Fail? <==> forall j :: 0 <= j < |events| ==> events[j].action != SyncTag
    ensures r.Fail? ==> r.error == IndexError
    ensures r.Ok? ==> exists j :: 0 <= j < |events| && events[j].action == SyncTag
                        && events[j].timestamp == r.value
                        && forall k :: 0 <= k < j ==> events[k].action != SyncTag
  {
    var i := FirstTagged(events, SyncTag);
    if i < |events| then Ok(events[i].timestamp) else Fail(IndexError)
  }

  function Distance(a: int, b: int): nat {
    if a <= b then b - a else a - b
  }

  /** `(timestamps - sync_ts).abs().idxmin()`: the first row nearest to `s`. */
  function Nearest<V>(rows: seq<Labelled<V>>, s: int): (i: nat)
    requires |rows| > 0
    ensures i < |rows|
    ensures forall j :: 0 <= j < |rows| ==> Distance(rows[i].timestamp, s) <= Distance(rows[j].timestamp, s)
    ensures forall j :: 0 <= j < i ==> Distance(rows[i].timestamp, s) < Distance(rows[j].timestamp, s)
    decreases |rows|
  {
    if |rows| == 1 then 0
    else
      var k := Nearest(rows[..|rows| - 1], s);
      if Distance(rows[|rows| - 1].timestamp, s) < Distance(rows[k].timestamp, s) then |rows| - 1 else k
  }

  /** `results_df.action[t] = tag`: every row indexed by `t` gets the tag. */
  function Relabel<V>(rows: seq<Labelled<V>>, t: int, tag: string): (r: seq<Labelled<V>>)
    ensures |r| == |rows|
    ensures forall i :: 0 <= i < |rows| ==>
      r[i] == if rows[i].timestamp == t then rows[i].(action := tag) else rows[i]
  {
    seq(|rows|, i requires 0 <= i < |rows| => if rows[i].timestamp == t then rows[i].(action := tag) else rows[i])
  }

  /** Marking the row nearest to the first sync event with the sync tag;
      no sync event raises `IndexError`, no rows make `idxmin` raise
      `ValueError`. */
  function PlaceSyncTag<V>(events: seq<Event>, rows: seq<Labelled<V>>): (r: Result<seq<Labelled<V>>>)
    ensures r.Ok? <==> SyncTime(events).Ok? && |rows| > 0
    ensures r.Ok? ==> |r.value| == |rows|
    ensures r.Ok? ==> var t := rows[Nearest(rows, SyncTime(events).value)].timestamp;
      && (forall i :: 0 <= i < |rows| && rows[i].timestamp == t ==> r.value[i] == rows[i].(action := SyncTag))
      && (forall i :: 0 <= i < |rows| && rows[i].timestamp != t ==> r.value[i] == rows[i])
  {
    var s :- SyncTime(events);
    if |rows| == 0 then Fail(ValueError)
    else Ok(Relabel(rows, rows[Nearest(rows, s)].timestamp, SyncTag))
  }

  predicate HasTag<V>(rows: seq<Labelled<V>>, tag: string) {
    exists i :: 0 <= i < |rows| && rows[i].action == tag
  }

  /** `merge_counters` as the source writes it. Its guard
      `tag not in results_df.action` asks whether the tag is a label of the
      Series' index, which holds timestamps, so it always holds and the
      nearest row is relabelled even when a row already carries the tag. */
  function MergeCountersAsWritten<V>(events: seq<Event>, rows: seq<Row<V>>): (r: Result<seq<Labelled<V>>>)
    ensures r.Ok? <==> LabelAsOf(events, rows).Ok? && SyncTime(events).Ok? && |rows| > 0
    ensures LabelAsOf(events, rows).Fail? ==> r == Fail(IndexError)
    ensures r.Ok? ==> |r.value| == |rows| && HasTag(r.value, SyncTag)
    ensures r.Ok? ==> forall i :: 0 <= i < |rows| ==>
      r.value[i].timestamp == rows[i].timestamp && r.value[i].values == rows[i].values
    ensures r.Ok? ==>
      var t := rows[Nearest(LabelAsOf(events, rows).value, SyncTime(events).value)].timestamp;
      forall i :: 0 <= i < |rows| ==>
        r.value[i].action == if rows[i].timestamp == t then SyncTag else ActionAsOf(events, rows[i].timestamp).value
  {
    var labelled :- LabelAsOf(events, rows);
    PlaceSyncTagTags(events, labelled);
    PlaceSyncTagLabels(events, rows, labelled);
    PlaceSyncTag(events, labelled)
  }

  /** Placing the tag on the as-of labels: the rows at the nearest
      timestamp carry the tag and every other row its as-of action. */
  lemma PlaceSyncTagLabels<V>(events: seq<Event>, rows: seq<Row<V>>, labelled: seq<Labelled<V>>)
    requires LabelAsOf(events, rows) == Ok(labelled)
    ensures var r := PlaceSyncTag(events, labelled);
      r.Ok? ==>
        var t := rows[Nearest(labelled, SyncTime(events).value)].timestamp;
        forall i :: 0 <= i < |rows| ==>
          r.value[i].action == if rows[i].timestamp == t then SyncTag else ActionAsOf(events, rows[i].timestamp).value
  {
  }

  /** As written, every row that does not end up tagged still carries the
      action in force at its timestamp. */
  lemma MergeCountersAsWrittenKeepsAsOfLabels<V>(events: seq<Event>, rows: seq<Row<V>>)
    ensures var r := MergeCountersAsWritten(events, rows);
      r.Ok? ==> forall i :: 0 <= i < |rows| && r.value[i].action != SyncTag ==>
        r.value[i].action == ActionAsOf(events, rows[i].timestamp).value
  {
    var r := MergeCountersAsWritten(events, rows);
    if r.Ok? {
      var l := LabelAsOf(events, rows).value;
      assert r == PlaceSyncTag(events, l);
      forall i | 0 <= i < |rows| && r.value[i].action != SyncTag
        ensures r.value[i].action == ActionAsOf(events, rows[i].timestamp).value
      {
        assert r.value[i] == l[i];
      }
    }
  }

  /** With a sync event whose as-of label already reaches a later row, the
      as-written merge gives the tag to a second, earlier row too: the row at
      5 was labelled "a" and is relabelled. */
  lemma MergeCountersRelabelsTaggedTable()
    ensures var events := [Event(0, "a"), Event(6, SyncTag)];
      var rows := [Row(5, 0), Row(10, 0)];
      && LabelAsOf(events, rows) == Ok([Labelled(5, 0, "a"), Labelled(10, 0, SyncTag)])
      && MergeCountersAsWritten(events, rows) == Ok([Labelled(5, 0, SyncTag), Labelled(10, 0, SyncTag)])
  {
    var events := [Event(0, "a"), Event(6, SyncTag)];
    var rows := [Row(5, 0), Row(10, 0)];
    assert LastAtOrBefore(events, 5) == Some(0);
    assert LastAtOrBefore(events, 10) == Some(1);
    assert ActionAsOf(events, 5) == Ok("a");
    assert ActionAsOf(events, 10) == Ok(SyncTag);
    assert FirstTagged(events, SyncTag) == 1;
    assert rows[1..] == [Row(10, 0)];
    assert rows[1..][1..] == [];
    var tail := LabelAsOf(events, rows[1..]);
    assert tail.Ok?;
    assert |tail.value| == 1;
    assert tail.value == [Labelled(10, 0, SyncTag)];
    var labelled := [Labelled(5, 0, "a"), Labelled(10, 0, SyncTag)];
    assert LabelAsOf(events, rows).value == labelled;
    assert SyncTime(events) == Ok(6);
    assert Nearest(labelled, 6) == 0;
    var placed := PlaceSyncTag(events, labelled);
    assert placed.Ok?;
    assert placed.value == [Labelled(5, 0, SyncTag), Labelled(10, 0, SyncTag)];
  }

  /** `merge_counters` as its guard intends: the as-of labels are kept when a
      row already carries the sync tag, and otherwise the rows at the
      timestamp nearest to the first sync event get it. Either way the rows,
      their timestamps and their columns are those of the input, in order. */
  function MergeCounters<V>(events: seq<Event>, rows: seq<Row<V>>): (r: Result<seq<Labelled<V>>>)
    ensures r.Ok? ==> |r.value| == |rows| && HasTag(r.value, SyncTag)
    ensures r.Ok? ==> forall i :: 0 <= i < |rows| ==>
      r.value[i].timestamp == rows[i].timestamp && r.value[i].values == rows[i].values
    ensures var l := LabelAsOf(events, rows);
      && (l.Fail? ==> r == Fail(l.error))
      && (l.Ok? && HasTag(l.value, SyncTag) ==> r == l)
      && (l.Ok? && !HasTag(l.value, SyncTag) ==> r == PlaceSyncTag(events, l.value))
  {
    match LabelAsOf(events, rows)
    case Fail(e) => Fail(e)
    case Ok(labelled) =>
      if HasTag(labelled, SyncTag) then Ok(labelled)
      else
        PlaceSyncTagTags(events, labelled);
        PlaceSyncTag(events, labelled)
  }

  /** Placing the sync tag leaves a row that carries it, and changes no
      row's timestamp or columns. */
  lemma PlaceSyncTagTags<V>(events: seq<Event>, rows: seq<Labelled<V>>)
    ensures var r := PlaceSyncTag(events, rows);
      r.Ok? ==> && HasTag(r.value, SyncTag) && |r.value| == |rows|
                && forall i :: 0 <= i < |rows| ==>
                     r.value[i].timestamp == rows[i].timestamp && r.value[i].values == rows[i].values
  {
    var r := PlaceSyncTag(events, rows);
    if r.Ok? {
      var k := Nearest(rows, SyncTime(events).value);
      assert r.value[k].action == SyncTag;
    }
  }

  /** Only rows sharing the nearest timestamp change: every other row keeps
      the action in force at its timestamp. */
  lemma MergeCountersKeepsAsOfLabels<V>(events: seq<Event>, rows: seq<Row<V>>)
    ensures var r := MergeCounters(events, rows);
      r.Ok? ==> forall i :: 0 <= i < |rows| && r.value[i].action != SyncTag ==>
        r.value[i].action == ActionAsOf(events, rows[i].timestamp).value
  {
    var r := MergeCounters(events, rows);
    var l := LabelAsOf(events, rows);
    if r.Ok? && !HasTag(l.value, SyncTag) {
      assert r == PlaceSyncTag(events, l.value);
    }
  }

  /** The position of the first logger row whose button-down column is set. */
  function FirstButtonDown(hobo: seq<HoboRow>): (i: nat)
    ensures i <= |hobo|
    ensures forall j :: 0 <= j < i ==> !hobo[j].buttonDown
    ensures i < |hobo| ==> hobo[i].buttonDown
    decreases |hobo|
  {
    if |hobo| == 0 then 0
    else if hobo[0].buttonDown then 0
    else FirstButtonDown(hobo[1..]) + 1
  }

  /** The position of the first counter row labelled with the sync tag. */
  function FirstSyncRow<V>(rows: seq<Labelled<V>>): (i: nat)
    ensures i <= |rows|
    ensures forall j :: 0 <= j < i ==> rows[j].action != SyncTag
    ensures i < |rows| ==> rows[i].action == SyncTag
    decreases |rows|
  {
    if |rows| == 0 then 0
    else if rows[0].action == SyncTag then 0
    else FirstSyncRow(rows[1..]) + 1
  }

  /** The logger's rows re-indexed by their (possibly shifted) timestamps,
      keeping only the six data columns. With the offset, every timestamp
      moves by the same delta, chosen so that the first button-down row
      lands on the first sync-tagged counter row; either row missing raises
      `IndexError`. Without the offset the timestamps are unchanged. */
  function AlignHobo<V>(results: seq<Labelled<V>>, hobo: seq<HoboRow>, applyOffset: bool): (r: Result<seq<(int, HoboData)>>)
    ensures !applyOffset ==> r.Ok? && |r.value| == |hobo|
    ensures !applyOffset && r.Ok? ==> forall i :: 0 <= i < |hobo| ==> r.value[i] == (hobo[i].timestamp, hobo[i].data)
    ensures applyOffset ==> (r.Ok? <==> FirstButtonDown(hobo) < |hobo| && FirstSyncRow(results) < |results|)
    ensures applyOffset && r.Ok? ==> |r.value| == |hobo|
    ensures applyOffset && r.Ok? ==> forall i :: 0 <= i < |hobo| ==> r.value[i].1 == hobo[i].data
    ensures applyOffset && r.Ok? ==> forall i, j :: 0 <= i < |hobo| && 0 <= j < |hobo| ==>
      r.value[i].0 - r.value[j].0 == hobo[i].timestamp - hobo[j].timestamp
    ensures applyOffset && r.Ok? ==>
      r.value[FirstButtonDown(hobo)].0 == results[FirstSyncRow(results)].timestamp
    ensures r.Fail? ==> r.error == IndexError
  {
    if !applyOffset then Ok(Shift(hobo, 0))
    else
      var b := FirstButtonDown(hobo);
      var s := FirstSyncRow(results);
      if b == |hobo| || s == |results| then Fail(IndexError)
      else Ok(Shift(hobo, results[s].timestamp - hobo[b].timestamp))
  }

  function Shift(hobo: seq<HoboRow>, delta: int): (r: seq<(int, HoboData)>)
    ensures |r| == |hobo|
    ensures forall i :: 0 <= i < |hobo| ==> r[i] == (hobo[i].timestamp + delta, hobo[i].data)
  {
    seq(|hobo|, i requires 0 <= i < |hobo| => (hobo[i].timestamp + delta, hobo[i].data))
  }

  /** The logger rows matching one counter row. */
  function Matches<V(==)>(row: Labelled<V>, right: seq<(int, HoboData)>): (r: seq<Merged<V>>)
    ensures forall m :: m in r ==> m.timestamp == row.timestamp && m.values == row.values && m.action == row.action
    ensures forall m :: m in r ==> exists j :: 0 <= j < |right| && right[j] == (row.timestamp, m.hobo)
    ensures forall j :: 0 <= j < |right| && right[j].0 == row.timestamp ==>
      Merged(row.timestamp, row.values, row.action, right[j].1) in r
    decreases |right|
  {
    if |right| == 0 then []
    else
      var rest := Matches(row, right[1..]);
      assert forall j :: 1 <= j < |right| ==> right[j] == right[1..][j - 1];
      (if right[0].0 == row.timestamp then [Merged(row.timestamp, row.values, row.action, right[0].1)] else [])
        + rest
  }

  /** `results_df.join(hobo_df[data columns], how='inner')`: every counter
      row, in order, paired with every logger row at the same timestamp. */
  function InnerJoin<V(==)>(left: seq<Labelled<V>>, right: seq<(int, HoboData)>): (r: seq<Merged<V>>)
    ensures forall m :: m in r ==>
      (exists i :: 0 <= i < |left| && left[i] == Labelled(m.timestamp, m.values, m.action))
      && (exists j :: 0 <= j < |right| && right[j] == (m.timestamp, m.hobo))
    ensures forall i, j :: 0 <= i < |left| && 0 <= j < |right| && left[i].timestamp == right[j].0 ==>
      Merged(left[i].timestamp, left[i].values, left[i].action, right[j].1) in r
    decreases |left|
  {
    if |left| == 0 then []
    else
      var first := Matches(left[0], right);
      var rest := InnerJoin(left[1..], right);
      assert forall i :: 1 <= i < |left| ==> left[i] == left[1..][i - 1];
      first + rest
  }

  function LeftTimes<V>(left: seq<Labelled<V>>): set<int> {
    set i | 0 <= i < |left| :: left[i].timestamp
  }

  function RightTimes(right: seq<(int, HoboData)>): set<int> {
    set j | 0 <= j < |right| :: right[j].0
  }

  function JoinedTimes<V(==)>(joined: seq<Merged<V>>): set<int> {
    set m | m in joined :: m.timestamp
  }

  lemma SharedTimesJoined<V>(left: seq<Labelled<V>>, right: seq<(int, HoboData)>, t: int)
    requires t in LeftTimes(left) && t in RightTimes(right)
    ensures t in JoinedTimes(InnerJoin(left, right))
  {
    var i :| 0 <= i < |left| && left[i].timestamp == t;
    var j :| 0 <= j < |right| && right[j].0 == t;
    var m := Merged(left[i].timestamp, left[i].values, left[i].action, right[j].1);
    assert m in InnerJoin(left, right);
    assert m.timestamp == t;
  }

  lemma JoinedTimesShared<V>(left: seq<Labelled<V>>, right: seq<(int, HoboData)>, m: Merged<V>)
    requires m in InnerJoin(left, right)
    ensures m.timestamp in LeftTimes(left) && m.timestamp in RightTimes(right)
  {
    var i :| 0 <= i < |left| && left[i] == Labelled(m.timestamp, m.values, m.action);
    var j :| 0 <= j < |right| && right[j] == (m.timestamp, m.hobo);
    assert left[i].timestamp == m.timestamp;
    assert right[j].0 == m.timestamp;
  }

  /** The joined timestamps are exactly those both tables share. */
  lemma InnerJoinTimestamps<V>(left: seq<Labelled<V>>, right: seq<(int, HoboData)>)
    ensures JoinedTimes(InnerJoin(left, right)) == LeftTimes(left) * RightTimes(right)
  {
    var r := InnerJoin(left, right);
    forall t | t in LeftTimes(left) * RightTimes(right) ensures t in JoinedTimes(r) {
      SharedTimesJoined(left, right, t);
    }
    forall m | m in r ensures m.timestamp in LeftTimes(left) * RightTimes(right) {
      JoinedTimesShared(left, right, m);
    }
  }

  /** `merge_hobo`. */
  function MergeHobo<V(==)>(results: seq<Labelled<V>>, hobo: seq<HoboRow>, applyOffset: bool): (r: Result<seq<Merged<V>>>)
    ensures r.Ok? <==> AlignHobo(results, hobo, applyOffset).Ok?
    ensures r.Ok? ==> JoinedTimes(r.value) == LeftTimes(results) * RightTimes(AlignHobo(results, hobo, applyOffset).value)
  {
    var right :- AlignHobo(results, hobo, applyOffset);
    InnerJoinTimestamps(results, right);
    Ok(InnerJoin(results, right))
  }

  /** `merge` as the source writes it: the counters labelled and
      sync-marked by `merge_counters` as written, then joined with the
      logger. With the offset applied and a button-down row in the logger,
      a sync-marked counter row is always among the joined rows. */
  function Merge<V(==)>(events: seq<Event>, rows: seq<Row<V>>, hobo: seq<HoboRow>, applyOffset: bool): (r: Result<seq<Merged<V>>>)
    ensures MergeCountersAsWritten(events, rows).Fail? ==> r == Fail(MergeCountersAsWritten(events, rows).error)
    ensures var c := MergeCountersAsWritten(events, rows);
      r.Ok? <==> c.Ok? && AlignHobo(c.value, hobo, applyOffset).Ok?
    ensures var c := MergeCountersAsWritten(events, rows);
      r.Ok? ==> JoinedTimes(r.value) == RowTimes(rows) * RightTimes(AlignHobo(c.value, hobo, applyOffset).value)
    ensures !applyOffset ==> (r.Ok? <==> MergeCountersAsWritten(events, rows).Ok?)
    ensures !applyOffset && r.Ok? ==> JoinedTimes(r.value) == RowTimes(rows) * HoboTimes(hobo)
    ensures applyOffset && MergeCountersAsWritten(events, rows).Ok? && FirstButtonDown(hobo) < |hobo| ==>
      r.Ok? && exists m :: m in r.value && m.action == SyncTag
  {
    var results :- MergeCountersAsWritten(events, rows);
    JoinKeepsSyncRow(results, hobo, applyOffset);
    JoinTimesOfRows(results, rows, hobo, applyOffset);
    MergeHobo(results, hobo, applyOffset)
  }

  /** The timestamps of the counter rows. */
  function RowTimes<V>(rows: seq<Row<V>>): set<int> {
    set i | 0 <= i < |rows| :: rows[i].timestamp
  }

  /** The timestamps of the logger rows, unshifted. */
  function HoboTimes(hobo: seq<HoboRow>): set<int> {
    set j | 0 <= j < |hobo| :: hobo[j].timestamp
  }

  /** A labelling that keeps the rows' timestamps joins on the rows' own
      timestamps; without the offset, on the logger's own timestamps. */
  lemma JoinTimesOfRows<V>(results: seq<Labelled<V>>, rows: seq<Row<V>>, hobo: seq<HoboRow>, applyOffset: bool)
    requires |results| == |rows|
    requires forall i :: 0 <= i < |rows| ==> results[i].timestamp == rows[i].timestamp
    ensures LeftTimes(results) == RowTimes(rows)
    ensures !applyOffset ==> RightTimes(AlignHobo(results, hobo, applyOffset).value) == HoboTimes(hobo)
  {
    forall t | t in RowTimes(rows) ensures t in LeftTimes(results) {
      var i :| 0 <= i < |rows| && rows[i].timestamp == t;
      assert results[i].timestamp == t;
    }
    if !applyOffset {
      var right := AlignHobo(results, hobo, applyOffset).value;
      forall t | t in HoboTimes(hobo) ensures t in RightTimes(right) {
        var j :| 0 <= j < |hobo| && hobo[j].timestamp == t;
        assert right[j].0 == t;
      }
    }
  }

  /** `merge` with the corrected `merge_counters`; the same guarantees hold. */
  function MergeCorrected<V(==)>(events: seq<Event>, rows: seq<Row<V>>, hobo: seq<HoboRow>, applyOffset: bool): (r: Result<seq<Merged<V>>>)
    ensures MergeCounters(events, rows).Fail? ==> r == Fail(MergeCounters(events, rows).error)
    ensures var c := MergeCounters(events, rows);
      r.Ok? <==> c.Ok? && AlignHobo(c.value, hobo, applyOffset).Ok?
    ensures var c := MergeCounters(events, rows);
      r.Ok? ==> JoinedTimes(r.value) == RowTimes(rows) * RightTimes(AlignHobo(c.value, hobo, applyOffset).value)
    ensures !applyOffset ==> (r.Ok? <==> MergeCounters(events, rows).Ok?)
    ensures !applyOffset && r.Ok? ==> JoinedTimes(r.value) == RowTimes(rows) * HoboTimes(hobo)
    ensures applyOffset && MergeCounters(events, rows).Ok? && FirstButtonDown(hobo) < |hobo| ==>
      r.Ok? && exists m :: m in r.value && m.action == SyncTag
  {
    var results :- MergeCounters(events, rows);
    JoinKeepsSyncRow(results, hobo, applyOffset);
    JoinTimesOfRows(results, rows, hobo, applyOffset);
    MergeHobo(results, hobo, applyOffset)
  }

  /** With the offset, the first sync-tagged counter row meets the first
      button-down logger row, so it survives the inner join. */
  lemma JoinKeepsSyncRow<V>(results: seq<Labelled<V>>, hobo: seq<HoboRow>, applyOffset: bool)
    requires HasTag(results, SyncTag)
    ensures var r := MergeHobo(results, hobo, applyOffset);
      applyOffset && FirstButtonDown(hobo) < |hobo| ==>
        r.Ok? && exists m :: m in r.value && m.action == SyncTag
  {
    if applyOffset && FirstButtonDown(hobo) < |hobo| {
      var s := FirstSyncRow(results);
      var right := AlignHobo(results, hobo, applyOffset).value;
      var b := FirstButtonDown(hobo);
      assert Merged(results[s].timestamp, results[s].values, results[s].action, right[b].1)
        in InnerJoin(results, right);
    }
  }

  /** The logger of the Findings example: its button goes down at 0, and it
      has a second row at 5. */
  function ExampleLogger(): seq<HoboRow> {
    var d := HoboData(0.0, 0.0, 0.0, 0.0, 0.0, 0.0);
    [HoboRow(0, d, true), HoboRow(5, d, false)]
  }

  /** On the input of `MergeCountersRelabelsTaggedTable` the corrected
      merge keeps the as-of labels, which already carry the tag. */
  lemma CorrectedKeepsExampleLabels()
    ensures MergeCounters([Event(0, "a"), Event(6, SyncTag)], [Row(5, 0), Row(10, 0)])
      == Ok([Labelled(5, 0, "a"), Labelled(10, 0, SyncTag)])
  {
    var labelled := [Labelled(5, 0, "a"), Labelled(10, 0, SyncTag)];
    MergeCountersRelabelsTaggedTable();
    assert labelled[1].action == SyncTag;
    assert HasTag(labelled, SyncTag);
  }

  /** The example logger shifted so that its button-down row lands on the
      first sync-tagged counter row, at `t`. */
  lemma ExampleAlignment(results: seq<Labelled<int>>, t: int)
    requires |results| == 2 && results[0].timestamp == 5 && results[1].timestamp == 10
    requires results[1].action == SyncTag
    requires t == if results[0].action == SyncTag then 5 else 10
    ensures AlignHobo(results, ExampleLogger(), true)
      == Ok([(t, HoboData(0.0, 0.0, 0.0, 0.0, 0.0, 0.0)), (t + 5, HoboData(0.0, 0.0, 0.0, 0.0, 0.0, 0.0))])
  {
    var hobo := ExampleLogger();
    var d := HoboData(0.0, 0.0, 0.0, 0.0, 0.0, 0.0);
    assert FirstButtonDown(hobo) == 0;
    assert results[FirstSyncRow(results)].timestamp == t;
    var shifted := Shift(hobo, t);
    assert shifted[0] == (t, d) && shifted[1] == (t + 5, d);
    assert shifted == [(t, d), (t + 5, d)];
    assert AlignHobo(results, hobo, true) == Ok(shifted);
  }

  /** Joining two counter rows at 5 and 10 with two logger rows at `t` and
      `t + 5`. */
  lemma ExampleJoin(results: seq<Labelled<int>>, t: int)
    requires |results| == 2 && results[0].timestamp == 5 && results[1].timestamp == 10
    ensures var d := HoboData(0.0, 0.0, 0.0, 0.0, 0.0, 0.0);
      var joined := InnerJoin(results, [(t, d), (t + 5, d)]);
      && (t == 5 ==> |joined| == 2)
      && (t == 10 ==> |joined| == 1)
  {
    var d := HoboData(0.0, 0.0, 0.0, 0.0, 0.0, 0.0);
    var right: seq<(int, HoboData)> := [(t, d), (t + 5, d)];
    assert right[1..] == [(t + 5, d)] && |right[1..][1..]| == 0;
    assert results[1..] == [results[1]] && |results[1..][1..]| == 0;
    var m0 := Matches(results[0], right);
    var m1 := Matches(results[1], right);
    assert InnerJoin(results[1..], right) == m1;
    assert InnerJoin(results, right) == m0 + m1;
    assert Matches(results[0], right[1..][1..]) == [];
    assert Matches(results[1], right[1..][1..]) == [];
    if t == 5 {
      assert |Matches(results[0], right[1..])| == 0;
      assert |m0| == 1;
      assert |Matches(results[1], right[1..])| == 1;
      assert |m1| == 1;
    }
    if t == 10 {
      assert |Matches(results[0], right[1..])| == 0;
      assert |m0| == 0;
      assert |Matches(results[1], right[1..])| == 0;
      assert |m1| == 1;
    }
  }

  /** On the input of `MergeCountersRelabelsTaggedTable`, with the offset
      applied, the as-written pipeline takes the row at 5 as the first
      sync-tagged row, aligns the logger on it and joins both counter rows. */
  lemma MergeJoinsBothRows()
    ensures var r := Merge([Event(0, "a"), Event(6, SyncTag)], [Row(5, 0), Row(10, 0)], ExampleLogger(), true);
      r.Ok? && |r.value| == 2
  {
    MergeCountersRelabelsTaggedTable();
    var tagged := [Labelled(5, 0, SyncTag), Labelled(10, 0, SyncTag)];
    assert FirstSyncRow(tagged) == 0;
    ExampleAlignment(tagged, 5);
    ExampleJoin(tagged, 5);
  }

  /** On the same input, the corrected pipeline keeps the as-of labels,
      aligns the logger on the row at 10 and joins that row only. */
  lemma MergeCorrectedJoinsOneRow()
    ensures var r := MergeCorrected([Event(0, "a"), Event(6, SyncTag)], [Row(5, 0), Row(10, 0)], ExampleLogger(), true);
      r.Ok? && |r.value| == 1
  {
    CorrectedKeepsExampleLabels();
    var labelled := [Labelled(5, 0, "a"), Labelled(10, 0, SyncTag)];
    assert FirstSyncRow(labelled[1..]) == 0;
    assert FirstSyncRow(labelled) == 1;
    ExampleAlignment(labelled, 10);
    ExampleJoin(labelled, 10);
  }
}
