/**
  The older `promiseSnapshot`: the same grouping as the newer collector but
  keyed by window id only, with no memory figures, and recording a child
  only for a record that is not top level (a top-level worker records none).
 */
module LegacyCounterSnapshot {
  import opened Outcomes
  import opened Grouping
  import CounterSnapshot

  /** One record of `requestPerformanceMetrics()` as the older collector reads it. */
  datatype Counter = Counter(items: seq<int>, host: string, windowId: Option<nat>, duration: int,
                             isWorker: bool, isTopLevel: bool)

  datatype Child = Child(host: string, isWorker: bool, dispatchCount: int, duration: int)

  datatype Tab = Tab(windowId: Option<nat>, host: string, dispatchCount: int, duration: int,
                     children: seq<Child>)

  function Window(c: Counter): Option<nat> {
    CounterSnapshot.EffectiveWindow(c.isWorker, c.windowId)
  }

  function DispatchCount(c: Counter): int {
    CounterSnapshot.Sum(c.items)
  }

  function Duration(c: Counter): int {
    c.duration
  }

  /** The property a record is grouped under: its (remapped) window id. */
  function TabKey(c: Counter): string {
    CounterSnapshot.WindowKey(Window(c))
  }

  predicate RecordsChild(c: Counter) {
    !c.isTopLevel
  }

  function ChildOf(c: Counter): Child {
    Child(c.host, c.isWorker, DispatchCount(c), c.duration)
  }

  function NewTab(c: Counter): Tab {
    Tab(Window(c), c.host, 0, 0, [])
  }

  function AddCounter(t: Tab, c: Counter): Tab {
    t.(dispatchCount := t.dispatchCount + DispatchCount(c),
       duration := t.duration + c.duration,
       children := if RecordsChild(c) then t.children + [ChildOf(c)] else t.children)
  }

  /** `promiseSnapshot()`, which returns the tabs object itself: one tab
      per window key that some record has, and no other. */
  function Snapshot(counters: seq<Counter>): (r: Table<Tab>)
    ensures DistinctKeys(r)
    ensures forall k :: Lookup(r, k).Some? <==> exists i :: 0 <= i < |counters| && TabKey(counters[i]) == k
  {
    GroupFoldKeys(counters, TabKey, NewTab, AddCounter);
    GroupFold(counters, TabKey, NewTab, AddCounter)
  }

  /** The child entries, in record order: one for every record that is not
      top level, so a top-level worker records none. */
  function Children(cs: seq<Counter>): (chs: seq<Child>)
    ensures |chs| <= |cs|
    ensures forall i :: 0 <= i < |cs| && !cs[i].isTopLevel ==> ChildOf(cs[i]) in chs
    ensures forall ch :: ch in chs ==> exists i :: 0 <= i < |cs| && !cs[i].isTopLevel && ch == ChildOf(cs[i])
    decreases |cs|
  {
    if |cs| == 0 then []
    else
      var front := cs[..|cs| - 1];
      var last := cs[|cs| - 1];
      assert forall i :: 0 <= i < |front| ==> front[i] == cs[i];
      Children(front) + if RecordsChild(last) then [ChildOf(last)] else []
  }

  lemma {:induction false} AccumulateTab(first: Counter, ms: seq<Counter>)
    ensures var t := Accumulate(NewTab(first), ms, AddCounter);
      && t.windowId == Window(first) && t.host == first.host
      && t.dispatchCount == SumOver(ms, DispatchCount)
      && t.duration == SumOver(ms, Duration)
      && t.children == Children(ms)
    decreases |ms|
  {
    if |ms| > 0 {
      AccumulateTab(first, ms[..|ms| - 1]);
    }
  }

  /** The tab under a window key exists exactly when some record maps to that
      window; its dispatch count and duration are the sums over exactly those
      records and its children are theirs, in order. */
  lemma SnapshotTab(counters: seq<Counter>, k: string)
    ensures var ms := Members(counters, TabKey, k);
      && (Lookup(Snapshot(counters), k).Some? <==> |ms| > 0)
      && (|ms| > 0 ==>
            Lookup(Snapshot(counters), k)
              == Some(Tab(Window(ms[0]), ms[0].host, SumOver(ms, DispatchCount), SumOver(ms, Duration),
                          Children(ms))))
  {
    var ms := Members(counters, TabKey, k);
    GroupFoldLookup(counters, TabKey, NewTab, AddCounter, k);
    if |ms| > 0 {
      AccumulateTab(ms[0], ms);
    }
  }

  /** Conservation: dispatch counts and durations of all tabs add up to
      those of all records. */
  lemma SnapshotConservation(counters: seq<Counter>)
    ensures Total(Snapshot(counters), (t: Tab) => t.dispatchCount) == SumOver(counters, DispatchCount)
    ensures Total(Snapshot(counters), (t: Tab) => t.duration) == SumOver(counters, Duration)
  {
    GroupFoldTotal(counters, TabKey, NewTab, AddCounter, (t: Tab) => t.dispatchCount, DispatchCount);
    GroupFoldTotal(counters, TabKey, NewTab, AddCounter, (t: Tab) => t.duration, Duration);
  }
}
