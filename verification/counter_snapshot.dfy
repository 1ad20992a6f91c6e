/**
  The newer `promiseSnapshot` of the performance-counter collector: the raw
  records `ChromeUtils.requestPerformanceMetrics()` returns are grouped into
  per-tab totals. A tab is keyed by the add-on id when the record's host
  belongs to an active extension, else by its window id; a worker without a
  usable window id is attributed to the browser window 1.

  JavaScript numbers are modelled as the integers they print as: window ids,
  pids, counter ids and counts are exact, and the sentinel compared with is
  the double nearest to 2^64 - 1, printed `18446744073709552000`. The list
  of active extensions and the list of records are parameters.
 */
module CounterSnapshot {
  import opened Outcomes
  import opened Grouping
  import Text

  /** `18446744073709552000`: the maximum unsigned 64-bit value once it has
      become a JavaScript number. */
  const WindowSentinel: nat := 18446744073709552000

  /** The window id of the browser UI document group. */
  const BrowserWindow: nat := 1

  /** An active extension: its id and its `moz-extension` host name. */
  datatype Addon = Addon(id: string, hostname: string)

  datatype MediaSizes = MediaSizes(audioSize: int, videoSize: int, resourcesSize: int)

  /** `memoryInfo`: the sizes of its plain fields and its `media` entry, if
      any (the order of the fields does not matter to a sum). */
  datatype MemoryInfo = MemoryInfo(sizes: seq<int>, media: Option<MediaSizes>)

  /** One record of `requestPerformanceMetrics()`; `items` holds the
      `count` of each of its items, and an absent window id is `None`. */
  datatype Counter = Counter(
    items: seq<int>, host: string, pid: nat, counterId: nat, windowId: Option<nat>,
    duration: int, isWorker: bool, memoryInfo: MemoryInfo, isTopLevel: bool)

  datatype Child = Child(host: string, isWorker: bool, dispatchCount: int, duration: int,
                         memory: int, counterId: string)

  datatype Tab = Tab(windowId: Option<nat>, host: string, dispatchCount: int, duration: int,
                     memory: int, children: seq<Child>)

  /** `!windowId` is false only for a present, non-zero id. */
  predicate WindowTruthy(w: Option<nat>) {
    w.Some? && w.value != 0
  }

  /** The window a record counts for: a worker whose window id is the
      sentinel, 0 or absent is moved to the browser window, and every other
      record keeps its own. */
  function EffectiveWindow(isWorker: bool, w: Option<nat>): (r: Option<nat>)
    ensures isWorker && (w == Some(WindowSentinel) || !WindowTruthy(w)) ==> r == Some(BrowserWindow)
    ensures !(isWorker && (w == Some(WindowSentinel) || !WindowTruthy(w))) ==> r == w
    ensures isWorker ==> WindowTruthy(r) && r != Some(WindowSentinel)
  {
    if isWorker && (w == Some(WindowSentinel) || !WindowTruthy(w)) then Some(BrowserWindow) else w
  }

  /** The property name a window id becomes when it indexes an object. */
  function WindowKey(w: Option<nat>): (k: string)
    ensures w.None? ==> k == "undefined"
    ensures w.Some? ==> (forall i :: 0 <= i < |k| ==> Text.IsDigit(k[i])) && Text.DigitsValue(k) == w.value
  {
    match w
    case None => "undefined"
    case Some(n) => Text.DigitsValueOfNatToString(n); Text.NatToString(n)
  }

  /** The sum of a list of integers, first to last. */
  function Sum(xs: seq<int>): int
    decreases |xs|
  {
    if |xs| == 0 then 0 else Sum(xs[..|xs| - 1]) + xs[|xs| - 1]
  }

  /** A record's dispatch count: the sum of its items' counts. */
  function DispatchCount(c: Counter): int {
    Sum(c.items)
  }

  /** A record's memory: every plain field, and the audio, video and
      resources sizes of `media`. */
  function Memory(c: Counter): int
  {
    Sum(c.memoryInfo.sizes) +
      match c.memoryInfo.media
      case None => 0
      case Some(media) => media.audioSize + media.videoSize + media.resourcesSize
  }

  /** `addonHosts`: each extension host name maps to the id of the last
      extension registered under it (`Map.set` overwrites). */
  function AddonHosts(addons: seq<Addon>): (m: map<string, string>)
    ensures forall h :: h in m <==> exists i :: 0 <= i < |addons| && addons[i].hostname == h
    ensures forall h :: h in m ==> exists i :: LastWithHost(addons, h, i) && addons[i].id == m[h]
    decreases |addons|
  {
    if |addons| == 0 then map[]
    else
      var last := addons[|addons| - 1];
      var front := addons[..|addons| - 1];
      var m := AddonHosts(front)[last.hostname := last.id];
      assert forall i :: 0 <= i < |front| ==> front[i] == addons[i];
      assert LastWithHost(addons, last.hostname, |addons| - 1);
      forall h | h in m && h != last.hostname
        ensures exists i :: LastWithHost(addons, h, i) && addons[i].id == m[h]
      {
        var i :| LastWithHost(front, h, i) && front[i].id == m[h];
        assert LastWithHost(addons, h, i);
      }
      m
  }

  /** Position `i` holds the last extension registered under host `h`. */
  predicate LastWithHost(addons: seq<Addon>, h: string, i: int) {
    && 0 <= i < |addons| && addons[i].hostname == h
    && forall j :: i < j < |addons| ==> addons[j].hostname != h
  }

  /** The property a record is grouped under: its add-on's id, else its
      window id. */
  function TabKey(hosts: map<string, string>, c: Counter): string
  {
    if c.host in hosts then hosts[c.host] else WindowKey(EffectiveWindow(c.isWorker, c.windowId))
  }

  /** A record produces a child entry when it is not top level or is a worker. */
  predicate RecordsChild(c: Counter) {
    !c.isTopLevel || c.isWorker
  }

  /** The child entry of a record, with `counterId` = pid ":" counterId. */
  function ChildOf(c: Counter): Child {
    Child(c.host, c.isWorker, DispatchCount(c), c.duration, Memory(c),
          Text.NatToString(c.pid) + ":" + Text.NatToString(c.counterId))
  }

  /** A child's counter id splits back at ':' into the record's pid and
      counter id, both in decimal. */
  lemma ChildCounterId(c: Counter)
    ensures Text.Split(ChildOf(c).counterId, ':') == [Text.NatToString(c.pid), Text.NatToString(c.counterId)]
  {
    Text.SplitJoin([Text.NatToString(c.pid), Text.NatToString(c.counterId)], ':');
  }

  /** A new tab takes its window id and host from the record that creates it. */
  function NewTab(c: Counter): Tab
  {
    Tab(EffectiveWindow(c.isWorker, c.windowId), c.host, 0, 0, 0, [])
  }

  /** One pass of the loop body on the tab a record belongs to. */
  function AddCounter(t: Tab, c: Counter): Tab
  {
    t.(dispatchCount := t.dispatchCount + DispatchCount(c),
       duration := t.duration + c.duration,
       memory := t.memory + Memory(c),
       children := if RecordsChild(c) then t.children + [ChildOf(c)] else t.children)
  }

  /** `promiseSnapshot().tabs`: one tab per key that some record is grouped
      under, and no other. */
  function Snapshot(addons: seq<Addon>, counters: seq<Counter>): (r: Table<Tab>)
    ensures DistinctKeys(r)
    ensures forall k :: Lookup(r, k).Some? <==>
      exists i :: 0 <= i < |counters| && TabKey(AddonHosts(addons), counters[i]) == k
  {
    var hosts := AddonHosts(addons);
    var key := c => TabKey(hosts, c);
    GroupFoldKeys(counters, key, NewTab, AddCounter);
    GroupFold(counters, key, NewTab, AddCounter)
  }

  /** The child entries of the records that produce one, in record order. */
  function Children(cs: seq<Counter>): (chs: seq<Child>)
    ensures |chs| <= |cs|
    ensures forall i :: 0 <= i < |cs| && RecordsChild(cs[i]) ==> ChildOf(cs[i]) in chs
    ensures forall ch :: ch in chs ==> exists i :: 0 <= i < |cs| && RecordsChild(cs[i]) && ch == ChildOf(cs[i])
    decreases |cs|
  {
    if |cs| == 0 then []
    else
      var front := cs[..|cs| - 1];
      var last := cs[|cs| - 1];
      assert forall i :: 0 <= i < |front| ==> front[i] == cs[i];
      Children(front) + if RecordsChild(last) then [ChildOf(last)] else []
  }

  /** The tab a non-empty group of records describes, computed directly. */
  function TabOf(ms: seq<Counter>): Tab
    requires |ms| > 0
  {
    Tab(EffectiveWindow(ms[0].isWorker, ms[0].windowId), ms[0].host,
        SumOver(ms, DispatchCount), SumOver(ms, (c: Counter) => c.duration), SumOver(ms, Memory),
        Children(ms))
  }

  lemma {:induction false} AccumulateTab(first: Counter, ms: seq<Counter>)
    ensures var t := Accumulate(NewTab(first), ms, AddCounter);
      && t.windowId == EffectiveWindow(first.isWorker, first.windowId) && t.host == first.host
      && t.dispatchCount == SumOver(ms, DispatchCount)
      && t.duration == SumOver(ms, (c: Counter) => c.duration)
      && t.memory == SumOver(ms, Memory)
      && t.children == Children(ms)
    decreases |ms|
  {
    if |ms| > 0 {
      AccumulateTab(first, ms[..|ms| - 1]);
    }
  }

  /** The tab under a key exists exactly when some record is grouped under
      that key; it carries the window id and host of the first such record,
      its dispatch count, duration and memory are the sums over exactly those
      records, and its children are theirs, in order. */
  lemma SnapshotTab(addons: seq<Addon>, counters: seq<Counter>, k: string)
    ensures var ms := Members(counters, c => TabKey(AddonHosts(addons), c), k);
      Lookup(Snapshot(addons, counters), k) == if |ms| == 0 then None else Some(TabOf(ms))
  {
    var key := c => TabKey(AddonHosts(addons), c);
    var ms := Members(counters, key, k);
    GroupFoldLookup(counters, key, NewTab, AddCounter, k);
    if |ms| > 0 {
      AccumulateTab(ms[0], ms);
    }
  }

  /** Conservation: the dispatch counts, durations and memory of all tabs add
      up to those of all records. */
  lemma SnapshotConservation(addons: seq<Addon>, counters: seq<Counter>)
    ensures Total(Snapshot(addons, counters), (t: Tab) => t.dispatchCount) == SumOver(counters, DispatchCount)
    ensures Total(Snapshot(addons, counters), (t: Tab) => t.duration)
         == SumOver(counters, (c: Counter) => c.duration)
    ensures Total(Snapshot(addons, counters), (t: Tab) => t.memory) == SumOver(counters, Memory)
  {
    var key := c => TabKey(AddonHosts(addons), c);
    GroupFoldTotal(counters, key, NewTab, AddCounter, (t: Tab) => t.dispatchCount, DispatchCount);
    GroupFoldTotal(counters, key, NewTab, AddCounter, (t: Tab) => t.duration, (c: Counter) => c.duration);
    GroupFoldTotal(counters, key, NewTab, AddCounter, (t: Tab) => t.memory, Memory);
  }
}
