/**
  Timestamped records as the reducers handle them: timestamps are integers
  (microseconds), a table is a sequence of records, `sort_values('timestamp')`
  is a sort by timestamp, and the two as-of lookups the two generations of
  the reducer use to label a counter row with an experiment action.
 */
module Timeline {
  import opened Outcomes

  /** One microsecond-resolution second. */
  const Second: int := 1000000

  /** An experiment log entry: when an action started. */
  datatype Event = Event(timestamp: int, action: string)

  function EventTime(e: Event): int {
    e.timestamp
  }

  predicate SortedBy<T>(s: seq<T>, key: T -> int) {
    forall i, j :: 0 <= i < j < |s| ==> key(s[i]) <= key(s[j])
  }

  /** Inserting into a sorted sequence after every element with a smaller or
      equal key. */
  function Insert<T(==)>(x: T, s: seq<T>, key: T -> int): (r: seq<T>)
    requires SortedBy(s, key)
    ensures SortedBy(r, key)
    ensures multiset(r) == multiset(s) + multiset{x}
    ensures |r| == |s| + 1
    ensures r[0] == x || (|s| > 0 && r[0] == s[0])
    decreases |s|
  {
    if |s| == 0 then [x]
    else if key(x) < key(s[0]) then [x] + s
    else
      var rest := Insert(x, s[1..], key);
      assert s == [s[0]] + s[1..];
      [s[0]] + rest
  }

  /** `sort_values('timestamp')`: the same records, ordered by timestamp. */
  function SortBy<T(==)>(s: seq<T>, key: T -> int): (r: seq<T>)
    ensures SortedBy(r, key)
    ensures multiset(r) == multiset(s)
    ensures |r| == |s|
    decreases |s|
  {
    if |s| == 0 then []
    else
      var front := s[..|s| - 1];
      assert s == front + [s[|s| - 1]];
      Insert(s[|s| - 1], SortBy(front, key), key)
  }

  /** The position of the last event at or before `t`: the row that
      `action[timestamp <= t].iloc[-1]` reads. */
  function LastAtOrBefore(events: seq<Event>, t: int): (r: Option<nat>)
    ensures r.Some? ==> r.value < |events| && events[r.value].timestamp <= t
    ensures r.Some? ==> forall j :: r.value < j < |events| ==> events[j].timestamp > t
    ensures r.None? <==> forall j :: 0 <= j < |events| ==> events[j].timestamp > t
    decreases |events|
  {
    if |events| == 0 then None
    else if events[|events| - 1].timestamp <= t then Some(|events| - 1)
    else LastAtOrBefore(events[..|events| - 1], t)
  }

  /** The position of the first event at or after `t`: the row that
      `action[timestamp >= t].iloc[0]` reads. */
  function FirstAtOrAfter(events: seq<Event>, t: int): (r: Option<nat>)
    ensures r.Some? ==> r.value < |events| && events[r.value].timestamp >= t
    ensures r.Some? ==> forall j :: 0 <= j < r.value ==> events[j].timestamp < t
    ensures r.None? <==> forall j :: 0 <= j < |events| ==> events[j].timestamp < t
    decreases |events|
  {
    if |events| == 0 then None
    else if events[0].timestamp >= t then Some(0)
    else match FirstAtOrAfter(events[1..], t)
      case None => None
      case Some(i) => Some(i + 1)
  }

  /** Position `i` is the last event at or before `t`: every later position
      is after `t`. */
  predicate IsLastAtOrBefore(events: seq<Event>, t: int, i: int) {
    && 0 <= i < |events| && events[i].timestamp <= t
    && forall j :: i < j < |events| ==> events[j].timestamp > t
  }

  /** Position `i` is the first event at or after `t`: every earlier
      position is before `t`. */
  predicate IsFirstAtOrAfter(events: seq<Event>, t: int, i: int) {
    && 0 <= i < |events| && events[i].timestamp >= t
    && forall j :: 0 <= j < i ==> events[j].timestamp < t
  }

  /** The action in force at `t` (the newer reducer): the action of the last
      event, by position, at or before `t`; `iloc[-1]` of nothing raises
      `IndexError`. */
  function ActionAsOf(events: seq<Event>, t: int): (r: Result<string>)
    ensures r.Fail? <==> forall j :: 0 <= j < |events| ==> events[j].timestamp > t
    ensures r.Fail? ==> r.error == IndexError
    ensures r.Ok? ==> exists i :: IsLastAtOrBefore(events, t, i) && events[i].action == r.value
  {
    match LastAtOrBefore(events, t)
    case None => Fail(IndexError)
    case Some(i) => Ok(events[i].action)
  }

  /** The action of the next event at or after `t` (the older reducer): the
      action of the first event, by position, at or after `t`; `iloc[0]` of
      nothing raises `IndexError`. */
  function ActionAtOrAfter(events: seq<Event>, t: int): (r: Result<string>)
    ensures r.Fail? <==> forall j :: 0 <= j < |events| ==> events[j].timestamp < t
    ensures r.Fail? ==> r.error == IndexError
    ensures r.Ok? ==> exists i :: IsFirstAtOrAfter(events, t, i) && events[i].action == r.value
  {
    match FirstAtOrAfter(events, t)
    case None => Fail(IndexError)
    case Some(i) => Ok(events[i].action)
  }

  /** On events sorted by time, the last event at or before `t` is the
      latest one in time: no event at or before `t` is later. */
  lemma LastIsLatest(events: seq<Event>, t: int)
    requires SortedBy(events, EventTime)
    ensures var r := LastAtOrBefore(events, t);
      r.Some? ==> forall j :: 0 <= j < |events| && events[j].timestamp <= t ==>
                    events[j].timestamp <= events[r.value].timestamp
  {
    var r := LastAtOrBefore(events, t);
    if r.Some? {
      forall j | 0 <= j < |events| && events[j].timestamp <= t
        ensures events[j].timestamp <= events[r.value].timestamp
      {
        if j < r.value {
          assert EventTime(events[j]) <= EventTime(events[r.value]);
        }
      }
    }
  }

  /** On events sorted by time, the first event at or after `t` is the
      earliest one in time: no event at or after `t` is earlier. */
  lemma FirstIsEarliest(events: seq<Event>, t: int)
    requires SortedBy(events, EventTime)
    ensures var r := FirstAtOrAfter(events, t);
      r.Some? ==> forall j :: 0 <= j < |events| && events[j].timestamp >= t ==>
                    events[j].timestamp >= events[r.value].timestamp
  {
    var r := FirstAtOrAfter(events, t);
    if r.Some? {
      forall j | 0 <= j < |events| && events[j].timestamp >= t
        ensures events[j].timestamp >= events[r.value].timestamp
      {
        if j > r.value {
          assert EventTime(events[r.value]) <= EventTime(events[j]);
        }
      }
    }
  }

  /** The start of the second holding `t` (`resample('s')` bins by flooring;
      Dafny's `%` by a positive divisor floors as well). */
  function FloorSecond(t: int): (f: int)
    ensures f <= t < f + Second
    ensures f % Second == 0
  {
    t - t % Second
  }

  /** The first whole second at or after `t`. */
  function CeilSecond(t: int): (c: int)
    ensures t <= c < t + Second
    ensures c % Second == 0
  {
    FloorSecond(t + Second - 1)
  }

  /** The one-second grid from `start`, `count` points long. */
  function GridFrom(start: int, count: nat): (g: seq<int>)
    ensures |g| == count
    ensures forall i :: 0 <= i < count ==> g[i] == start + i * Second
  {
    seq(count, i requires 0 <= i < count => start + i * Second)
  }

  /** The index `resample('s').ffill(limit=1).interpolate().dropna()` leaves
      for observations from `first` to `last`. Bins are floored to the
      second; the bin holding `first` starts before any observation when
      `first` is not a whole second, so it has nothing to carry forward,
      stays empty through a forward interpolation, and is dropped. What is
      left is every whole second from `first` to `last`, in order. */
  function Grid(first: int, last: int): (g: seq<int>)
    ensures forall x :: x in g <==> x % Second == 0 && first <= x <= last
    ensures forall i :: 0 < i < |g| ==> g[i] - g[i - 1] == Second
  {
    var g := GridFrom(CeilSecond(first), GridCount(first, last));
    assert forall x :: x in g <==> x % Second == 0 && first <= x <= last by {
      forall x ensures x in g <==> x % Second == 0 && first <= x <= last {
        GridMember(first, last, x);
      }
    }
    g
  }

  /** The number of whole seconds from `first` to `last`. */
  function GridCount(first: int, last: int): nat {
    var start := CeilSecond(first);
    var end := FloorSecond(last);
    if start <= end then (end - start) / Second + 1 else 0
  }

  /** A whole second between `first` and `last` lies between the whole
      seconds that round them inwards. */
  lemma WholeSecondBounds(first: int, last: int, x: int)
    requires x % Second == 0 && first <= x <= last
    ensures CeilSecond(first) <= x <= FloorSecond(last)
  {
    var c := CeilSecond(first);
    var f := FloorSecond(last);
    assert (x - c) % Second == 0;
    assert (f - x) % Second == 0;
  }

  lemma GridMember(first: int, last: int, x: int)
    ensures x in GridFrom(CeilSecond(first), GridCount(first, last)) <==> x % Second == 0 && first <= x <= last
  {
    var g := GridFrom(CeilSecond(first), GridCount(first, last));
    if x in g {
      var i :| 0 <= i < |g| && g[i] == x;
      GridPointOnSecond(first, last, i);
    }
    if x % Second == 0 && first <= x <= last {
      var i := SecondOnGrid(first, last, x);
    }
  }

  /** Every grid point is a whole second from `first` to `last`. */
  lemma GridPointOnSecond(first: int, last: int, i: int)
    requires 0 <= i < GridCount(first, last)
    ensures var x := CeilSecond(first) + i * Second;
      x % Second == 0 && first <= x <= last
  {
    var start := CeilSecond(first);
    var end := FloorSecond(last);
    MultipleDiff(end, start);
    ExactQuotient(end - start);
    MultipleShift(start, i);
  }

  /** Every whole second from `first` to `last` is a grid point. */
  lemma SecondOnGrid(first: int, last: int, x: int) returns (i: nat)
    requires x % Second == 0 && first <= x <= last
    ensures i < GridCount(first, last) && GridFrom(CeilSecond(first), GridCount(first, last))[i] == x
  {
    var start := CeilSecond(first);
    var end := FloorSecond(last);
    WholeSecondBounds(first, last, x);
    MultipleDiff(x, start);
    MultipleDiff(end, start);
    ExactQuotient(x - start);
    ExactQuotient(end - start);
    i := (x - start) / Second;
    QuotientMonotone(x - start, end - start);
  }

  lemma MultipleDiff(a: int, b: int)
    requires a % Second == 0 && b % Second == 0
    ensures (a - b) % Second == 0
  {
  }

  lemma ExactQuotient(d: int)
    requires d % Second == 0
    ensures (d / Second) * Second == d
  {
  }

  lemma MultipleShift(start: int, i: int)
    requires start % Second == 0
    ensures (start + i * Second) % Second == 0
  {
  }

  lemma QuotientMonotone(a: int, b: int)
    requires 0 <= a <= b
    ensures 0 <= a / Second <= b / Second
  {
  }
}
