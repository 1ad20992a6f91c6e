/**
  Grouping a list into a keyed table, the shape of the per-tab loop of the
  performance-counter snapshot: for each element, find the entry under its
  key (creating it from the element when absent) and fold the element into
  it. A JavaScript object or Python dict with string keys is an association
  list whose keys are distinct; no contract depends on the order of the
  entries, since Python 2 dicts are unordered and JavaScript lists
  integer-like keys first.

  Next to the loop itself (`GroupFold`) stands an independent description of
  each entry (`Members` and `Accumulate`), and the lemmas connecting the two:
  the entry under a key is the fold of exactly the elements with that key,
  and a measure that the fold adds up is conserved from the list to the table.
 */
module Grouping {
  import opened Outcomes

  type Table<T> = seq<(string, T)>

  predicate DistinctKeys<T>(t: Table<T>) {
    forall i, j :: 0 <= i < j < |t| ==> t[i].0 != t[j].0
  }

  /** The position of key `k`, or `|t|` when it is absent. */
  function Find<T>(t: Table<T>, k: string): (i: nat)
    ensures i <= |t|
    ensures forall j :: 0 <= j < i ==> t[j].0 != k
    ensures i < |t| ==> t[i].0 == k
    decreases |t|
  {
    if |t| == 0 then 0
    else if t[0].0 == k then 0
    else Find(t[1..], k) + 1
  }

  /** `k in t ? t[k] : undefined`. */
  function Lookup<T>(t: Table<T>, k: string): Option<T> {
    var i := Find(t, k);
    if i < |t| then Some(t[i].1) else None
  }

  /** `t[k] = v`: overwrite the entry in place, or append a new one. */
  function Put<T>(t: Table<T>, k: string, v: T): (r: Table<T>)
    ensures DistinctKeys(t) ==> DistinctKeys(r)
    ensures Lookup(r, k) == Some(v)
    ensures forall k' :: k' != k ==> Lookup(r, k') == Lookup(t, k')
    ensures Lookup(t, k).Some? ==> |r| == |t|
    ensures Lookup(t, k).None? ==> |r| == |t| + 1
  {
    var i := Find(t, k);
    var r := if i < |t| then t[i := (k, v)] else t + [(k, v)];
    assert forall j :: 0 <= j < |t| && j != i ==> r[j] == t[j];
    FindIs(r, k, i);
    assert forall k' :: k' != k ==> Lookup(r, k') == Lookup(t, k') by {
      forall k' | k' != k ensures Lookup(r, k') == Lookup(t, k') {
        var a := Find(t, k');
        if a < |t| {
          FindIs(r, k', a);
        } else {
          FindIs(r, k', |r|);
        }
      }
    }
    r
  }

  /** `Find` is determined by its contract. */
  lemma FindIs<T>(t: Table<T>, k: string, i: nat)
    requires i <= |t|
    requires forall j :: 0 <= j < i ==> t[j].0 != k
    requires i < |t| ==> t[i].0 == k
    ensures Find(t, k) == i
  {
  }

  /** The loop: each element goes into the entry under its key, created by
      `init` from the first element with that key. */
  function GroupFold<C, T>(cs: seq<C>, key: C -> string, init: C -> T, add: (T, C) -> T): (r: Table<T>)
    ensures DistinctKeys(r)
    decreases |cs|
  {
    if |cs| == 0 then []
    else
      var acc := GroupFold(cs[..|cs| - 1], key, init, add);
      var c := cs[|cs| - 1];
      var entry := match Lookup(acc, key(c)) case Some(t) => t case None => init(c);
      Put(acc, key(c), add(entry, c))
  }

  /** The elements with key `k`, in list order. */
  function Members<C>(cs: seq<C>, key: C -> string, k: string): (ms: seq<C>)
    ensures |ms| <= |cs|
    ensures forall i :: 0 <= i < |ms| ==> key(ms[i]) == k
    decreases |cs|
  {
    if |cs| == 0 then []
    else
      var last := cs[|cs| - 1];
      Members(cs[..|cs| - 1], key, k) + (if key(last) == k then [last] else [])
  }

  /** Folding `add` over `cs` from `t`, first element first. */
  function Accumulate<C, T>(t: T, cs: seq<C>, add: (T, C) -> T): T
    decreases |cs|
  {
    if |cs| == 0 then t
    else add(Accumulate(t, cs[..|cs| - 1], add), cs[|cs| - 1])
  }

  /** The entry under a key is absent exactly when no element has that key,
      and otherwise it is the fold of exactly the elements with that key,
      started from the entry `init` makes of the first of them. */
  lemma {:induction false} GroupFoldLookup<C, T>(cs: seq<C>, key: C -> string, init: C -> T,
                                                 add: (T, C) -> T, k: string)
    ensures var ms := Members(cs, key, k);
      Lookup(GroupFold(cs, key, init, add), k)
        == if |ms| == 0 then None else Some(Accumulate(init(ms[0]), ms, add))
    decreases |cs|
  {
    if |cs| > 0 {
      var front := cs[..|cs| - 1];
      var c := cs[|cs| - 1];
      GroupFoldLookup(front, key, init, add, k);
      var ms := Members(front, key, k);
      if key(c) == k {
        assert Members(cs, key, k) == ms + [c];
        if |ms| > 0 {
          assert (ms + [c])[..|ms|] == ms;
          assert (ms + [c])[0] == ms[0];
        } else {
          assert ms + [c] == [c];
          assert [c][..0] == [];
        }
      } else {
        assert Members(cs, key, k) == ms;
      }
    }
  }

  /** The keys of the elements of a list. */
  function KeysOf<C>(cs: seq<C>, key: C -> string): set<string> {
    set i | 0 <= i < |cs| :: key(cs[i])
  }

  lemma KeysOfSnoc<C>(cs: seq<C>, key: C -> string)
    requires |cs| > 0
    ensures KeysOf(cs, key) == KeysOf(cs[..|cs| - 1], key) + {key(cs[|cs| - 1])}
  {
    var front := cs[..|cs| - 1];
    forall k | k in KeysOf(cs, key) ensures k in KeysOf(front, key) + {key(cs[|cs| - 1])} {
      var i :| 0 <= i < |cs| && key(cs[i]) == k;
      if i < |front| {
        assert front[i] == cs[i];
      }
    }
    forall k | k in KeysOf(front, key) ensures k in KeysOf(cs, key) {
      var i :| 0 <= i < |front| && key(front[i]) == k;
      assert cs[i] == front[i];
    }
  }

  /** The table has an entry for exactly the keys of the list, one each: as
      many entries as distinct keys. */
  lemma {:induction false} GroupFoldKeys<C, T>(cs: seq<C>, key: C -> string, init: C -> T, add: (T, C) -> T)
    ensures forall k :: Lookup(GroupFold(cs, key, init, add), k).Some? <==> k in KeysOf(cs, key)
    ensures |GroupFold(cs, key, init, add)| == |KeysOf(cs, key)|
    decreases |cs|
  {
    if |cs| > 0 {
      var front := cs[..|cs| - 1];
      var c := cs[|cs| - 1];
      GroupFoldKeys(front, key, init, add);
      KeysOfSnoc(cs, key);
      var acc := GroupFold(front, key, init, add);
      var keys := KeysOf(front, key);
      var entry := match Lookup(acc, key(c)) case Some(t) => t case None => init(c);
      var r := Put(acc, key(c), add(entry, c));
      assert GroupFold(cs, key, init, add) == r;
      if key(c) in keys {
        assert keys + {key(c)} == keys;
        assert |r| == |acc|;
      } else {
        assert |keys + {key(c)}| == |keys| + 1;
        assert |r| == |acc| + 1;
      }
    }
  }

  /** The sum of `m` over a list. */
  function SumOver<C>(cs: seq<C>, m: C -> int): int
    decreases |cs|
  {
    if |cs| == 0 then 0 else SumOver(cs[..|cs| - 1], m) + m(cs[|cs| - 1])
  }

  /** The sum of `w` over the entries of a table. */
  function Total<T>(t: Table<T>, w: T -> int): int
    decreases |t|
  {
    if |t| == 0 then 0 else Total(t[..|t| - 1], w) + w(t[|t| - 1].1)
  }

  /** `add` adds `m` of each element to the measure `w`, and `init` starts
      every entry at 0. */
  ghost predicate Adds<C(!new), T(!new)>(init: C -> T, add: (T, C) -> T, w: T -> int, m: C -> int) {
    && (forall c :: w(init(c)) == 0)
    && (forall t, c :: w(add(t, c)) == w(t) + m(c))
  }

  lemma {:induction false} TotalUpdate<T>(t: Table<T>, i: nat, k: string, v: T, w: T -> int)
    requires i < |t|
    ensures Total(t[i := (k, v)], w) == Total(t, w) - w(t[i].1) + w(v)
    decreases |t|
  {
    var u := t[i := (k, v)];
    if i < |t| - 1 {
      assert u[..|u| - 1] == t[..|t| - 1][i := (k, v)];
      TotalUpdate(t[..|t| - 1], i, k, v, w);
    } else {
      assert u[..|u| - 1] == t[..|t| - 1];
    }
  }

  lemma TotalPut<T>(t: Table<T>, k: string, v: T, w: T -> int)
    ensures Total(Put(t, k, v), w)
      == Total(t, w) + w(v) - (match Lookup(t, k) case Some(prev) => w(prev) case None => 0)
  {
    var i := Find(t, k);
    if i < |t| {
      TotalUpdate(t, i, k, v, w);
    } else {
      assert (t + [(k, v)])[..|t|] == t;
    }
  }

  /** Conservation: when each step adds `m` of its element to the measure,
      the measure summed over the table equals `m` summed over the list. */
  lemma {:induction false} GroupFoldTotal<C(!new), T(!new)>(cs: seq<C>, key: C -> string, init: C -> T,
                                                add: (T, C) -> T, w: T -> int, m: C -> int)
    requires Adds(init, add, w, m)
    ensures Total(GroupFold(cs, key, init, add), w) == SumOver(cs, m)
    decreases |cs|
  {
    if |cs| > 0 {
      var front := cs[..|cs| - 1];
      var c := cs[|cs| - 1];
      var acc := GroupFold(front, key, init, add);
      GroupFoldTotal(front, key, init, add, w, m);
      var entry := match Lookup(acc, key(c)) case Some(t) => t case None => init(c);
      TotalPut(acc, key(c), add(entry, c), w);
    }
  }
}
