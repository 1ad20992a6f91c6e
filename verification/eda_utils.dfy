/**
  The pure helpers of the exploratory-analysis utilities: the clamped first
  difference of a cumulative counter, folding a list of dicts key by key,
  filling missing values, picking the duration and dispatch count out of a
  tab or summing them over its children, and the short names used when
  plotting logger columns and experiment actions.

  A Python dict is an association list with distinct keys in insertion
  order (`Grouping.Table`); a missing float (`NaN`) is `None` or `NaN`.
 */
module EdaUtils {
  import opened Outcomes
  import opened Grouping
  import Text

  // ---------------------------------------------------------------------
  // diff
  // ---------------------------------------------------------------------

  /** How much a counter went up from `a` to `b`; a drop counts as 0. */
  function Increase(a: int, b: int): (d: nat)
    ensures d >= b - a
    ensures b >= a ==> d == b - a
    ensures b < a ==> d == 0
  {
    if b - a > 0 then b - a else 0
  }

  /** `diff(s)`: element 0 is missing and element `i` is the increase from
      `s[i-1]` to `s[i]`, never negative. Writing `r[0]` of an empty array
      raises `IndexError`. */
  method Diff(s: seq<int>) returns (r: Result<seq<Option<nat>>>)
    ensures r.Fail? <==> |s| == 0
    ensures r.Fail? ==> r.error == IndexError
    ensures r.Ok? ==> |r.value| == |s| && r.value[0] == None
    ensures r.Ok? ==> forall i :: 1 <= i < |s| ==>
      r.value[i].Some? && r.value[i].value >= s[i] - s[i - 1]
      && (s[i] >= s[i - 1] ==> r.value[i].value == s[i] - s[i - 1])
      && (s[i] < s[i - 1] ==> r.value[i].value == 0)
  {
    if |s| == 0 {
      return Fail(IndexError);
    }
    var out: seq<Option<nat>> := [None];
    var i := 1;
    while i < |s|
      invariant 1 <= i <= |s|
      invariant |out| == i && out[0] == None
      invariant forall j :: 1 <= j < i ==> out[j] == Some(Increase(s[j - 1], s[j]))
    {
      out := out + [Some(Increase(s[i - 1], s[i]))];
      i := i + 1;
    }
    forall j | 1 <= j < |s|
      ensures out[j].Some? && out[j].value >= s[j] - s[j - 1]
      ensures s[j] >= s[j - 1] ==> out[j].value == s[j] - s[j - 1]
      ensures s[j] < s[j - 1] ==> out[j].value == 0
    {
      assert out[j] == Some(Increase(s[j - 1], s[j]));
    }
    return Ok(out);
  }

  /** The increases of a counter, added up. */
  function TotalIncrease(s: seq<int>): nat
    decreases |s|
  {
    if |s| < 2 then 0 else TotalIncrease(s[..|s| - 1]) + Increase(s[|s| - 2], s[|s| - 1])
  }

  predicate NonDecreasing(s: seq<int>) {
    forall i :: 1 <= i < |s| ==> s[i - 1] <= s[i]
  }

  /** The clamped differences of a counter add up to at least its net
      change, and to exactly its net change if and only if it never drops. */
  lemma {:induction false} TotalIncreaseBound(s: seq<int>)
    requires |s| > 0
    ensures TotalIncrease(s) >= s[|s| - 1] - s[0]
    ensures TotalIncrease(s) == s[|s| - 1] - s[0] <==> NonDecreasing(s)
    decreases |s|
  {
    if |s| >= 2 {
      var front := s[..|s| - 1];
      TotalIncreaseBound(front);
      assert front[|front| - 1] == s[|s| - 2] && front[0] == s[0];
      if NonDecreasing(s) {
        assert NonDecreasing(front) by {
          forall i | 1 <= i < |front| ensures front[i - 1] <= front[i] {
            assert s[i - 1] <= s[i];
          }
        }
      }
      if NonDecreasing(front) && s[|s| - 2] <= s[|s| - 1] {
        assert NonDecreasing(s) by {
          forall i | 1 <= i < |s| ensures s[i - 1] <= s[i] {
            if i < |s| - 1 {
              assert front[i - 1] <= front[i];
            }
          }
        }
      }
    }
  }

  // ---------------------------------------------------------------------
  // reduce_keys
  // ---------------------------------------------------------------------

  /** The `(key, value)` pairs of a list of dicts, dict after dict. */
  function Items<V>(ds: seq<Table<V>>): seq<(string, V)>
    decreases |ds|
  {
    if |ds| == 0 then [] else Items(ds[..|ds| - 1]) + ds[|ds| - 1]
  }

  function ItemKey<V>(p: (string, V)): string {
    p.0
  }

  /** `reduce_keys(fn, ds)`: starting from an empty `defaultdict` whose
      default is `zero`, every `(k, v)` of every dict, in order, replaces
      the entry under `k` by `fn(entry, v)`. */
  function ReduceKeys<V>(fn: (V, V) -> V, ds: seq<Table<V>>, zero: V): (r: Table<V>)
    ensures DistinctKeys(r)
  {
    GroupFold(Items(ds), ItemKey, (p: (string, V)) => zero, (acc: V, p: (string, V)) => fn(acc, p.1))
  }

  /** The `default_type` argument of `reduce_keys`, which the function
      passes to `type` to get the factory of its `defaultdict`: an instance
      of a number type, whose type called with no argument gives `zero`
      (`type(1)() == 0`), or a type object such as `int`, whose type is
      `type`, and calling `type()` raises `TypeError`. */
  datatype DefaultArg<V> = Instance(zero: V) | TypeObject

  /** `reduce_keys(fn, ds, default_type)` as written: with an instance the
      default is that type's zero; with a type object the factory is
      `type`, so the first key, which is always missing, raises. */
  function ReduceKeysAsWritten<V>(fn: (V, V) -> V, ds: seq<Table<V>>, default: DefaultArg<V>): (r: Result<Table<V>>)
    ensures default.Instance? ==> r == Ok(ReduceKeys(fn, ds, default.zero))
    ensures default.TypeObject? ==> (r.Ok? <==> |Items(ds)| == 0)
    ensures r.Fail? ==> r.error == TypeError
    ensures r.Ok? ==> DistinctKeys(r.value)
  {
    match default
    case Instance(zero) => Ok(ReduceKeys(fn, ds, zero))
    case TypeObject => if |Items(ds)| == 0 then Ok([]) else Fail(TypeError)
  }

  /** `test_reduce_keys` passes `default_type=int`, a type object, so the
      call raises `TypeError` before any sum is formed. */
  lemma ReduceKeysTestRaises()
    ensures ReduceKeysAsWritten(Add, [[("a", 1)], [("a", 1), ("b", 3)]], TypeObject) == Fail(TypeError)
  {
    var ds: seq<Table<int>> := [[("a", 1)], [("a", 1), ("b", 3)]];
    assert ds[..1] == [ds[0]] && ds[..1][..0] == [];
    assert |Items(ds)| == 3;
  }

  /** The values the dicts hold under `k`, dict after dict. */
  function ValuesOf<V>(ds: seq<Table<V>>, k: string): seq<V>
    decreases |ds|
  {
    if |ds| == 0 then []
    else ValuesOf(ds[..|ds| - 1], k) + match Lookup(ds[|ds| - 1], k) case Some(v) => [v] case None => []
  }

  /** `functools.reduce(fn, vs, zero)`. */
  function Fold<V>(fn: (V, V) -> V, zero: V, vs: seq<V>): V
    decreases |vs|
  {
    if |vs| == 0 then zero else fn(Fold(fn, zero, vs[..|vs| - 1]), vs[|vs| - 1])
  }

  function Values<V>(ps: seq<(string, V)>): (vs: seq<V>)
    ensures |vs| == |ps|
    ensures forall i :: 0 <= i < |ps| ==> vs[i] == ps[i].1
  {
    seq(|ps|, i requires 0 <= i < |ps| => ps[i].1)
  }

  lemma {:induction false} MembersAppend<C>(a: seq<C>, b: seq<C>, key: C -> string, k: string)
    ensures Members(a + b, key, k) == Members(a, key, k) + Members(b, key, k)
    decreases |b|
  {
    if |b| > 0 {
      assert (a + b)[..|a + b| - 1] == a + b[..|b| - 1];
      assert (a + b)[|a + b| - 1] == b[|b| - 1];
      MembersAppend(a, b[..|b| - 1], key, k);
      var last := b[|b| - 1];
      var tail := if key(last) == k then [last] else [];
      assert Members(a + b, key, k) == Members(a + b[..|b| - 1], key, k) + tail;
      assert Members(b, key, k) == Members(b[..|b| - 1], key, k) + tail;
    } else {
      assert a + b == a;
    }
  }

  /** In a dict, the pairs under `k` are the one `Lookup` finds, if any. */
  lemma {:induction false} MembersOfDict<V>(d: Table<V>, k: string)
    requires DistinctKeys(d)
    ensures Values(Members(d, ItemKey, k)) == match Lookup(d, k) case Some(v) => [v] case None => []
    decreases |d|
  {
    if |d| > 0 {
      var front := d[..|d| - 1];
      MembersOfDict(front, k);
      var f := Find(front, k);
      if f < |front| {
        FindIs(d, k, f);
      } else {
        FindIs(d, k, if d[|d| - 1].0 == k then |d| - 1 else |d|);
      }
    }
  }

  lemma {:induction false} AccumulateFold<V>(fn: (V, V) -> V, zero: V, ps: seq<(string, V)>)
    ensures Accumulate(zero, ps, (acc: V, p: (string, V)) => fn(acc, p.1)) == Fold(fn, zero, Values(ps))
    decreases |ps|
  {
    if |ps| > 0 {
      AccumulateFold(fn, zero, ps[..|ps| - 1]);
      assert Values(ps)[..|ps| - 1] == Values(ps[..|ps| - 1]);
    }
  }

  lemma {:induction false} MembersOfItems<V>(ds: seq<Table<V>>, k: string)
    requires forall i :: 0 <= i < |ds| ==> DistinctKeys(ds[i])
    ensures Values(Members(Items(ds), ItemKey, k)) == ValuesOf(ds, k)
    decreases |ds|
  {
    if |ds| > 0 {
      var front := ds[..|ds| - 1];
      var last := ds[|ds| - 1];
      MembersOfItems(front, k);
      MembersAppend(Items(front), last, ItemKey, k);
      MembersOfDict(last, k);
      var a := Members(Items(front), ItemKey, k);
      var b := Members(last, ItemKey, k);
      assert Values(a + b) == Values(a) + Values(b);
    }
  }

  /** Every key of every dict, and only those, is in the result, and its
      value is `fn` folded over that key's values, dict after dict, from
      the default. */
  lemma ReduceKeysValue<V>(fn: (V, V) -> V, ds: seq<Table<V>>, zero: V, k: string)
    requires forall i :: 0 <= i < |ds| ==> DistinctKeys(ds[i])
    ensures Lookup(ReduceKeys(fn, ds, zero), k)
      == if |ValuesOf(ds, k)| == 0 then None else Some(Fold(fn, zero, ValuesOf(ds, k)))
  {
    var add := (acc: V, p: (string, V)) => fn(acc, p.1);
    var init := (p: (string, V)) => zero;
    GroupFoldLookup(Items(ds), ItemKey, init, add, k);
    MembersOfItems(ds, k);
    var ms := Members(Items(ds), ItemKey, k);
    AccumulateFold(fn, zero, ms);
    if |ms| > 0 {
      assert init(ms[0]) == zero;
    }
  }

  function Add(a: int, b: int): int {
    a + b
  }

  /** `test_reduce_keys` with an int instance as `default_type`, as the
      test intends: `[{'a': 1}, {'a': 1, 'b': 3}]` summed key by key equals
      `{'a': 2, 'b': 3}` as Python compares dicts, key by key. */
  lemma ReduceKeysSumExample(k: string)
    ensures var r := ReduceKeysAsWritten(Add, [[("a", 1)], [("a", 1), ("b", 3)]], Instance(0));
      r.Ok? && Lookup(r.value, k) == Lookup([("a", 2), ("b", 3)], k)
  {
    var ds: seq<Table<int>> := [[("a", 1)], [("a", 1), ("b", 3)]];
    assert DistinctKeys(ds[0]) && DistinctKeys(ds[1]);
    ReduceKeysValue(Add, ds, 0, k);
    ExampleValues(k);
    ExampleLookup(k);
    ExampleFolds();
  }

  lemma ExampleFolds()
    ensures Fold(Add, 0, [1, 1]) == 2 && Fold(Add, 0, [3]) == 3
  {
    assert [1, 1][..1] == [1];
    assert [1][..0] == [];
    assert [3][..0] == [];
  }

  lemma ExampleLookup(k: string)
    ensures Lookup([("a", 2), ("b", 3)], k) == if k == "a" then Some(2) else if k == "b" then Some(3) else None
  {
    var empty: Table<int> := [];
    LookupCons(("a", 2), [("b", 3)], k);
    LookupCons(("b", 3), empty, k);
  }

  lemma ExampleValues(k: string)
    ensures ValuesOf([[("a", 1)], [("a", 1), ("b", 3)]], k)
         == if k == "a" then [1, 1] else if k == "b" then [3] else []
  {
    var d0: Table<int> := [("a", 1)];
    var d1: Table<int> := [("a", 1), ("b", 3)];
    var empty: Table<int> := [];
    LookupCons(("a", 1), empty, k);
    LookupCons(("a", 1), [("b", 3)], k);
    LookupCons(("b", 3), empty, k);
    assert Lookup(empty, k) == None;
    var ds := [d0, d1];
    assert ds[..1] == [d0] && [d0][..0] == [];
  }

  // ---------------------------------------------------------------------
  // fillna_it
  // ---------------------------------------------------------------------

  /** `fillna_it(l, v)`: each missing element (`e != e`) becomes `v`, every
      other element is kept. */
  function FillNa<T>(l: seq<Option<T>>, v: T): (r: seq<T>)
    ensures |r| == |l|
    ensures forall i :: 0 <= i < |l| ==> r[i] == match l[i] case None => v case Some(e) => e
  {
    seq(|l|, i requires 0 <= i < |l| => match l[i] case None => v case Some(e) => e)
  }

  function Present<T>(l: seq<T>): (r: seq<Option<T>>)
    ensures |r| == |l|
    ensures forall i :: 0 <= i < |l| ==> r[i] == Some(l[i])
  {
    seq(|l|, i requires 0 <= i < |l| => Some(l[i]))
  }

  /** Filling leaves nothing to fill: a second fill, with any value, changes
      nothing, and a list with nothing missing is returned as it is. */
  lemma FillNaIdempotent<T>(l: seq<Option<T>>, v: T, w: T)
    ensures FillNa(Present(FillNa(l, v)), w) == FillNa(l, v)
    ensures Present(FillNa(Present(FillNa(l, v)), w)) == Present(FillNa(l, v))
  {
  }

  // ---------------------------------------------------------------------
  // extract_dur_disp_tab, extract_ctr_children_sum
  // ---------------------------------------------------------------------

  predicate IsFigure(k: string) {
    k == "dispatchCount" || k == "duration"
  }

  lemma LookupCons<V>(x: (string, V), t: Table<V>, k: string)
    ensures Lookup([x] + t, k) == if x.0 == k then Some(x.1) else Lookup(t, k)
  {
    assert ([x] + t)[1..] == t;
  }

  /** `extract_dur_disp_tab(doc)`: the entries under `dispatchCount` and
      `duration`, in their order, and nothing else. */
  function ExtractDurDisp<V>(doc: Table<V>): (r: Table<V>)
    ensures forall k :: Lookup(r, k) == if IsFigure(k) then Lookup(doc, k) else None
    ensures forall i :: 0 <= i < |r| ==> IsFigure(r[i].0)
    ensures |r| <= |doc|
    decreases |doc|
  {
    if |doc| == 0 then []
    else
      var rest := ExtractDurDisp(doc[1..]);
      var r := if IsFigure(doc[0].0) then [doc[0]] + rest else rest;
      assert forall k :: Lookup(r, k) == if IsFigure(k) then Lookup(doc, k) else None by {
        forall k ensures Lookup(r, k) == if IsFigure(k) then Lookup(doc, k) else None {
          LookupCons(doc[0], doc[1..], k);
          assert doc == [doc[0]] + doc[1..];
          if IsFigure(doc[0].0) {
            LookupCons(doc[0], rest, k);
          }
        }
      }
      r
  }

  /** Extracting twice is extracting once. */
  lemma {:induction false} ExtractDurDispIdempotent<V>(doc: Table<V>)
    ensures ExtractDurDisp(ExtractDurDisp(doc)) == ExtractDurDisp(doc)
    decreases |doc|
  {
    if |doc| > 0 {
      ExtractDurDispIdempotent(doc[1..]);
      var rest := ExtractDurDisp(doc[1..]);
      if IsFigure(doc[0].0) {
        assert ([doc[0]] + rest)[0] == doc[0];
        assert ([doc[0]] + rest)[1..] == rest;
      }
    }
  }

  /** A float that may be `NaN`. */
  datatype Sample = NaN | Num(value: int)

  /** `default`: both figures `NaN`. */
  const NoChildren: Table<Sample> := [("dispatchCount", NaN), ("duration", NaN)]

  function AsSamples(t: Table<int>): (r: Table<Sample>)
    ensures |r| == |t|
    ensures forall i :: 0 <= i < |t| ==> r[i] == (t[i].0, Num(t[i].1))
  {
    seq(|t|, i requires 0 <= i < |t| => (t[i].0, Num(t[i].1)))
  }

  function Extracted(chs: seq<Table<int>>): (r: seq<Table<int>>)
    ensures |r| == |chs|
    ensures forall i :: 0 <= i < |chs| ==> r[i] == ExtractDurDisp(chs[i])
  {
    seq(|chs|, i requires 0 <= i < |chs| => ExtractDurDisp(chs[i]))
  }

  /** `reduce_children(chs)`: the figures summed over the children, or both
      `NaN` when no child has either figure (an empty dict is false). A
      child is given by its numeric fields. */
  function ChildrenSum(chs: seq<Table<int>>): Table<Sample> {
    var summed := ReduceKeys(Add, Extracted(chs), 0);
    if |summed| == 0 then NoChildren else AsSamples(summed)
  }

  function SumOf(vs: seq<int>): int
    decreases |vs|
  {
    if |vs| == 0 then 0 else SumOf(vs[..|vs| - 1]) + vs[|vs| - 1]
  }

  lemma {:induction false} FoldAddIsSum(vs: seq<int>)
    ensures Fold(Add, 0, vs) == SumOf(vs)
    decreases |vs|
  {
    if |vs| > 0 {
      FoldAddIsSum(vs[..|vs| - 1]);
    }
  }

  lemma AsSamplesLookup(t: Table<int>, k: string)
    ensures Lookup(AsSamples(t), k) == match Lookup(t, k) case Some(v) => Some(Num(v)) case None => None
  {
    FindIs(AsSamples(t), k, Find(t, k));
  }

  /** The figures of the children with at least one figure: each figure is
      present exactly when some child has it, and is then the sum over the
      children that have it; a tab with no child holding either figure gets
      both as `NaN`. */
  lemma ChildrenSumValue(chs: seq<Table<int>>, k: string)
    requires forall i :: 0 <= i < |chs| ==> DistinctKeys(chs[i])
    ensures var r := ChildrenSum(chs);
      && (|ValuesOf(chs, "dispatchCount")| == 0 && |ValuesOf(chs, "duration")| == 0 ==> r == NoChildren)
      && (|ValuesOf(chs, "dispatchCount")| + |ValuesOf(chs, "duration")| > 0 ==>
            Lookup(r, k) == if IsFigure(k) && |ValuesOf(chs, k)| > 0 then Some(Num(SumOf(ValuesOf(chs, k)))) else None)
  {
    if |ValuesOf(chs, "dispatchCount")| == 0 && |ValuesOf(chs, "duration")| == 0 {
      ChildrenSumNone(chs);
    } else {
      ChildrenSumSome(chs, k);
    }
  }

  lemma ChildrenSumNone(chs: seq<Table<int>>)
    requires forall i :: 0 <= i < |chs| ==> DistinctKeys(chs[i])
    requires |ValuesOf(chs, "dispatchCount")| == 0 && |ValuesOf(chs, "duration")| == 0
    ensures ChildrenSum(chs) == NoChildren
  {
    var summed := ReduceKeys(Add, Extracted(chs), 0);
    if |summed| > 0 {
      var j := summed[0].0;
      SummedLookup(chs, j);
      FindIs(summed, j, 0);
    }
  }

  lemma ChildrenSumSome(chs: seq<Table<int>>, k: string)
    requires forall i :: 0 <= i < |chs| ==> DistinctKeys(chs[i])
    requires |ValuesOf(chs, "dispatchCount")| + |ValuesOf(chs, "duration")| > 0
    ensures Lookup(ChildrenSum(chs), k)
      == if IsFigure(k) && |ValuesOf(chs, k)| > 0 then Some(Num(SumOf(ValuesOf(chs, k)))) else None
  {
    var summed := ReduceKeys(Add, Extracted(chs), 0);
    SummedLookup(chs, k);
    AsSamplesLookup(summed, k);
    var j := if |ValuesOf(chs, "dispatchCount")| > 0 then "dispatchCount" else "duration";
    SummedLookup(chs, j);
    assert |summed| > 0;
  }

  lemma ExtractedDistinct(chs: seq<Table<int>>)
    requires forall i :: 0 <= i < |chs| ==> DistinctKeys(chs[i])
    ensures forall i :: 0 <= i < |chs| ==> DistinctKeys(Extracted(chs)[i])
  {
    forall i | 0 <= i < |chs| ensures DistinctKeys(Extracted(chs)[i]) {
      ExtractKeepsDistinct(chs[i]);
    }
  }

  /** Summing the extracted children: a figure some child has is the sum
      over those children; nothing else is present. */
  lemma SummedLookup(chs: seq<Table<int>>, k: string)
    requires forall i :: 0 <= i < |chs| ==> DistinctKeys(chs[i])
    ensures Lookup(ReduceKeys(Add, Extracted(chs), 0), k)
      == if IsFigure(k) && |ValuesOf(chs, k)| > 0 then Some(SumOf(ValuesOf(chs, k))) else None
  {
    ExtractedDistinct(chs);
    ExtractedValues(chs, k);
    ReduceKeysValue(Add, Extracted(chs), 0, k);
    FoldAddIsSum(ValuesOf(Extracted(chs), k));
  }

  lemma {:induction false} ExtractKeepsDistinct<V>(doc: Table<V>)
    requires DistinctKeys(doc)
    ensures DistinctKeys(ExtractDurDisp(doc))
    decreases |doc|
  {
    if |doc| > 0 {
      ExtractKeepsDistinct(doc[1..]);
      var rest := ExtractDurDisp(doc[1..]);
      if IsFigure(doc[0].0) {
        assert Lookup(rest, doc[0].0) == None by {
          FindIs(doc[1..], doc[0].0, |doc[1..]|);
        }
        assert Find(rest, doc[0].0) == |rest|;
      }
    }
  }

  lemma {:induction false} ExtractedValues(chs: seq<Table<int>>, k: string)
    ensures ValuesOf(Extracted(chs), k) == if IsFigure(k) then ValuesOf(chs, k) else []
    decreases |chs|
  {
    if |chs| > 0 {
      ExtractedValues(chs[..|chs| - 1], k);
      assert Extracted(chs)[..|chs| - 1] == Extracted(chs[..|chs| - 1]);
    }
  }

  /** `extract_ctr_children_sum(doc)`: every tab's children summed, under
      the tab's key; a tab without `children` raises `KeyError`. */
  function ExtractCtrChildrenSum(doc: Table<Option<seq<Table<int>>>>): (r: Result<Table<Table<Sample>>>)
    ensures r.Fail? <==> exists i :: 0 <= i < |doc| && doc[i].1.None?
    ensures r.Fail? ==> r.error == KeyError
    ensures r.Ok? ==> |r.value| == |doc| && forall i :: 0 <= i < |doc| ==>
      r.value[i] == (doc[i].0, ChildrenSum(doc[i].1.value))
    decreases |doc|
  {
    if |doc| == 0 then Ok([])
    else
      var rest := ExtractCtrChildrenSum(doc[1..]);
      assert forall i :: 1 <= i < |doc| ==> doc[1..][i - 1] == doc[i];
      if doc[0].1.None? then Fail(KeyError)
      else if rest.Fail? then Fail(rest.error)
      else Ok([(doc[0].0, ChildrenSum(doc[0].1.value))] + rest.value)
  }

  // ---------------------------------------------------------------------
  // rn_hobo2, concat_simult_acts, match_site_abbrev
  // ---------------------------------------------------------------------

  /** `rn_hobo2(s)`: a name ending in "yy" loses its last letter; any other
      has '/' replaced by '_' and is capitalised. */
  function RnHobo2(s: string): (r: string)
    ensures Text.IsSuffix("yy", s) ==> r + "y" == s
    ensures !Text.IsSuffix("yy", s) ==> |r| == |s| && '/' !in r
    ensures !Text.IsSuffix("yy", s) && |s| > 0 ==> !Text.IsAsciiLower(r[0])
    ensures !Text.IsSuffix("yy", s) ==> forall i :: 1 <= i < |s| ==> !Text.IsAsciiUpper(r[i])
    ensures !Text.IsSuffix("yy", s) ==> r == Text.Capitalize(Text.ReplaceChar(s, '/', '_'))
  {
    if Text.IsSuffix("yy", s) then
      assert s == s[..|s| - 1] + "y";
      s[..|s| - 1]
    else
      Text.Capitalize(Text.ReplaceChar(s, '/', '_'))
  }

  /** Outside the "yy" case the new name is already capitalised, and it
      differs from the header with '/' replaced by '_' in letter case only. */
  lemma RnHobo2CaseOnly(s: string)
    ensures !Text.IsSuffix("yy", s) ==> Text.Capitalize(RnHobo2(s)) == RnHobo2(s)
    ensures !Text.IsSuffix("yy", s) ==> Text.Lower(RnHobo2(s)) == Text.Lower(Text.ReplaceChar(s, '/', '_'))
  {
    if !Text.IsSuffix("yy", s) {
      var r := RnHobo2(s);
      var u := Text.ReplaceChar(s, '/', '_');
      assert forall i :: 0 <= i < |r| ==> Text.LowerChar(r[i]) == Text.LowerChar(u[i]);
      assert Text.Lower(r) == Text.Lower(u);
      var c := Text.Capitalize(r);
      assert forall i :: 0 <= i < |r| ==> c[i] == r[i];
    }
  }

  /** `concat_simult_acts(ss)`: one action is returned as it is, several are
      joined with " & ". */
  function ConcatSimultActs(ss: seq<string>): (r: string)
    ensures |ss| > 0 ==> Text.IsPrefix(ss[0], r) && Text.IsSuffix(ss[|ss| - 1], r)
    ensures |ss| > 0 ==> |r| == Lengths(ss) + 3 * (|ss| - 1)
  {
    if |ss| == 1 then ss[0]
    else if |ss| == 0 then Text.Join(ss, " & ")
    else JoinShape(ss, " & "); Text.Join(ss, " & ")
  }

  /** The single-action case agrees with the join, so the result is always
      the " & "-join of the actions: it starts with the first, ends with the
      last, and is as long as all of them and the separators together. */
  lemma ConcatSimultActsIsJoin(ss: seq<string>)
    ensures ConcatSimultActs(ss) == Text.Join(ss, " & ")
    ensures |ss| > 0 ==> Text.IsPrefix(ss[0], ConcatSimultActs(ss))
    ensures |ss| > 0 ==> Text.IsSuffix(ss[|ss| - 1], ConcatSimultActs(ss))
    ensures |ss| > 0 ==> |ConcatSimultActs(ss)| == Lengths(ss) + 3 * (|ss| - 1)
  {
    if |ss| > 0 {
      JoinShape(ss, " & ");
    }
  }

  function Lengths(ss: seq<string>): nat
    decreases |ss|
  {
    if |ss| == 0 then 0 else |ss[0]| + Lengths(ss[1..])
  }

  lemma {:induction false} JoinShape(ss: seq<string>, sep: string)
    requires |ss| > 0
    ensures Text.IsPrefix(ss[0], Text.Join(ss, sep))
    ensures Text.IsSuffix(ss[|ss| - 1], Text.Join(ss, sep))
    ensures |Text.Join(ss, sep)| == Lengths(ss) + |sep| * (|ss| - 1)
    decreases |ss|
  {
    if |ss| > 1 {
      JoinShape(ss[1..], sep);
      var rest := Text.Join(ss[1..], sep);
      assert Text.Join(ss, sep) == ss[0] + sep + rest;
      assert (ss[0] + sep + rest)[..|ss[0]|] == ss[0];
      assert ss[1..][|ss[1..]| - 1] == ss[|ss| - 1];
      SuffixExtends(ss[|ss| - 1], ss[0] + sep, rest);
    }
  }

  lemma SuffixExtends(p: string, front: string, s: string)
    requires Text.IsSuffix(p, s)
    ensures Text.IsSuffix(p, front + s)
  {
    var whole := front + s;
    assert whole[|whole| - |p|..] == s[|s| - |p|..];
  }

  /** `match_site_abbrev(s)`. */
  function MatchSiteAbbrev(s: string): (r: string)
    ensures Text.Contains(s, "addons.mozilla.org") ==> r == "AMO"
    ensures !Text.Contains(s, "addons.mozilla.org") && Text.Contains(s, "mozilla.org") ==> r == "Moz"
    ensures !Text.Contains(s, "mozilla.org") && Text.Contains(s, "Fortnite") ==> r == "Fortnite"
    ensures !Text.Contains(s, "mozilla.org") && !Text.Contains(s, "Fortnite") && Text.Contains(s, "twitch.tv") ==>
      r == "twitch.tv"
    ensures !Text.Contains(s, "mozilla.org") && !Text.Contains(s, "Fortnite") && !Text.Contains(s, "twitch.tv") ==>
      r == s
  {
    if Text.Contains(s, "addons.mozilla.org") then AddonsHostIsMozillaHost(s); "AMO"
    else if Text.Contains(s, "mozilla.org") then "Moz"
    else if Text.Contains(s, "Fortnite") then "Fortnite"
    else if Text.Contains(s, "twitch.tv") then "twitch.tv"
    else s
  }

  /** The add-on store test must come first: every add-on store address
      also contains "mozilla.org", so the other order would never answer
      "AMO". */
  lemma AddonsHostIsMozillaHost(s: string)
    requires Text.Contains(s, "addons.mozilla.org")
    ensures Text.Contains(s, "mozilla.org")
  {
    var j :| 0 <= j <= |s| && Text.OccursAt(s, "addons.mozilla.org", j);
    assert s[j + 7..j + 18] == "addons.mozilla.org"[7..];
    assert Text.OccursAt(s, "mozilla.org", j + 7);
  }

  lemma NotContainsLonger(s: string, sub: string)
    requires |s| < |sub|
    ensures !Text.Contains(s, sub)
  {
  }

  /** An abbreviation is a fixed point: abbreviating twice is abbreviating
      once. */
  lemma MatchSiteAbbrevIdempotent(s: string)
    ensures MatchSiteAbbrev(MatchSiteAbbrev(s)) == MatchSiteAbbrev(s)
  {
    var r := MatchSiteAbbrev(s);
    NotContainsLonger("AMO", "addons.mozilla.org");
    NotContainsLonger("AMO", "mozilla.org");
    NotContainsLonger("Moz", "addons.mozilla.org");
    NotContainsLonger("Moz", "mozilla.org");
    NotContainsLonger("Moz", "Fortnite");
    NotContainsLonger("Moz", "twitch.tv");
    NotContainsLonger("Fortnite", "addons.mozilla.org");
    NotContainsLonger("Fortnite", "mozilla.org");
    NotContainsLonger("twitch.tv", "addons.mozilla.org");
    NotContainsLonger("twitch.tv", "mozilla.org");
    assert Text.OccursAt("Fortnite", "Fortnite", 0);
    assert Text.OccursAt("twitch.tv", "twitch.tv", 0);
    assert !Text.Contains("twitch.tv", "Fortnite") by {
      assert !Text.OccursAt("twitch.tv", "Fortnite", 0) by { assert "twitch.tv"[0] != "Fortnite"[0]; }
      assert !Text.OccursAt("twitch.tv", "Fortnite", 1) by { assert "twitch.tv"[1] != "Fortnite"[0]; }
    }
  }
}
