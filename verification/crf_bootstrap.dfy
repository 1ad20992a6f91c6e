/**
  The histogram arithmetic of the page-load telemetry notebook: summing a
  client's ping histograms, the estimator that removes empty bins, the
  Poisson-bootstrap weighting of every client into replicates, the merge
  `reduceByKey` applies to a replicate's weighted records, and the map that
  pairs each build with the next older one as test and control.

  Python dictionaries become Dafny maps: every value these functions build
  is a dictionary compared by content, never by insertion order. The weights
  are the integers the Poisson sampler draws, which are parameters here.
  In the notebook a client's bins are doubles: `agg_client_probe` returns
  them through `unit_density`, under a schema of integer-to-double maps.
  Here a bin's value is an exact integer, so the summation and weighting
  laws below are laws of exact arithmetic, which floating-point addition
  only approximates.
 */
module CrfBootstrap {
  import opened Outcomes

  /** A histogram: bin -> count. */
  type Hist = map<int, int>

  /** `hist.get(key, 0)`. */
  function Bin(h: Hist, k: int): int {
    if k in h then h[k] else 0
  }

  // ---------------------------------------------------------------------
  // agg_client_probe, apply_estimator
  // ---------------------------------------------------------------------

  /** A ping's histogram as `iteritems()` yields it: `(bin, count)` pairs. */
  type Items = seq<(int, int)>

  /** What `iteritems()` adds to bin `k`. */
  function ItemsBin(items: Items, k: int): int
    decreases |items|
  {
    if |items| == 0 then 0
    else
      var last := items[|items| - 1];
      ItemsBin(items[..|items| - 1], k) + (if last.0 == k then last.1 else 0)
  }

  predicate HasBin(items: Items, k: int) {
    exists j :: 0 <= j < |items| && items[j].0 == k
  }

  /** Bin `k` summed over a client's ping histograms; a missing histogram
      contributes nothing. */
  function BinTotal(pings: seq<Option<Items>>, k: int): int
    decreases |pings|
  {
    if |pings| == 0 then 0
    else
      var last := pings[|pings| - 1];
      BinTotal(pings[..|pings| - 1], k) + (if last.Some? then ItemsBin(last.value, k) else 0)
  }

  /** Some histogram among the first `n` pings has bin `k`. */
  predicate Seen(pings: seq<Option<Items>>, n: nat, k: int)
    requires n <= |pings|
  {
    exists i :: 0 <= i < n && pings[i].Some? && HasBin(pings[i].value, k)
  }

  lemma HasBinSnoc(h: Items, m: nat)
    requires m < |h|
    ensures forall k :: HasBin(h[..m + 1], k) <==> HasBin(h[..m], k) || h[m].0 == k
  {
    forall k ensures HasBin(h[..m + 1], k) <==> HasBin(h[..m], k) || h[m].0 == k {
      if HasBin(h[..m], k) {
        var j :| 0 <= j < m && h[..m][j].0 == k;
        assert h[..m + 1][j].0 == k;
      }
      if HasBin(h[..m + 1], k) && h[m].0 != k {
        var j :| 0 <= j < m + 1 && h[..m + 1][j].0 == k;
        assert h[..m][j].0 == k;
      }
      assert h[..m + 1][m].0 == h[m].0;
    }
  }

  lemma SeenNext(pings: seq<Option<Items>>, n: nat)
    requires n < |pings| && pings[n].Some?
    ensures forall k :: Seen(pings, n + 1, k) <==> Seen(pings, n, k) || HasBin(pings[n].value, k)
  {
    forall k ensures Seen(pings, n + 1, k) <==> Seen(pings, n, k) || HasBin(pings[n].value, k) {
      if Seen(pings, n + 1, k) && !Seen(pings, n, k) {
        var i :| 0 <= i < n + 1 && pings[i].Some? && HasBin(pings[i].value, k);
        assert i == n;
      }
    }
  }

  /** The summation of `agg_client_probe`: every bin of every ping is added
      into a `defaultdict(int)`. A ping that is not a histogram (`None` has
      no `iteritems`) raises, and the handler starts again from an empty
      histogram. */
  method SumPings(pings: seq<Option<Items>>) returns (agg: Hist)
    ensures (exists i :: 0 <= i < |pings| && pings[i].None?) ==> agg == map[]
    ensures (forall i :: 0 <= i < |pings| ==> pings[i].Some?) ==>
      && (forall k :: k in agg <==> Seen(pings, |pings|, k))
      && (forall k :: Bin(agg, k) == BinTotal(pings, k))
  {
    agg := map[];
    var n := 0;
    while n < |pings|
      invariant 0 <= n <= |pings|
      invariant forall i :: 0 <= i < n ==> pings[i].Some?
      invariant forall k :: k in agg <==> Seen(pings, n, k)
      invariant forall k :: Bin(agg, k) == BinTotal(pings[..n], k)
    {
      match pings[n]
      case None =>
        return map[];
      case Some(h) =>
        assert pings[..n + 1][..n] == pings[..n];
        var m := 0;
        while m < |h|
          invariant 0 <= m <= |h|
          invariant forall k :: k in agg <==> Seen(pings, n, k) || HasBin(h[..m], k)
          invariant forall k :: Bin(agg, k) == BinTotal(pings[..n], k) + ItemsBin(h[..m], k)
        {
          var (bin, count) := h[m];
          assert h[..m + 1][..m] == h[..m];
          agg := agg[bin := Bin(agg, bin) + count];
          HasBinSnoc(h, m);
          m := m + 1;
        }
        assert h[..m] == h;
        SeenNext(pings, n);
      n := n + 1;
    }
    assert pings[..n] == pings;
  }

  /** A client's bin totals, whatever order its pings arrive in: the sum
      over the pings does not depend on which comes last. */
  lemma {:induction false} BinTotalSwap(pings: seq<Option<Items>>, i: nat, k: int)
    requires i + 1 < |pings|
    ensures BinTotal(pings[..i] + [pings[i + 1], pings[i]] + pings[i + 2..], k) == BinTotal(pings, k)
    decreases |pings|
  {
    var swapped := pings[..i] + [pings[i + 1], pings[i]] + pings[i + 2..];
    if i + 2 == |pings| {
      assert swapped[..|swapped| - 1] == pings[..i] + [pings[i + 1]];
      assert swapped[..|swapped| - 1][..i] == pings[..i];
      assert pings[..|pings| - 1][..i] == pings[..i];
      assert pings[..i] + [pings[i + 1]] == pings[..i] + [pings[i + 1]];
      assert (pings[..i] + [pings[i + 1]])[..i] == pings[..i];
    } else {
      var front := pings[..|pings| - 1];
      BinTotalSwap(front, i, k);
      assert swapped[..|swapped| - 1] == front[..i] + [front[i + 1], front[i]] + front[i + 2..];
    }
  }

  /** `apply_estimator`: one added to every bin, so a histogram of counts
      has no empty bin left. */
  function ApplyEstimator(h: Hist): (r: Hist)
    ensures r.Keys == h.Keys
    ensures forall k :: k in h ==> r[k] - h[k] == 1
    ensures (forall k :: k in h ==> h[k] >= 0) ==> forall k :: k in r ==> r[k] >= 1
  {
    map k | k in h :: h[k] + 1
  }

  /** The estimator loses nothing: subtracting one from every bin gives the
      histogram back. */
  lemma EstimatorInvertible(h: Hist)
    ensures (map k | k in ApplyEstimator(h) :: ApplyEstimator(h)[k] - 1) == h
  {
    var r := ApplyEstimator(h);
    var back := map k | k in r :: r[k] - 1;
    assert back.Keys == h.Keys;
    assert forall k :: k in h ==> back[k] == h[k];
  }

  // ---------------------------------------------------------------------
  // weight_hist, sum_hist
  // ---------------------------------------------------------------------

  /** `weight_hist(w, hist)`: every bin scaled by the replicate weight. */
  function WeightHist(w: int, h: Hist): (r: Hist)
    ensures r.Keys == h.Keys
    ensures forall k :: Bin(r, k) == w * Bin(h, k)
  {
    map k | k in h :: w * h[k]
  }

  /** A weight of one leaves a histogram as it is. */
  lemma WeightHistUnit(h: Hist)
    ensures WeightHist(1, h) == h
  {
    var r := WeightHist(1, h);
    assert forall k :: k in h ==> r[k] == h[k] by {
      forall k | k in h ensures r[k] == h[k] {
        assert Bin(r, k) == 1 * Bin(h, k);
      }
    }
  }

  /** Weighting twice is weighting once by the product. */
  lemma WeightHistCompose(v: int, w: int, h: Hist)
    ensures WeightHist(v, WeightHist(w, h)) == WeightHist(v * w, h)
  {
    var a := WeightHist(v, WeightHist(w, h));
    var b := WeightHist(v * w, h);
    forall k ensures Bin(a, k) == Bin(b, k) {
      var x := Bin(h, k);
      assert Bin(a, k) == v * (w * x);
      assert Bin(b, k) == (v * w) * x;
      MulAssociates(v, w, x);
    }
    HistEqual(a, b);
  }

  lemma MulAssociates(a: int, b: int, c: int)
    ensures a * (b * c) == (a * b) * c
  {
  }

  /** The pointwise sum of the loop in `sum_hist`: one key for each key of
      either side, a missing bin counting zero. */
  function AddHists(x: Hist, y: Hist): (r: Hist)
    ensures r.Keys == x.Keys + y.Keys
    ensures forall k :: Bin(r, k) == Bin(x, k) + Bin(y, k)
  {
    map k | k in x.Keys + y.Keys :: Bin(x, k) + Bin(y, k)
  }

  /** Histograms are equal when they have the same keys and bins. */
  lemma HistEqual(a: Hist, b: Hist)
    requires a.Keys == b.Keys
    requires forall k :: Bin(a, k) == Bin(b, k)
    ensures a == b
  {
    forall k | k in a ensures a[k] == b[k] {
      assert Bin(a, k) == Bin(b, k);
    }
  }

  lemma AddHistsCommutes(x: Hist, y: Hist)
    ensures AddHists(x, y) == AddHists(y, x)
  {
    HistEqual(AddHists(x, y), AddHists(y, x));
  }

  lemma AddHistsAssociates(x: Hist, y: Hist, z: Hist)
    ensures AddHists(AddHists(x, y), z) == AddHists(x, AddHists(y, z))
  {
    HistEqual(AddHists(AddHists(x, y), z), AddHists(x, AddHists(y, z)));
  }

  /** The empty histogram (the `{}` default) adds nothing. */
  lemma AddHistsEmpty(x: Hist)
    ensures AddHists(x, map[]) == x
  {
    HistEqual(AddHists(x, map[]), x);
  }

  /** Weighting distributes over the sum: weighting a replicate's merged
      histogram is merging its weighted histograms. */
  lemma WeightDistributes(w: int, x: Hist, y: Hist)
    ensures WeightHist(w, AddHists(x, y)) == AddHists(WeightHist(w, x), WeightHist(w, y))
  {
    var a := WeightHist(w, AddHists(x, y));
    var b := AddHists(WeightHist(w, x), WeightHist(w, y));
    forall k ensures Bin(a, k) == Bin(b, k) {
      calc {
        Bin(a, k);
        w * Bin(AddHists(x, y), k);
        w * (Bin(x, k) + Bin(y, k));
        w * Bin(x, k) + w * Bin(y, k);
        Bin(b, k);
      }
    }
    HistEqual(a, b);
  }

  /** `d.get(probe, {})`. */
  function ProbeHist(hs: map<string, Hist>, probe: string): Hist {
    if probe in hs then hs[probe] else map[]
  }

  /** `sum_hist(a, b, probe)`: the probe's histograms of both sides added
      bin by bin; a side without the probe counts as empty. */
  function SumHist(a: map<string, Hist>, b: map<string, Hist>, probe: string): (r: Hist)
    ensures r.Keys == ProbeHist(a, probe).Keys + ProbeHist(b, probe).Keys
    ensures forall k :: Bin(r, k) == Bin(ProbeHist(a, probe), k) + Bin(ProbeHist(b, probe), k)
  {
    AddHists(ProbeHist(a, probe), ProbeHist(b, probe))
  }

  lemma SumHistCommutes(a: map<string, Hist>, b: map<string, Hist>, probe: string)
    ensures SumHist(a, b, probe) == SumHist(b, a, probe)
  {
    AddHistsCommutes(ProbeHist(a, probe), ProbeHist(b, probe));
  }

  // ---------------------------------------------------------------------
  // weight_hists, sum_hists
  // ---------------------------------------------------------------------

  /** The six page-load probes of the notebook (`probe_ms_map.values()`);
      the functions below take the probe set as a parameter. */
  const PageLoadProbes: set<string> := {
    "histogram_content_time_to_dom_complete_ms",
    "histogram_content_time_to_dom_interactive_ms",
    "histogram_content_time_to_dom_loading_ms",
    "histogram_content_time_to_first_interaction_ms",
    "histogram_content_time_to_non_blank_paint_ms",
    "histogram_content_time_to_response_start_ms"
  }

  /** A replicate record: `{'n': ..., 'hists': {probe: hist}}`, either key
      possibly absent (`sum_hists` reads both with `get`). */
  datatype Record = Record(n: Option<int>, hists: Option<map<string, Hist>>)

  /** `a.get('n', 0)`. */
  function NOf(a: Record): int {
    if a.n.Some? then a.n.value else 0
  }

  /** `a.get('hists', {})`. */
  function HistsOf(a: Record): map<string, Hist> {
    if a.hists.Some? then a.hists.value else map[]
  }

  /** The record `weight_hists` emits for a replicate drawn `w` times. */
  function Weighted(probes: set<string>, w: int, hists: map<string, Hist>): (r: Record)
    requires probes <= hists.Keys
    ensures NOf(r) == w && HistsOf(r).Keys == probes
    ensures forall p, k :: p in probes ==> Bin(ProbeHist(HistsOf(r), p), k) == w * Bin(hists[p], k)
  {
    Record(Some(w), Some(map p | p in probes :: WeightHist(w, hists[p])))
  }

  /** A record `weight_hists` yields, keyed by replicate and build. */
  datatype Emitted = Emitted(rep: nat, build: string, record: Record)

  /** Every record in `rs` is one of replicate `0..|weights|` drawn at
      least once, for `build`, carrying its weight. */
  predicate RepsWeighted(probes: set<string>, build: string, weights: seq<int>, hists: map<string, Hist>, rs: seq<Emitted>)
    requires probes <= hists.Keys
  {
    forall j :: 0 <= j < |rs| ==>
      && rs[j].rep < |weights| && rs[j].build == build
      && weights[rs[j].rep] > 0 && rs[j].record == Weighted(probes, weights[rs[j].rep], hists)
  }

  /** Every replicate drawn at least once has a record in `rs`. */
  predicate RepsCover(weights: seq<int>, rs: seq<Emitted>) {
    forall i :: 0 <= i < |weights| && weights[i] > 0 ==> exists j :: 0 <= j < |rs| && rs[j].rep == i
  }

  /** The records of `rs` come in increasing replicate order. */
  predicate RepsIncreasing(rs: seq<Emitted>) {
    forall j, j' :: 0 <= j < j' < |rs| ==> rs[j].rep < rs[j'].rep
  }

  /** `rs` are the records of replicates `0..|weights|` for one client of
      `build`: one per replicate drawn at least once, in replicate order,
      each carrying its weight. */
  predicate EmitsReplicates(probes: set<string>, build: string, weights: seq<int>, hists: map<string, Hist>, rs: seq<Emitted>)
    requires probes <= hists.Keys
  {
    RepsWeighted(probes, build, weights, hists, rs) && RepsCover(weights, rs) && RepsIncreasing(rs)
  }

  /** The generator of `weight_hists` once the client's row has every
      probe: one record per replicate with a positive weight. */
  function Replicates(probes: set<string>, build: string, weights: seq<int>, hists: map<string, Hist>): (r: seq<Emitted>)
    requires probes <= hists.Keys
    ensures EmitsReplicates(probes, build, weights, hists, r)
    decreases |weights|
  {
    if |weights| == 0 then []
    else
      var i := |weights| - 1;
      var front := Replicates(probes, build, weights[..i], hists);
      var r := if weights[i] > 0 then front + [Emitted(i, build, Weighted(probes, weights[i], hists))] else front;
      WeightedStep(probes, build, weights, hists, front, r);
      CoverStep(probes, build, weights, hists, front, r);
      IncreasingStep(probes, build, weights, hists, front, r);
      r
  }

  lemma WeightedStep(probes: set<string>, build: string, weights: seq<int>, hists: map<string, Hist>,
                     front: seq<Emitted>, r: seq<Emitted>)
    requires probes <= hists.Keys && |weights| > 0
    requires RepsWeighted(probes, build, weights[..|weights| - 1], hists, front)
    requires var i := |weights| - 1;
      r == if weights[i] > 0 then front + [Emitted(i, build, Weighted(probes, weights[i], hists))] else front
    ensures RepsWeighted(probes, build, weights, hists, r)
  {
    var i := |weights| - 1;
    var prefix := weights[..i];
    forall j | 0 <= j < |r|
      ensures r[j].rep < |weights| && r[j].build == build
      ensures weights[r[j].rep] > 0 && r[j].record == Weighted(probes, weights[r[j].rep], hists)
    {
      if j < |front| {
        assert r[j] == front[j];
        assert prefix[front[j].rep] == weights[front[j].rep];
      }
    }
  }

  lemma CoverStep(probes: set<string>, build: string, weights: seq<int>, hists: map<string, Hist>,
                  front: seq<Emitted>, r: seq<Emitted>)
    requires probes <= hists.Keys && |weights| > 0
    requires RepsCover(weights[..|weights| - 1], front)
    requires var i := |weights| - 1;
      r == if weights[i] > 0 then front + [Emitted(i, build, Weighted(probes, weights[i], hists))] else front
    ensures RepsCover(weights, r)
  {
    var i := |weights| - 1;
    var prefix := weights[..i];
    forall i' | 0 <= i' < |weights| && weights[i'] > 0 ensures exists j :: 0 <= j < |r| && r[j].rep == i' {
      if i' == i {
        assert r[|front|].rep == i;
      } else {
        assert prefix[i'] > 0;
        var j :| 0 <= j < |front| && front[j].rep == i';
        assert r[j].rep == i';
      }
    }
  }

  lemma IncreasingStep(probes: set<string>, build: string, weights: seq<int>, hists: map<string, Hist>,
                       front: seq<Emitted>, r: seq<Emitted>)
    requires probes <= hists.Keys && |weights| > 0
    requires RepsWeighted(probes, build, weights[..|weights| - 1], hists, front)
    requires RepsIncreasing(front)
    requires var i := |weights| - 1;
      r == if weights[i] > 0 then front + [Emitted(i, build, Weighted(probes, weights[i], hists))] else front
    ensures RepsIncreasing(r)
  {
    var i := |weights| - 1;
    forall j, j' | 0 <= j < j' < |r| ensures r[j].rep < r[j'].rep {
      assert r[j] == front[j];
      if j' < |front| {
        assert r[j'] == front[j'];
      }
    }
  }

  /** `weight_hists((key, value))`: a record keyed `(i, build)` for every
      replicate `i` with a positive weight. Reading a probe the client's row
      lacks raises `AttributeError`, which happens as soon as one replicate
      is drawn. */
  function WeightHists(probes: set<string>, client: (string, string), weights: seq<int>, hists: map<string, Hist>)
    : (r: Result<seq<Emitted>>)
    ensures r.Fail? <==> !(probes <= hists.Keys) && exists i :: 0 <= i < |weights| && weights[i] > 0
    ensures r.Fail? ==> r.error == AttributeError
    ensures r.Ok? ==> forall j :: 0 <= j < |r.value| ==>
      && r.value[j].rep < |weights| && r.value[j].build == client.1
      && 0 < weights[r.value[j].rep] == NOf(r.value[j].record)
    ensures r.Ok? ==> forall i :: 0 <= i < |weights| ==>
      (weights[i] > 0 <==> exists j :: 0 <= j < |r.value| && r.value[j].rep == i)
    ensures r.Ok? && probes <= hists.Keys ==> EmitsReplicates(probes, client.1, weights, hists, r.value)
  {
    if probes <= hists.Keys then Ok(Replicates(probes, client.1, weights, hists))
    else if exists i :: 0 <= i < |weights| && weights[i] > 0 then Fail(AttributeError)
    else Ok([])
  }

  /** `sum_hists(a, b)`: the weights added and every probe's histograms
      merged, each side's missing parts counting as empty. */
  function SumHists(probes: set<string>, a: Record, b: Record): (r: Record)
    ensures r.n.Some? && NOf(r) == NOf(a) + NOf(b)
    ensures r.hists.Some? && HistsOf(r).Keys == probes
    ensures forall p, k :: p in probes ==>
      Bin(ProbeHist(HistsOf(r), p), k) == Bin(ProbeHist(HistsOf(a), p), k) + Bin(ProbeHist(HistsOf(b), p), k)
  {
    Record(Some(NOf(a) + NOf(b)), Some(map p | p in probes :: SumHist(HistsOf(a), HistsOf(b), p)))
  }

  /** Two records with the same weight and the same histogram for every
      probe, each holding exactly the probes, are equal. */
  lemma RecordEqual(probes: set<string>, a: Record, b: Record)
    requires a.n.Some? && b.n.Some? && NOf(a) == NOf(b)
    requires a.hists.Some? && b.hists.Some? && HistsOf(a).Keys == probes == HistsOf(b).Keys
    requires forall p :: p in probes ==> HistsOf(a)[p] == HistsOf(b)[p]
    ensures a == b
  {
    assert HistsOf(a) == HistsOf(b);
    assert a.n == b.n;
  }

  /** `reduceByKey` may merge a replicate's records in either order. */
  lemma SumHistsCommutes(probes: set<string>, a: Record, b: Record)
    ensures SumHists(probes, a, b) == SumHists(probes, b, a)
  {
    forall p | p in probes ensures HistsOf(SumHists(probes, a, b))[p] == HistsOf(SumHists(probes, b, a))[p] {
      SumHistCommutes(HistsOf(a), HistsOf(b), p);
    }
    RecordEqual(probes, SumHists(probes, a, b), SumHists(probes, b, a));
  }

  /** `reduceByKey` may group a replicate's records in any way. */
  lemma SumHistsAssociates(probes: set<string>, a: Record, b: Record, c: Record)
    ensures SumHists(probes, SumHists(probes, a, b), c) == SumHists(probes, a, SumHists(probes, b, c))
  {
    var l := SumHists(probes, SumHists(probes, a, b), c);
    var r := SumHists(probes, a, SumHists(probes, b, c));
    forall p | p in probes ensures HistsOf(l)[p] == HistsOf(r)[p] {
      var x, y, z := ProbeHist(HistsOf(a), p), ProbeHist(HistsOf(b), p), ProbeHist(HistsOf(c), p);
      assert ProbeHist(HistsOf(SumHists(probes, a, b)), p) == AddHists(x, y);
      assert ProbeHist(HistsOf(SumHists(probes, b, c)), p) == AddHists(y, z);
      AddHistsAssociates(x, y, z);
    }
    RecordEqual(probes, l, r);
  }

  /** What `reduceByKey(sum_hists)` leaves for one key: the records merged
      left to right; a key with a single record keeps it as it is. */
  function Combine(probes: set<string>, rs: seq<Record>): (r: Record)
    requires |rs| > 0
    ensures |rs| == 1 ==> r == rs[0]
    ensures |rs| > 1 ==> r.n.Some? && r.hists.Some? && HistsOf(r).Keys == probes
    decreases |rs|
  {
    if |rs| == 1 then rs[0] else SumHists(probes, Combine(probes, rs[..|rs| - 1]), rs[|rs| - 1])
  }

  function SumInts(ws: seq<int>): int
    decreases |ws|
  {
    if |ws| == 0 then 0 else SumInts(ws[..|ws| - 1]) + ws[|ws| - 1]
  }

  /** Bin `k` of probe `p` summed over clients, each scaled by its weight. */
  function WeightedBin(ws: seq<int>, hs: seq<map<string, Hist>>, p: string, k: int): int
    requires |ws| == |hs|
    decreases |ws|
  {
    if |ws| == 0 then 0
    else
      var i := |ws| - 1;
      WeightedBin(ws[..i], hs[..i], p, k) + ws[i] * Bin(ProbeHist(hs[i], p), k)
  }

  /** The bootstrap replicate, its weight: merging the weighted records of
      the clients drawn into one replicate gives the total weight as `n`. */
  lemma {:induction false} CombineWeight(probes: set<string>, ws: seq<int>, hs: seq<map<string, Hist>>, rs: seq<Record>)
    requires |ws| == |hs| == |rs| > 0
    requires forall j :: 0 <= j < |hs| ==> probes <= hs[j].Keys
    requires forall j :: 0 <= j < |rs| ==> rs[j] == Weighted(probes, ws[j], hs[j])
    ensures NOf(Combine(probes, rs)) == SumInts(ws)
    decreases |rs|
  {
    var i := |rs| - 1;
    if i == 0 {
      assert ws[..0] == [];
    } else {
      assert forall j :: 0 <= j < i ==> rs[..i][j] == Weighted(probes, ws[..i][j], hs[..i][j]);
      CombineWeight(probes, ws[..i], hs[..i], rs[..i]);
    }
  }

  lemma WeightedRecordBin(probes: set<string>, w: int, h: map<string, Hist>, p: string, k: int)
    requires probes <= h.Keys && p in probes
    ensures Bin(ProbeHist(HistsOf(Weighted(probes, w, h)), p), k) == w * Bin(ProbeHist(h, p), k)
  {
    assert ProbeHist(h, p) == h[p];
  }

  lemma CombineStepBin(probes: set<string>, rs: seq<Record>, p: string, k: int)
    requires |rs| > 1 && p in probes
    ensures Bin(ProbeHist(HistsOf(Combine(probes, rs)), p), k)
         == Bin(ProbeHist(HistsOf(Combine(probes, rs[..|rs| - 1])), p), k) + Bin(ProbeHist(HistsOf(rs[|rs| - 1]), p), k)
  {
  }

  /** Bin `k` of probe `p` summed over records. */
  function RecordsBin(rs: seq<Record>, p: string, k: int): int
    decreases |rs|
  {
    if |rs| == 0 then 0
    else RecordsBin(rs[..|rs| - 1], p, k) + Bin(ProbeHist(HistsOf(rs[|rs| - 1]), p), k)
  }

  /** Merging records left to right adds up each probe's bins. */
  lemma {:induction false} CombineBins(probes: set<string>, rs: seq<Record>, p: string, k: int)
    requires |rs| > 0 && p in probes
    ensures Bin(ProbeHist(HistsOf(Combine(probes, rs)), p), k) == RecordsBin(rs, p, k)
    decreases |rs|
  {
    if |rs| == 1 {
      assert rs[..0] == [];
    } else {
      CombineBins(probes, rs[..|rs| - 1], p, k);
      CombineStepBin(probes, rs, p, k);
    }
  }

  lemma {:induction false} WeightedRecordsBin(probes: set<string>, ws: seq<int>, hs: seq<map<string, Hist>>, rs: seq<Record>,
                                              p: string, k: int)
    requires |ws| == |hs| == |rs|
    requires forall j :: 0 <= j < |hs| ==> probes <= hs[j].Keys
    requires forall j :: 0 <= j < |rs| ==> rs[j] == Weighted(probes, ws[j], hs[j])
    requires p in probes
    ensures RecordsBin(rs, p, k) == WeightedBin(ws, hs, p, k)
    decreases |rs|
  {
    if |rs| > 0 {
      var i := |rs| - 1;
      assert forall j :: 0 <= j < i ==> rs[..i][j] == Weighted(probes, ws[..i][j], hs[..i][j]);
      WeightedRecordsBin(probes, ws[..i], hs[..i], rs[..i], p, k);
      assert rs[i] == Weighted(probes, ws[i], hs[i]);
      WeightedRecordBin(probes, ws[i], hs[i], p, k);
      assert RecordsBin(rs, p, k) == RecordsBin(rs[..i], p, k) + Bin(ProbeHist(HistsOf(rs[i]), p), k);
      assert WeightedBin(ws, hs, p, k) == WeightedBin(ws[..i], hs[..i], p, k) + ws[i] * Bin(ProbeHist(hs[i], p), k);
    }
  }

  /** The bootstrap replicate, its histograms: merging the weighted records
      of the clients drawn into one replicate gives, for every probe and
      bin, the weighted sum of the clients' counts. */
  lemma CombineWeightedBins(probes: set<string>, ws: seq<int>, hs: seq<map<string, Hist>>, rs: seq<Record>,
                            p: string, k: int)
    requires |ws| == |hs| == |rs| > 0
    requires forall j :: 0 <= j < |hs| ==> probes <= hs[j].Keys
    requires forall j :: 0 <= j < |rs| ==> rs[j] == Weighted(probes, ws[j], hs[j])
    requires p in probes
    ensures Bin(ProbeHist(HistsOf(Combine(probes, rs)), p), k) == WeightedBin(ws, hs, p, k)
  {
    CombineBins(probes, rs, p, k);
    WeightedRecordsBin(probes, ws, hs, rs, p, k);
  }

  // ---------------------------------------------------------------------
  // comps, set_comp, calc_relds
  // ---------------------------------------------------------------------

  datatype Role = Test | Control

  /** An entry of `comps`: `(comparison index, role)`. */
  datatype Part = Part(index: nat, role: Role)

  predicate Distinct(s: seq<string>) {
    forall i, j :: 0 <= i < j < |s| ==> s[i] != s[j]
  }

  /** The comparisons the loop assigns to the build at position `i` of `n`. */
  function Entry(i: nat, n: nat): seq<Part> {
    (if i != n - 1 then [Part(i, Test)] else []) + (if i != 0 then [Part(i - 1, Control)] else [])
  }

  /** The `comps` dictionary after the first `m` iterations of its loop. */
  function CompsUpTo(builds: seq<string>, m: nat): (r: map<string, seq<Part>>)
    requires m <= |builds|
    ensures r.Keys == set i | 0 <= i < m :: builds[i]
    ensures Distinct(builds) ==> forall i :: 0 <= i < m ==> r[builds[i]] == Entry(i, |builds|)
    decreases m
  {
    if m == 0 then map[]
    else CompsUpTo(builds, m - 1)[builds[m - 1] := Entry(m - 1, |builds|)]
  }

  /** `comps`: for builds sorted newest first, comparison `k` tests build
      `k` against the next older build `k + 1`; each build is the test side
      of its own comparison unless it is the oldest, and the control side of
      the previous one unless it is the newest. */
  function Comps(builds: seq<string>): (r: map<string, seq<Part>>)
    ensures r.Keys == set i | 0 <= i < |builds| :: builds[i]
    ensures Distinct(builds) ==> forall i, k: nat :: 0 <= i < |builds| ==>
      (Part(k, Test) in r[builds[i]] <==> k + 1 < |builds| && i == k)
    ensures Distinct(builds) ==> forall i, k: nat :: 0 <= i < |builds| ==>
      (Part(k, Control) in r[builds[i]] <==> k + 1 < |builds| && i == k + 1)
    ensures Distinct(builds) ==> forall i :: 0 <= i < |builds| ==> |r[builds[i]]| <= 2
  {
    var r := CompsUpTo(builds, |builds|);
    if Distinct(builds) then
      CompsRoles(builds, r);
      r
    else r
  }

  lemma CompsRoles(builds: seq<string>, r: map<string, seq<Part>>)
    requires Distinct(builds)
    requires forall i :: 0 <= i < |builds| ==> builds[i] in r && r[builds[i]] == Entry(i, |builds|)
    ensures forall i, k: nat :: 0 <= i < |builds| ==>
      (Part(k, Test) in r[builds[i]] <==> k + 1 < |builds| && i == k)
    ensures forall i, k: nat :: 0 <= i < |builds| ==>
      (Part(k, Control) in r[builds[i]] <==> k + 1 < |builds| && i == k + 1)
    ensures forall i :: 0 <= i < |builds| ==> |r[builds[i]]| <= 2
  {
    forall i, k: nat | 0 <= i < |builds|
      ensures Part(k, Test) in r[builds[i]] <==> k + 1 < |builds| && i == k
      ensures Part(k, Control) in r[builds[i]] <==> k + 1 < |builds| && i == k + 1
    {
      EntryRoles(i, |builds|, k);
    }
    forall i | 0 <= i < |builds| ensures |r[builds[i]]| <= 2 {
      EntryRoles(i, |builds|, 0);
    }
  }

  lemma EntryRoles(i: nat, n: nat, k: nat)
    requires i < n
    ensures Part(k, Test) in Entry(i, n) <==> k + 1 < n && i == k
    ensures Part(k, Control) in Entry(i, n) <==> k + 1 < n && i == k + 1
    ensures |Entry(i, n)| <= 2
  {
  }

  /** One side of a comparison: `(app_build_id, role, hists)`. */
  datatype Side<V> = Side(build: string, role: Role, hists: V)

  /** A record `set_comp` yields: keyed by `(comparison, rep)`. */
  datatype Keyed<V> = Keyed(comparison: nat, rep: nat, side: Side<V>)

  /** `set_comp(((rep, build), value))`: one record keyed `(k, rep)` for
      every comparison `k` the build takes part in. A build missing from
      `comps` raises `KeyError`. */
  function SetComp<V>(comps: map<string, seq<Part>>, rep: nat, build: string, value: V)
    : (r: Result<seq<Keyed<V>>>)
    ensures r.Fail? <==> build !in comps
    ensures r.Fail? ==> r.error == KeyError
    ensures r.Ok? ==> |r.value| == |comps[build]|
    ensures r.Ok? ==> forall j :: 0 <= j < |r.value| ==>
      r.value[j] == Keyed(comps[build][j].index, rep, Side(build, comps[build][j].role, value))
  {
    if build !in comps then Fail(KeyError)
    else
      var cs := comps[build];
      Ok(seq(|cs|, j requires 0 <= j < |cs| => Keyed(cs[j].index, rep, Side(build, cs[j].role, value))))
  }

  /** The pairing half of `calc_relds(a, b)`: both sides must differ in
      role (else `AssertionError`); the result is the control side's
      histograms, the test side's histograms, and the test side's build. */
  function CalcRelds<V>(a: Side<V>, b: Side<V>): (r: Result<(V, V, string)>)
    ensures r.Fail? <==> a.role == b.role
    ensures r.Fail? ==> r.error == AssertionError
    ensures r.Ok? ==> (a.role == Control ==> r.value.0 == a.hists) && (b.role == Control ==> r.value.0 == b.hists)
    ensures r.Ok? ==> (a.role == Test ==> r.value.1 == a.hists) && (b.role == Test ==> r.value.1 == b.hists)
    ensures r.Ok? ==> (a.role == Test ==> r.value.2 == a.build) && (b.role == Test ==> r.value.2 == b.build)
  {
    if b.role == a.role then Fail(AssertionError)
    else
      var hists := [a.hists, b.hists];
      var cIdx := if a.role == Control then 0 else 1;
      var controls := hists[cIdx];
      var rest := hists[..cIdx] + hists[cIdx + 1..];
      var tests := rest[0];
      assert tests == if a.role == Control then b.hists else a.hists;
      var build := if a.role == Test then a.build else b.build;
      Ok((controls, tests, build))
  }

  /** `reduceByKey` may hand the two sides to `calc_relds` in either order. */
  lemma CalcReldsSymmetric<V>(a: Side<V>, b: Side<V>)
    ensures CalcRelds(a, b) == CalcRelds(b, a)
  {
  }

  /** The records of replicate `rep` that `set_comp` emits for the build at
      position `i`, keyed by comparison `k`: there is one exactly when the
      build is comparison `k`'s test (`i == k`) or control (`i == k + 1`),
      and it carries that role. */
  lemma SetCompPairs<V>(builds: seq<string>, rep: nat, i: nat, k: nat, v: V)
    requires Distinct(builds) && i < |builds|
    ensures SetComp(Comps(builds), rep, builds[i], v).Ok?
    ensures var out := SetComp(Comps(builds), rep, builds[i], v).value;
      (exists j :: 0 <= j < |out| && out[j].comparison == k) <==> k + 1 < |builds| && (i == k || i == k + 1)
    ensures var out := SetComp(Comps(builds), rep, builds[i], v).value;
      forall j :: 0 <= j < |out| && out[j].comparison == k ==>
        out[j].side == Side(builds[i], if i == k then Test else Control, v)
  {
    var comps := Comps(builds);
    assert comps[builds[i]] == Entry(i, |builds|);
    EntryIndex(i, |builds|, k);
  }

  /** Which entry of the build at position `i` names comparison `k`. */
  lemma EntryIndex(i: nat, n: nat, k: nat)
    requires i < n
    ensures var e := Entry(i, n);
      (exists j :: 0 <= j < |e| && e[j].index == k) <==> k + 1 < n && (i == k || i == k + 1)
    ensures var e := Entry(i, n);
      forall j :: 0 <= j < |e| && e[j].index == k ==> e[j].role == if i == k then Test else Control
  {
    var e := Entry(i, n);
    if k + 1 < n && i == k {
      assert e[0].index == k;
    } else if k + 1 < n && i == k + 1 {
      assert e[|e| - 1].index == k;
    }
  }

  /** Each comparison reports the newer build: the two records keyed
      `(k, rep)` meet in `calc_relds`, in either order, with build `k` as
      the test side and build `k + 1` as the control. */
  lemma ComparisonReport<V>(builds: seq<string>, rep: nat, k: nat, newer: V, older: V)
    requires Distinct(builds) && k + 1 < |builds|
    ensures var t := Side(builds[k], Test, newer);
      var c := Side(builds[k + 1], Control, older);
      CalcRelds(t, c) == CalcRelds(c, t) == Ok((older, newer, builds[k]))
  {
  }
}
