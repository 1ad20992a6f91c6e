/**
  The three regular expressions of the exploratory-analysis utilities, as
  `re.findall` runs them, and the renaming helpers built on them: the
  logger's column headers (`rn_hobo1`, `rn_hobo`) and the short names of
  experiment actions (`abbrev_action`).

  Each pattern is a literal skeleton with lazy `.+?` groups (and one greedy
  `.+` tail); `.` is any character but a newline. A lazy group is matched
  by trying the shortest run first and backtracking to longer runs until
  the rest of the pattern matches, which `FirstLazy` models; `findall`
  tries every start position in turn and resumes after each match.
 */
module EdaPatterns {
  import opened Outcomes
  import Text
  import EdaUtils

  /** `.` in a pattern: any character but a newline. */
  predicate Dot(c: char) {
    c != '\n'
  }

  predicate DotRun(s: string, a: nat, b: nat) {
    a <= b <= |s| && forall j :: a <= j < b ==> Dot(s[j])
  }

  /** The shortest run `s[a..e]` of one or more `.` after which `ok(e)`
      holds, trying the ends from `j` on: a lazy `.+?` followed by the rest
      of the pattern. */
  function FirstLazy(s: string, a: nat, j: nat, ok: nat -> bool): (r: Option<nat>)
    requires a < j && (j == a + 1 || DotRun(s, a, j - 1))
    ensures r.Some? ==> j <= r.value && DotRun(s, a, r.value) && ok(r.value)
    ensures r.Some? ==> forall m: nat :: j <= m < r.value ==> !ok(m)
    ensures r.None? ==> forall m: nat :: j <= m && DotRun(s, a, m) ==> !ok(m)
    decreases |s| + 1 - j
  {
    if j > |s| then None
    else if !Dot(s[j - 1]) then None
    else if ok(j) then Some(j)
    else FirstLazy(s, a, j + 1, ok)
  }

  /** The end of a greedy `.+` started at `m`: the next newline or the end. */
  function LineEnd(s: string, m: nat): (e: nat)
    requires m <= |s|
    ensures m <= e <= |s| && DotRun(s, m, e)
    ensures e < |s| ==> !Dot(s[e])
    decreases |s| - m
  {
    if m == |s| || !Dot(s[m]) then m else LineEnd(s, m + 1)
  }

  // ---------------------------------------------------------------------
  // r".+?LBL: (.+?)\)"
  // ---------------------------------------------------------------------

  /** The pattern matches at `p` with the label `s[i + 5..e]`. */
  predicate LblMatch(s: string, p: nat, i: nat, e: nat) {
    && p < i && DotRun(s, p, i) && Text.OccursAt(s, "LBL: ", i)
    && i + 5 < e && DotRun(s, i + 5, e) && Text.OccursAt(s, ")", e)
  }

  function LblClose(s: string, a: nat): (r: Option<nat>)
    ensures r.Some? ==> a < r.value && DotRun(s, a, r.value) && Text.OccursAt(s, ")", r.value)
    ensures r.None? ==> forall e: nat :: a < e && DotRun(s, a, e) ==> !Text.OccursAt(s, ")", e)
  {
    FirstLazy(s, a, a + 1, (e: nat) => Text.OccursAt(s, ")", e))
  }

  lemma LblCloseFinds(s: string, a: nat, e: nat)
    ensures a < e && DotRun(s, a, e) && Text.OccursAt(s, ")", e) ==> LblClose(s, a).Some?
  {
  }

  /** Where a group lies in the searched string: `s[start..end]`. */
  datatype Span = Span(start: nat, end: nat)

  /** The label of the leftmost-shortest match starting at `p`, as the span
      of the group. */
  function LblAt(s: string, p: nat): (r: Option<Span>)
    ensures r.Some? ==> r.value.start >= 5 && LblMatch(s, p, r.value.start - 5, r.value.end)
    ensures r.None? <==> forall i: nat, e: nat :: !LblMatch(s, p, i, e)
  {
    var ok := (i: nat) => Text.OccursAt(s, "LBL: ", i) && LblClose(s, i + 5).Some?;
    var found := FirstLazy(s, p, p + 1, ok);
    if found.None? then
      assert forall i: nat, e: nat :: !LblMatch(s, p, i, e) by {
        forall i: nat, e: nat ensures !LblMatch(s, p, i, e) {
          LblCloseFinds(s, i + 5, e);
          assert p < i && DotRun(s, p, i) ==> !ok(i);
        }
      }
      None
    else
      var i := found.value;
      assert ok(i);
      var e := LblClose(s, i + 5).value;
      assert LblMatch(s, p, i, e);
      Some(Span(i + 5, e))
  }

  /** `g` stands in `s` right after "LBL: " and right before ")". */
  ghost predicate LabelIn(s: string, g: string) {
    exists a :: a >= 5 && Text.OccursAt(s, "LBL: ", a - 5) && Text.OccursAt(s, g + ")", a)
  }

  /** `lbl_re.findall(s[p:])`, positions counted in `s`. */
  function LblFindAll(s: string, p: nat): (gs: seq<string>)
    ensures forall g :: g in gs ==> LabelIn(s, g)
    decreases |s| - p
  {
    if p >= |s| then []
    else
      match LblAt(s, p)
      case None => LblFindAll(s, p + 1)
      case Some(Span(a, e)) =>
        LabelInSpan(s, p, a, e);
        [s[a..e]] + LblFindAll(s, e + 1)
  }

  lemma LabelInSpan(s: string, p: nat, a: nat, e: nat)
    requires a >= 5 && LblMatch(s, p, a - 5, e)
    ensures a <= e <= |s| && LabelIn(s, s[a..e])
  {
    assert s[a..e + 1] == s[a..e] + s[e..e + 1];
    assert Text.OccursAt(s, s[a..e] + ")", a);
  }

  /** `findall` finds nothing exactly when the pattern matches nowhere. */
  lemma {:induction false} LblFindAllEmpty(s: string, p: nat)
    ensures LblFindAll(s, p) == [] <==> forall q: nat, i: nat, e: nat :: p <= q ==> !LblMatch(s, q, i, e)
    decreases |s| - p
  {
    if p < |s| {
      LblFindAllEmpty(s, p + 1);
    } else {
      forall q: nat, i: nat, e: nat | p <= q ensures !LblMatch(s, q, i, e) {
      }
    }
  }

  // ---------------------------------------------------------------------
  // r"(.+?) \(LGR S\/N.+"
  // ---------------------------------------------------------------------

  const LgrTag := " (LGR S/N"

  /** The pattern matches at `p` with the name `s[p..i]`. */
  predicate LgrMatch(s: string, p: nat, i: nat) {
    p < i && DotRun(s, p, i) && Text.OccursAt(s, LgrTag, i) && i + 9 < |s| && Dot(s[i + 9])
  }

  function LgrAt(s: string, p: nat): (r: Option<nat>)
    ensures r.Some? ==> LgrMatch(s, p, r.value)
    ensures r.Some? ==> forall i: nat :: p < i < r.value ==> !LgrMatch(s, p, i)
    ensures r.None? <==> forall i: nat :: !LgrMatch(s, p, i)
  {
    var ok := (i: nat) => Text.OccursAt(s, LgrTag, i) && i + 9 < |s| && Dot(s[i + 9]);
    var r := FirstLazy(s, p, p + 1, ok);
    assert forall i: nat :: LgrMatch(s, p, i) ==> ok(i);
    r
  }

  /** `g` stands in `s` right before a logger tag. */
  ghost predicate LoggerNameIn(s: string, g: string) {
    exists a :: Text.OccursAt(s, g + LgrTag, a)
  }

  /** `lgr_re.findall(s[p:])`: the names before each logger tag. */
  function LgrFindAll(s: string, p: nat): (gs: seq<string>)
    ensures forall g :: g in gs ==> |g| > 0 && LoggerNameIn(s, g)
    decreases |s| - p
  {
    if p >= |s| then []
    else
      match LgrAt(s, p)
      case None => LgrFindAll(s, p + 1)
      case Some(i) =>
        assert Text.OccursAt(s, s[p..i] + LgrTag, p) by {
          assert s[p..i + 9] == s[p..i] + s[i..i + 9];
        }
        [s[p..i]] + LgrFindAll(s, LineEnd(s, i + 10))
  }

  lemma {:induction false} LgrFindAllEmpty(s: string, p: nat)
    ensures LgrFindAll(s, p) == [] <==> forall q: nat, i: nat :: p <= q ==> !LgrMatch(s, q, i)
    decreases |s| - p
  {
    if p < |s| {
      LgrFindAllEmpty(s, p + 1);
    } else {
      forall q: nat, i: nat | p <= q ensures !LgrMatch(s, q, i) {
      }
    }
  }

  /** `rn_hobo1(s)`: the one label, else the one name before the logger's
      serial number, else "Dt" for a date column, else the header itself.
      Unpacking two or more matches into `[res]` raises `ValueError`. */
  function RnHobo1(s: string): (r: Result<string>)
    ensures |LblFindAll(s, 0)| == 1 ==> r == Ok(LblFindAll(s, 0)[0])
    ensures r.Fail? ==> r.error == ValueError
    ensures r.Fail? <==> |LblFindAll(s, 0)| > 1 || (|LblFindAll(s, 0)| == 0 && |LgrFindAll(s, 0)| > 1)
    ensures r.Ok? && |LblFindAll(s, 0)| == 1 ==> LabelIn(s, r.value)
    ensures r.Ok? && |LblFindAll(s, 0)| == 0 && |LgrFindAll(s, 0)| == 1 ==> |r.value| > 0 && LoggerNameIn(s, r.value)
    ensures |LblFindAll(s, 0)| == 0 && |LgrFindAll(s, 0)| == 1 ==> r == Ok(LgrFindAll(s, 0)[0])
    ensures |LblFindAll(s, 0)| == 0 && |LgrFindAll(s, 0)| == 0 ==>
      r == Ok(if Text.IsPrefix("Date Time", s) then "Dt" else s)
  {
    var lbl := LblFindAll(s, 0);
    if |lbl| == 1 then
      assert lbl[0] in lbl;
      Ok(lbl[0])
    else if |lbl| > 1 then Fail(ValueError)
    else
      var lgr := LgrFindAll(s, 0);
      if |lgr| == 1 then
        assert lgr[0] in lgr;
        Ok(lgr[0])
      else if |lgr| > 1 then Fail(ValueError)
      else if Text.IsPrefix("Date Time", s) then Ok("Dt")
      else Ok(s)
  }

  /** A header with neither a label nor a logger tag, and not a date column,
      keeps its name. */
  lemma RnHobo1Plain(s: string)
    requires forall q: nat, i: nat, e: nat :: !LblMatch(s, q, i, e)
    requires forall q: nat, i: nat :: !LgrMatch(s, q, i)
    requires !Text.IsPrefix("Date Time", s)
    ensures RnHobo1(s) == Ok(s)
  {
    LblFindAllEmpty(s, 0);
    LgrFindAllEmpty(s, 0);
  }

  /** A date column with neither a label nor a logger tag is renamed "Dt",
      the column `hobo_process` parses as the timestamp, and `rn_hobo2`
      keeps that name. */
  lemma RnHoboDateColumn(rest: string)
    requires forall q: nat, i: nat, e: nat :: !LblMatch("Date Time" + rest, q, i, e)
    requires forall q: nat, i: nat :: !LgrMatch("Date Time" + rest, q, i)
    ensures RnHobo1("Date Time" + rest) == Ok("Dt")
    ensures RnHobo("Date Time" + rest) == Ok("Dt")
  {
    var s := "Date Time" + rest;
    LblFindAllEmpty(s, 0);
    LgrFindAllEmpty(s, 0);
    assert Text.IsPrefix("Date Time", s) by {
      assert s[..9] == "Date Time";
    }
    RnHobo2KeepsDt();
  }

  lemma RnHobo2KeepsDt()
    ensures EdaUtils.RnHobo2("Dt") == "Dt"
  {
    var s := "Dt";
    assert s[0] == 'D' && s[1] == 't';
    assert !Text.IsSuffix("yy", s) by {
      assert s[|s| - 2..][0] == 'D';
    }
    var u := Text.ReplaceChar(s, '/', '_');
    assert |u| == 2 && u[0] == 'D' && u[1] == 't';
    var c := Text.Capitalize(u);
    assert |c| == 2 && c[0] == 'D' && c[1] == 't';
    assert c == s;
  }

  /** `rn_hobo = compose(rn_hobo2, rn_hobo1)`. */
  function RnHobo(s: string): (r: Result<string>)
    ensures r.Ok? <==> RnHobo1(s).Ok?
    ensures r.Ok? ==> r.value == EdaUtils.RnHobo2(RnHobo1(s).value)
  {
    var name :- RnHobo1(s);
    Ok(EdaUtils.RnHobo2(name))
  }

  // ---------------------------------------------------------------------
  // r"self.client.navigate\('(.+?)'\)"
  // ---------------------------------------------------------------------

  const NavHead := "self.client.navigate('"

  /** `NavHead` at `p`, where each `.` of "self.client.navigate" stands for
      any character but a newline. */
  predicate NavHeadAt(s: string, p: nat) {
    p + |NavHead| <= |s| &&
    forall j :: 0 <= j < |NavHead| ==>
      if (j == 4 || j == 11) then Dot(s[p + j]) else s[p + j] == NavHead[j]
  }

  predicate NavMatch(s: string, p: nat, e: nat) {
    NavHeadAt(s, p) && p + 22 < e && DotRun(s, p + 22, e) && Text.OccursAt(s, "')", e)
  }

  function NavAt(s: string, p: nat): (r: Option<nat>)
    ensures r.Some? ==> NavMatch(s, p, r.value)
    ensures r.None? <==> forall e: nat :: !NavMatch(s, p, e)
  {
    if !NavHeadAt(s, p) then None
    else
      var ok := (e: nat) => Text.OccursAt(s, "')", e);
      var r := FirstLazy(s, p + 22, p + 23, ok);
      assert forall e: nat :: NavMatch(s, p, e) ==> ok(e);
      assert r.Some? ==> ok(r.value) && NavMatch(s, p, r.value);
      r
  }

  /** `g` is the address of a navigation call in `s`. */
  ghost predicate NavTargetIn(s: string, g: string) {
    exists q: nat, e: nat :: NavMatch(s, q, e) && g == s[q + 22..e]
  }

  /** `nav_re.findall(s[p:])`: the navigated addresses. */
  function NavFindAll(s: string, p: nat): (gs: seq<string>)
    decreases |s| - p
  {
    if p >= |s| then []
    else
      match NavAt(s, p)
      case None => NavFindAll(s, p + 1)
      case Some(e) => [s[p + 22..e]] + NavFindAll(s, e + 2)
  }

  /** Every address found is the non-empty group of a navigation call. */
  lemma {:induction false} NavFindAllSound(s: string, p: nat)
    ensures forall g :: g in NavFindAll(s, p) ==> |g| > 0 && NavTargetIn(s, g)
    decreases |s| - p
  {
    if p < |s| {
      match NavAt(s, p)
      case None => NavFindAllSound(s, p + 1);
      case Some(e) =>
        NavFindAllSound(s, e + 2);
        var g := s[p + 22..e];
        assert NavFindAll(s, p) == [g] + NavFindAll(s, e + 2);
        assert NavMatch(s, p, e) && |g| > 0;
        assert NavTargetIn(s, g);
    }
  }

  lemma {:induction false} NavFindAllEmpty(s: string, p: nat)
    ensures NavFindAll(s, p) == [] <==> forall q: nat, e: nat :: p <= q ==> !NavMatch(s, q, e)
    decreases |s| - p
  {
    if p < |s| {
      NavFindAllEmpty(s, p + 1);
    } else {
      forall q: nat, e: nat | p <= q ensures !NavMatch(s, q, e) {
      }
    }
  }

  /** `abbrev_action(s)`: a navigation becomes "-> " and the abbreviation of
      the whole action; other client calls, the start and end markers and
      sleeps get short prefixes; anything else is kept. Two navigations in
      one action fail to unpack with `ValueError`. */
  function AbbrevAction(s: string): (r: Result<string>)
    ensures r.Fail? <==> |NavFindAll(s, 0)| > 1
    ensures r.Fail? ==> r.error == ValueError
    ensures |NavFindAll(s, 0)| == 1 ==> r == Ok("-> " + EdaUtils.MatchSiteAbbrev(s))
    ensures |NavFindAll(s, 0)| == 0 && Text.IsPrefix("self.client", s) ==>
      r.Ok? && |r.value| >= 2 && "self.client" + r.value[2..] == s && r.value[..2] == "sc"
    ensures |NavFindAll(s, 0)| == 0 && Text.IsPrefix("time.sleep", s) ==>
      r.Ok? && |r.value| >= 3 && "time.sleep" + r.value[3..] == s && r.value[..3] == "slp"
  {
    var nav := NavFindAll(s, 0);
    if |nav| == 1 then Ok("-> " + EdaUtils.MatchSiteAbbrev(s))
    else if |nav| > 1 then Fail(ValueError)
    else if Text.IsPrefix("self.client", s) then
      assert s == s[..11] + s[11..];
      assert !Text.IsPrefix("time.sleep", s) by {
        assert s[1] == 'e';
      }
      Ok("sc" + s[11..])
    else if Text.IsPrefix("Experiment: Starting 1", s) then
      assert !Text.IsPrefix("time.sleep", s) by {
        assert s[0] == 'E';
      }
      Ok("Start")
    else if Text.IsPrefix("Experiment: Ending", s) then
      assert !Text.IsPrefix("time.sleep", s) by {
        assert s[0] == 'E';
      }
      Ok("End")
    else if Text.IsPrefix("time.sleep", s) then
      assert s == s[..10] + s[10..];
      Ok("slp" + s[10..])
    else Ok(s)
  }

  /** Without a navigation or a client call, the start and end markers
      become "Start" and "End", and an action that is none of these (nor a
      sleep) is kept as it is. */
  lemma AbbrevActionMarkers(s: string)
    ensures var r := AbbrevAction(s);
      |NavFindAll(s, 0)| == 0 && !Text.IsPrefix("self.client", s) ==>
        && (Text.IsPrefix("Experiment: Starting 1", s) ==> r == Ok("Start"))
        && (!Text.IsPrefix("Experiment: Starting 1", s) && Text.IsPrefix("Experiment: Ending", s) ==> r == Ok("End"))
    ensures |NavFindAll(s, 0)| == 0 && NoPrefix(s, ["self.client", "Experiment: Starting 1", "Experiment: Ending", "time.sleep"]) ==>
      AbbrevAction(s) == Ok(s)
  {
    var ps := ["self.client", "Experiment: Starting 1", "Experiment: Ending", "time.sleep"];
    if NoPrefix(s, ps) {
      assert !Text.IsPrefix(ps[0], s) && !Text.IsPrefix(ps[1], s);
      assert !Text.IsPrefix(ps[2], s) && !Text.IsPrefix(ps[3], s);
    }
  }

  /** `s` starts with none of `ps`. */
  predicate NoPrefix(s: string, ps: seq<string>) {
    forall i :: 0 <= i < |ps| ==> !Text.IsPrefix(ps[i], s)
  }

  /** A client call that navigates nowhere is shortened to "sc" and the
      rest of the call, which the abbreviation gives back in full. */
  lemma AbbrevClientCall(rest: string)
    requires forall q: nat, e: nat :: !NavMatch("self.client" + rest, q, e)
    ensures AbbrevAction("self.client" + rest) == Ok("sc" + rest)
  {
    NavFindAllEmpty("self.client" + rest, 0);
    assert ("self.client" + rest)[11..] == rest;
  }
}
