/** The displacement compressor, filter_points in svg2ReGIS.py.

    The consecutive differences of the flattened points are merged greedily:
    a difference whose rounded value equals the rounded value of the
    difference that opened the current entry is added, raw, onto that entry;
    any other difference opens a new entry. The first point followed by the
    entries is then summed back into absolute points.

    The rounding (numpy's .round(3) on a complex number) is the parameter
    `key`; nothing below depends on what it computes. */
module Compress {

  import opened Geometry
  import opened Optional

  /** The retained entries for the differences ds, built left to right as the
      loop of filter_points builds them. A difference merges when its key
      equals the key of the difference just before it, which is the key of
      the difference that opened the current entry (see MergeIsRunSums). */
  function Merge(ds: seq<Point>, key: Point -> Point): (es: seq<Point>)
    ensures |es| <= |ds|
    ensures |es| == 0 <==> |ds| == 0
    decreases |ds|
  {
    if |ds| == 0 then []
    else
      var init, d := ds[..|ds| - 1], ds[|ds| - 1];
      var es0 := Merge(init, key);
      if |init| > 0 && key(d) == key(init[|init| - 1])
      then es0[|es0| - 1 := Add(es0[|es0| - 1], d)]
      else es0 + [d]
  }

  /** Index i opens a maximal run of differences that share one key. */
  predicate IsRunStart(ds: seq<Point>, key: Point -> Point, i: int)
    requires 0 <= i < |ds|
  {
    i == 0 || key(ds[i]) != key(ds[i - 1])
  }

  /** The indices that open a run, in increasing order. */
  function RunStarts(ds: seq<Point>, key: Point -> Point): (s: seq<nat>)
    ensures forall k :: 0 <= k < |s| ==> s[k] < |ds|
    ensures |ds| > 0 ==> |s| > 0
    decreases |ds|
  {
    if |ds| == 0 then []
    else RunStarts(ds[..|ds| - 1], key) + if IsRunStart(ds, key, |ds| - 1) then [|ds| - 1] else []
  }

  /** Whether an index opens a run does not depend on what comes after it. */
  lemma RunStartPrefix(ds: seq<Point>, key: Point -> Point, n: nat, i: nat)
    requires i < n <= |ds|
    ensures IsRunStart(ds[..n], key, i) == IsRunStart(ds, key, i)
  {
    assert ds[..n][i] == ds[i];
    if i > 0 {
      assert ds[..n][i - 1] == ds[i - 1];
    }
  }

  /** RunStarts lists run-opening indices only, strictly increasing, beginning
      with 0. */
  lemma {:induction false} RunStartsSorted(ds: seq<Point>, key: Point -> Point)
    ensures var s := RunStarts(ds, key);
      && (forall k :: 0 <= k < |s| ==> IsRunStart(ds, key, s[k]))
      && (forall k :: 0 < k < |s| ==> s[k - 1] < s[k])
      && (|ds| > 0 ==> s[0] == 0)
    decreases |ds|
  {
    if |ds| > 0 {
      var n := |ds|;
      var init := ds[..n - 1];
      RunStartsSorted(init, key);
      var s0, s := RunStarts(init, key), RunStarts(ds, key);
      assert s == s0 + if IsRunStart(ds, key, n - 1) then [n - 1] else [];
      forall k | 0 <= k < |s|
        ensures IsRunStart(ds, key, s[k])
      {
        if k < |s0| {
          assert s[k] == s0[k];
          RunStartPrefix(ds, key, n - 1, s0[k]);
        }
      }
      forall k | 0 < k < |s|
        ensures s[k - 1] < s[k]
      {
        assert s[k - 1] == s0[k - 1];
        if k < |s0| {
          assert s[k] == s0[k];
        }
      }
      if n > 1 {
        assert s[0] == s0[0];
      }
    }
  }

  /** Every run-opening index is listed by RunStarts. */
  lemma {:induction false} RunStartsComplete(ds: seq<Point>, key: Point -> Point)
    ensures forall i :: 0 <= i < |ds| && IsRunStart(ds, key, i) ==> i in RunStarts(ds, key)
    decreases |ds|
  {
    if |ds| > 0 {
      var n := |ds|;
      var init := ds[..n - 1];
      RunStartsComplete(init, key);
      var s0, s := RunStarts(init, key), RunStarts(ds, key);
      assert s == s0 + if IsRunStart(ds, key, n - 1) then [n - 1] else [];
      forall i | 0 <= i < n && IsRunStart(ds, key, i)
        ensures i in s
      {
        if i < n - 1 {
          RunStartPrefix(ds, key, n - 1, i);
          assert i in s0;
        }
      }
    }
  }

  /** Where run j of the runs opened at s ends (exclusive): the next run's
      start, or n. */
  function RunEnd(s: seq<nat>, n: nat, j: nat): nat
    requires j < |s|
  {
    if j + 1 < |s| then s[j + 1] else n
  }

  /** v is the raw sum of run j of the runs opened at the indices in s, and
      every difference of that run has the key of the one opening it. */
  ghost predicate RunSummed(ds: seq<Point>, key: Point -> Point, s: seq<nat>, j: nat, v: Point)
    requires j < |s|
  {
    && s[j] <= RunEnd(s, |ds|, j) <= |ds|
    && v == Sum(ds[s[j]..RunEnd(s, |ds|, j)])
    && forall k :: s[j] <= k < RunEnd(s, |ds|, j) ==> key(ds[k]) == key(ds[s[j]])
  }

  /** e holds one entry per run opened at an index in s, each summing its run. */
  ghost predicate RunsSummed(ds: seq<Point>, key: Point -> Point, s: seq<nat>, e: seq<Point>) {
    |e| == |s| && forall j :: 0 <= j < |s| ==> RunSummed(ds, key, s, j, e[j])
  }

  lemma SliceOfPrefix(ds: seq<Point>, a: nat, b: nat, n: nat)
    requires a <= b <= n <= |ds|
    ensures ds[..n][a..b] == ds[a..b]
  {
  }

  /** Appending a difference leaves every run but the last as it was. */
  lemma EarlierRunKept(ds: seq<Point>, key: Point -> Point, s: seq<nat>, e: seq<Point>, j: nat)
    requires |ds| > 1
    requires RunsSummed(ds[..|ds| - 1], key, s, e)
    requires j + 1 < |s|
    ensures RunSummed(ds, key, s, j, e[j])
  {
    var init := ds[..|ds| - 1];
    assert RunSummed(init, key, s, j, e[j]);
    assert RunEnd(s, |ds|, j) == s[j + 1];
    assert RunEnd(s, |init|, j) == s[j + 1];
    assert s[j] <= s[j + 1] <= |init|;
    SliceOfPrefix(ds, s[j], s[j + 1], |init|);
    forall k | s[j] <= k < s[j + 1]
      ensures key(ds[k]) == key(ds[s[j]])
    {
      assert ds[k] == init[k] && ds[s[j]] == init[s[j]];
    }
  }

  /** A difference with the key of its predecessor joins the last run. */
  lemma LastRunGrows(ds: seq<Point>, key: Point -> Point, s: seq<nat>, e: seq<Point>)
    requires |ds| > 1 && key(ds[|ds| - 1]) == key(ds[|ds| - 2])
    requires RunsSummed(ds[..|ds| - 1], key, s, e)
    requires |s| > 0 && s[|s| - 1] < |ds| - 1
    ensures RunSummed(ds, key, s, |s| - 1, Add(e[|s| - 1], ds[|ds| - 1]))
  {
    var n, j := |ds|, |s| - 1;
    var init := ds[..n - 1];
    assert RunSummed(init, key, s, j, e[j]);
    assert RunEnd(s, n - 1, j) == n - 1;
    assert RunEnd(s, n, j) == n;
    assert s[j] <= n - 1;
    var run := ds[s[j]..n];
    SliceOfPrefix(ds, s[j], n - 1, n - 1);
    assert run[..|run| - 1] == ds[s[j]..n - 1];
    assert run[|run| - 1] == ds[n - 1];
    forall k | s[j] <= k < n
      ensures key(ds[k]) == key(ds[s[j]])
    {
      assert ds[s[j]] == init[s[j]];
      if k < n - 1 {
        assert ds[k] == init[k];
        assert key(init[k]) == key(init[s[j]]);
      } else {
        assert ds[n - 2] == init[n - 2];
        assert key(init[n - 2]) == key(init[s[j]]);
      }
    }
  }

  /** A difference with the key of its predecessor extends the last run. */
  lemma ExtendLastRun(ds: seq<Point>, key: Point -> Point, s: seq<nat>, e: seq<Point>)
    requires |ds| > 1 && key(ds[|ds| - 1]) == key(ds[|ds| - 2])
    requires RunsSummed(ds[..|ds| - 1], key, s, e)
    requires |s| > 0 && s[|s| - 1] < |ds| - 1
    ensures RunsSummed(ds, key, s, e[|e| - 1 := Add(e[|e| - 1], ds[|ds| - 1])])
  {
    var m := |s|;
    var e' := e[m - 1 := Add(e[m - 1], ds[|ds| - 1])];
    forall j | 0 <= j < m
      ensures RunSummed(ds, key, s, j, e'[j])
    {
      if j < m - 1 {
        EarlierRunKept(ds, key, s, e, j);
        assert e'[j] == e[j];
      } else {
        LastRunGrows(ds, key, s, e);
      }
    }
  }

  /** Opening a new run leaves the earlier runs as they were. */
  lemma EarlierRunKeptOnOpen(ds: seq<Point>, key: Point -> Point, s: seq<nat>, e: seq<Point>, j: nat)
    requires |ds| > 0
    requires RunsSummed(ds[..|ds| - 1], key, s, e)
    requires j < |s|
    ensures RunSummed(ds, key, s + [|ds| - 1], j, e[j])
  {
    var n := |ds|;
    var init, s' := ds[..n - 1], s + [n - 1];
    assert RunSummed(init, key, s, j, e[j]);
    assert s'[j] == s[j];
    var end := RunEnd(s, n - 1, j);
    assert RunEnd(s', n, j) == end;
    assert s[j] <= end <= n - 1;
    SliceOfPrefix(ds, s[j], end, n - 1);
    forall k | s[j] <= k < RunEnd(s', n, j)
      ensures key(ds[k]) == key(ds[s[j]])
    {
      assert ds[k] == init[k] && ds[s[j]] == init[s[j]];
    }
  }

  /** A difference with a key other than its predecessor's opens a new run. */
  lemma OpenNewRun(ds: seq<Point>, key: Point -> Point, s: seq<nat>, e: seq<Point>)
    requires |ds| > 0
    requires RunsSummed(ds[..|ds| - 1], key, s, e)
    ensures RunsSummed(ds, key, s + [|ds| - 1], e + [ds[|ds| - 1]])
  {
    var n, m := |ds|, |s|;
    var d := ds[n - 1];
    var s', e' := s + [n - 1], e + [d];
    forall j | 0 <= j < m + 1
      ensures RunSummed(ds, key, s', j, e'[j])
    {
      if j < m {
        EarlierRunKeptOnOpen(ds, key, s, e, j);
        assert e'[j] == e[j];
      } else {
        assert RunEnd(s', n, j) == n;
        assert ds[n - 1..n] == [d];
        assert [d][..0] == [];
      }
    }
  }

  /** The step of MergeIsRunSums for a difference that joins the last run. */
  lemma MergeStepJoin(ds: seq<Point>, key: Point -> Point)
    requires |ds| > 1 && key(ds[|ds| - 1]) == key(ds[|ds| - 2])
    requires RunsSummed(ds[..|ds| - 1], key, RunStarts(ds[..|ds| - 1], key), Merge(ds[..|ds| - 1], key))
    ensures RunsSummed(ds, key, RunStarts(ds, key), Merge(ds, key))
  {
    var n := |ds|;
    var init := ds[..n - 1];
    var s0, e0 := RunStarts(init, key), Merge(init, key);
    assert key(ds[n - 1]) == key(init[n - 2]);
    assert RunStarts(ds, key) == s0;
    assert Merge(ds, key) == e0[|e0| - 1 := Add(e0[|e0| - 1], ds[n - 1])];
    ExtendLastRun(ds, key, s0, e0);
  }

  /** The step of MergeIsRunSums for a difference that opens a run. */
  lemma MergeStepOpen(ds: seq<Point>, key: Point -> Point)
    requires |ds| > 0 && (|ds| == 1 || key(ds[|ds| - 1]) != key(ds[|ds| - 2]))
    requires RunsSummed(ds[..|ds| - 1], key, RunStarts(ds[..|ds| - 1], key), Merge(ds[..|ds| - 1], key))
    ensures RunsSummed(ds, key, RunStarts(ds, key), Merge(ds, key))
  {
    var n := |ds|;
    var init := ds[..n - 1];
    var s0, e0 := RunStarts(init, key), Merge(init, key);
    assert RunStarts(ds, key) == s0 + [n - 1];
    assert Merge(ds, key) == e0 + [ds[n - 1]];
    OpenNewRun(ds, key, s0, e0);
  }

  /** The reference reading of filter_points: there is one retained entry per
      maximal run of equal keys, each entry is the raw sum of its run, and
      every difference in a run has the key of the difference opening it. */
  lemma {:induction false} MergeIsRunSums(ds: seq<Point>, key: Point -> Point)
    ensures RunsSummed(ds, key, RunStarts(ds, key), Merge(ds, key))
    decreases |ds|
  {
    if |ds| > 0 {
      MergeIsRunSums(ds[..|ds| - 1], key);
      if |ds| > 1 && key(ds[|ds| - 1]) == key(ds[|ds| - 2]) {
        MergeStepJoin(ds, key);
      } else {
        MergeStepOpen(ds, key);
      }
    }
  }

  /** Merging never loses displacement: the entries sum to the same total as
      the differences. */
  lemma {:induction false} MergePreservesSum(ds: seq<Point>, key: Point -> Point)
    ensures Sum(Merge(ds, key)) == Sum(ds)
    decreases |ds|
  {
    if |ds| > 0 {
      var init, d := ds[..|ds| - 1], ds[|ds| - 1];
      var e0 := Merge(init, key);
      MergePreservesSum(init, key);
      if |init| > 0 && key(d) == key(init[|init| - 1]) {
        var e := Merge(ds, key);
        assert e[..|e| - 1] == e0[..|e0| - 1];
      } else {
        assert (e0 + [d])[..|e0|] == e0;
      }
    }
  }

  /** Neighbouring retained entries were opened by differences with different
      keys. */
  lemma NeighbouringRunsDiffer(ds: seq<Point>, key: Point -> Point)
    ensures var s := RunStarts(ds, key);
      forall j :: 0 <= j < |s| - 1 ==> key(ds[s[j]]) != key(ds[s[j + 1]])
  {
    var s := RunStarts(ds, key);
    RunStartsSorted(ds, key);
    MergeIsRunSums(ds, key);
    forall j | 0 <= j < |s| - 1
      ensures key(ds[s[j]]) != key(ds[s[j + 1]])
    {
      var k := s[j + 1] - 1;
      assert RunSummed(ds, key, s, j, Merge(ds, key)[j]);
      assert s[j] <= k < RunEnd(s, |ds|, j);
      assert key(ds[k]) == key(ds[s[j]]);
    }
  }

  /** Differences that all share one key merge into a single entry. */
  lemma {:induction false} UniformKeyMergesAll(ds: seq<Point>, key: Point -> Point)
    requires |ds| > 0
    requires forall i :: 0 <= i < |ds| ==> key(ds[i]) == key(ds[0])
    ensures Merge(ds, key) == [Sum(ds)]
    decreases |ds|
  {
    if |ds| > 1 {
      var init := ds[..|ds| - 1];
      UniformKeyMergesAll(init, key);
      assert key(init[|init| - 1]) == key(ds[0]);
    } else {
      assert ds[..0] == [];
    }
  }

  /** What filter_points returns: the running sums of the first point followed
      by the retained entries. */
  function FilterPointsSpec(points: seq<Point>, key: Point -> Point): seq<Point>
    requires |points| > 0
  {
    PrefixSums([points[0]] + Merge(Diffs(points), key))
  }

  /** filter_points keeps the first and the last point, never lengthens its
      input and leaves a single point alone. */
  lemma FilterPointsEnds(points: seq<Point>, key: Point -> Point)
    requires |points| > 0
    ensures var out := FilterPointsSpec(points, key);
      && 1 <= |out| <= |points|
      && out[0] == points[0]
      && out[|out| - 1] == points[|points| - 1]
      && (|points| == 1 ==> out == points)
  {
    var ds := Diffs(points);
    var es := [points[0]] + Merge(ds, key);
    var out := PrefixSums(es);
    assert out[0] == Sum([points[0]]);
    assert es[..|es|] == es;
    SumAppend([points[0]], Merge(ds, key));
    MergePreservesSum(ds, key);
    Telescope(points);
    if |points| == 1 {
      assert out == [points[0]];
    }
  }

  /** filter_points returns one point per run of equal keys after the first,
      and its output steps are exactly the retained entries. */
  lemma FilterPointsSteps(points: seq<Point>, key: Point -> Point)
    requires |points| > 0
    ensures var out := FilterPointsSpec(points, key);
      && |out| == 1 + |RunStarts(Diffs(points), key)|
      && Diffs(out) == Merge(Diffs(points), key)
  {
    var ds := Diffs(points);
    MergeIsRunSums(ds, key);
    DiffsOfCumsum([points[0]] + Merge(ds, key));
  }

  /** When every difference has the same key, only the first and the last
      point survive. */
  lemma FilterPointsUniform(points: seq<Point>, key: Point -> Point)
    requires |points| > 1
    requires forall i :: 0 <= i < |points| - 1 ==>
      key(Sub(points[i + 1], points[i])) == key(Sub(points[1], points[0]))
    ensures FilterPointsSpec(points, key) == [points[0], points[|points| - 1]]
  {
    var ds := Diffs(points);
    UniformKeyMergesAll(ds, key);
    FilterPointsEnds(points, key);
  }

  /** One more difference either joins the last entry or opens a new one. */
  lemma MergeSnoc(ds: seq<Point>, i: nat, key: Point -> Point)
    requires i < |ds|
    ensures var es := Merge(ds[..i], key);
      Merge(ds[..i + 1], key)
      == if i > 0 && key(ds[i]) == key(ds[i - 1]) then es[|es| - 1 := Add(es[|es| - 1], ds[i])] else es + [ds[i]]
  {
    assert ds[..i + 1][..i] == ds[..i];
  }

  /** The same step on the list filter_points keeps, which holds the first
      point ahead of the entries. */
  lemma FilteredSnoc(p: Point, ds: seq<Point>, i: nat, key: Point -> Point)
    requires i < |ds|
    ensures var f := [p] + Merge(ds[..i], key);
      [p] + Merge(ds[..i + 1], key)
      == if i > 0 && key(ds[i]) == key(ds[i - 1]) then f[|f| - 1 := Add(f[|f| - 1], ds[i])] else f + [ds[i]]
  {
    MergeSnoc(ds, i, key);
    var es := Merge(ds[..i], key);
    if i > 0 && key(ds[i]) == key(ds[i - 1]) {
      assert |es| > 0;
      assert [p] + es[|es| - 1 := Add(es[|es| - 1], ds[i])] == ([p] + es)[|es| := Add(es[|es| - 1], ds[i])];
    } else {
      assert [p] + (es + [ds[i]]) == [p] + es + [ds[i]];
    }
  }

  /** filter_points, as the source runs it: `filtered` grows in place and
      `last` holds the key of the difference that opened the newest entry
      (None before the first, so the first difference always opens one). */
  method FilterPoints(points: seq<Point>, key: Point -> Point) returns (out: seq<Point>)
    requires |points| > 0
    ensures out == FilterPointsSpec(points, key)
  {
    var diff := Diffs(points);
    var filtered := [points[0]];
    var last: Option<Point> := None;
    for i := 0 to |diff|
      invariant filtered == [points[0]] + Merge(diff[..i], key)
      invariant last == if i == 0 then None else Some(key(diff[i - 1]))
    {
      var d, r := diff[i], key(diff[i]);
      FilteredSnoc(points[0], diff, i, key);
      if Some(r) == last {
        filtered := filtered[|filtered| - 1 := Add(filtered[|filtered| - 1], d)];
      } else {
        filtered := filtered + [d];
        last := Some(r);
      }
    }
    assert diff[..|diff|] == diff;
    out := PrefixSums(filtered);
  }
}
