/** The path flattener and shape builder: the loops of svg2ReGIS.py that turn
    every continuous subpath into a polygon (svg2ReGIS.py:106-120).

    Segments come from the SVG library; the model sees only what the script
    asks of them: the arc length and the point at a parameter t. */
module Flatten {

  import opened Geometry
  import opened Optional
  import Compress

  /** The sampling resolution, seg_res: device units per sample. */
  const SegRes: real := 1.0

  /** One path segment (line, arc or Bézier curve) as the SVG library presents it. */
  datatype Segment = Segment(length: real, point: real -> Point)

  /** A continuous subpath and whether the library reports it as closed. */
  datatype Subpath = Subpath(segments: seq<Segment>, closed: bool)

  /** math.ceil. */
  function Ceil(x: real): (n: int)
    ensures n as real - 1.0 < x <= n as real
  {
    if x.Floor as real == x then x.Floor else x.Floor + 1
  }

  /** interp_num: ceil(length / seg_res) samples; numpy.arange of a count that
      is not positive is empty, so such a segment gives no sample. */
  function SampleCount(seg: Segment): (n: nat)
    ensures n == 0 <==> seg.length <= 0.0
  {
    var c := Ceil(seg.length / SegRes);
    if c <= 0 then 0 else c
  }

  /** A segment of positive length gets the fewest samples that leave at most
      seg_res of arc length per sample. */
  lemma SampleCountBounds(seg: Segment)
    requires seg.length > 0.0
    ensures (SampleCount(seg) - 1) as real * SegRes < seg.length <= SampleCount(seg) as real * SegRes
  {
  }

  /** seg.point(np.arange(n) / n): the points at t = k/n for k = 0 .. n-1. */
  function Samples(seg: Segment): (ps: seq<Point>)
    ensures |ps| == SampleCount(seg)
  {
    var n := SampleCount(seg);
    seq(n, k requires 0 <= k < n => seg.point(k as real / n as real))
  }

  /** The concatenation of the samples of every segment, in order. */
  function RawSamples(segs: seq<Segment>): seq<Point>
    decreases |segs|
  {
    if |segs| == 0 then [] else RawSamples(segs[..|segs| - 1]) + Samples(segs[|segs| - 1])
  }

  /** The sum over the segments of their sample counts. */
  function TotalSamples(segs: seq<Segment>): nat
    decreases |segs|
  {
    if |segs| == 0 then 0 else TotalSamples(segs[..|segs| - 1]) + SampleCount(segs[|segs| - 1])
  }

  /** A subpath whose flattening yields at least one point; filter_points
      fails on any other (it reads points[0]). */
  predicate HasSamples(sp: Subpath) {
    RawSamples(sp.segments) != []
  }

  /** The raw sample count of a subpath is the sum of ceil(length / seg_res)
      over its segments. */
  lemma {:induction false} RawSampleCount(segs: seq<Segment>)
    ensures |RawSamples(segs)| == TotalSamples(segs)
    decreases |segs|
  {
    if |segs| > 0 {
      RawSampleCount(segs[..|segs| - 1]);
    }
  }

  /** Sample k of segment i sits at offset TotalSamples(segs[..i]) + k of the
      flattened points. */
  lemma {:induction false} RawSampleLayout(segs: seq<Segment>, i: nat, k: nat)
    requires i < |segs| && k < SampleCount(segs[i])
    ensures TotalSamples(segs[..i]) + k < |RawSamples(segs)|
    ensures RawSamples(segs)[TotalSamples(segs[..i]) + k] == Samples(segs[i])[k]
    decreases |segs|
  {
    var init, last := segs[..|segs| - 1], segs[|segs| - 1];
    var raw, ri := RawSamples(segs), RawSamples(init);
    assert raw == ri + Samples(last);
    RawSampleCount(init);
    if i < |segs| - 1 {
      assert segs[..i] == init[..i];
      assert segs[i] == init[i];
      RawSampleLayout(init, i, k);
    } else {
      assert segs[..i] == init;
    }
  }

  /** Flattened point TotalSamples(segs[..i]) + k is the point of segment i
      at t = k/n, with n its sample count. */
  lemma RawSamplePoint(segs: seq<Segment>, i: nat, k: nat)
    requires i < |segs| && k < SampleCount(segs[i])
    ensures TotalSamples(segs[..i]) + k < |RawSamples(segs)|
    ensures RawSamples(segs)[TotalSamples(segs[..i]) + k]
         == segs[i].point(k as real / SampleCount(segs[i]) as real)
  {
    RawSampleLayout(segs, i, k);
  }

  /** A subpath yields points exactly when one of its segments has positive
      length: an all-zero-length subpath leaves filter_points nothing. */
  lemma {:induction false} SamplesIffPositiveLength(segs: seq<Segment>)
    ensures RawSamples(segs) != [] <==> exists i :: 0 <= i < |segs| && segs[i].length > 0.0
    decreases |segs|
  {
    if |segs| > 0 {
      var init := segs[..|segs| - 1];
      SamplesIffPositiveLength(init);
      if exists i :: 0 <= i < |init| && init[i].length > 0.0 {
        var i :| 0 <= i < |init| && init[i].length > 0.0;
        assert segs[i] == init[i];
      }
      if exists i :: 0 <= i < |segs| && segs[i].length > 0.0 {
        var i :| 0 <= i < |segs| && segs[i].length > 0.0;
        if i < |init| {
          assert init[i] == segs[i];
        }
      }
    }
  }

  /** Appends the first point when the subpath is closed. */
  function Close(pts: seq<Point>, closed: bool): seq<Point>
    requires |pts| > 0
  {
    if closed then pts + [pts[0]] else pts
  }

  /** Closing keeps the points, and a closed polygon ends where it starts. */
  lemma CloseProperties(pts: seq<Point>, closed: bool)
    requires |pts| > 0
    ensures var poly := Close(pts, closed);
      && |poly| == |pts| + (if closed then 1 else 0)
      && poly[..|pts|] == pts
      && (closed ==> poly[|poly| - 1] == poly[0])
  {
  }

  /** The polygon of one subpath: its flattened points through filter_points,
      with the first point appended when the subpath is closed. */
  function SubpathPolygon(sp: Subpath, key: Point -> Point): seq<Point>
    requires HasSamples(sp)
  {
    Close(Compress.FilterPointsSpec(RawSamples(sp.segments), key), sp.closed)
  }

  /** poly traces the samples raw: it starts at the first sample; when closed
      it ends where it starts, and otherwise at the last sample; it has at most
      one point more than raw when closed and no more otherwise. */
  predicate Traces(raw: seq<Point>, closed: bool, poly: seq<Point>) {
    && |raw| >= 1
    && 1 <= |poly| <= |raw| + (if closed then 1 else 0)
    && poly[0] == raw[0]
    && (closed ==> |poly| >= 2 && poly[|poly| - 1] == poly[0])
    && (!closed ==> poly[|poly| - 1] == raw[|raw| - 1])
  }

  /** Compressing then closing a non-empty point list traces it. */
  lemma CompressThenClose(raw: seq<Point>, closed: bool, key: Point -> Point)
    requires |raw| > 0
    ensures Traces(raw, closed, Close(Compress.FilterPointsSpec(raw, key), closed))
  {
    var pts := Compress.FilterPointsSpec(raw, key);
    Compress.FilterPointsEnds(raw, key);
    CloseProperties(pts, closed);
    assert pts[0] == Close(pts, closed)[..|pts|][0];
    if !closed {
      assert pts[|pts| - 1] == Close(pts, closed)[|pts| - 1];
    }
  }

  /** A subpath polygon traces the subpath's samples: closure is appended
      after compression, so compression cannot undo it, and compression only
      shortens. */
  lemma SubpathPolygonProperties(sp: Subpath, key: Point -> Point)
    requires HasSamples(sp)
    ensures Traces(RawSamples(sp.segments), sp.closed, SubpathPolygon(sp, key))
  {
    CompressThenClose(RawSamples(sp.segments), sp.closed, key);
  }

  /** Flattens, compresses and closes one subpath (svg2ReGIS.py:111-119).
      None stands for the failure of filter_points on an empty sample list,
      which ends the script without output. */
  method FlattenSubpath(sp: Subpath, key: Point -> Point) returns (poly: Option<seq<Point>>)
    ensures poly.None? <==> !HasSamples(sp)
    ensures poly.Some? ==> poly.value == SubpathPolygon(sp, key)
    ensures poly.Some? && sp.closed ==> |poly.value| >= 2 && poly.value[|poly.value| - 1] == poly.value[0]
  {
    var segs := sp.segments;
    var points: seq<Point> := [];
    for i := 0 to |segs|
      invariant points == RawSamples(segs[..i])
    {
      assert segs[..i + 1][..i] == segs[..i];
      points := points + Samples(segs[i]);
    }
    assert segs[..|segs|] == segs;
    if |points| == 0 {
      return None;
    }
    var filtered := Compress.FilterPoints(points, key);
    if sp.closed {
      filtered := filtered + [filtered[0]];
    }
    poly := Some(filtered);
  }

  /** Every subpath of every path can be flattened. */
  predicate AllDrawable(paths: seq<seq<Subpath>>) {
    forall i, j :: 0 <= i < |paths| && 0 <= j < |paths[i]| ==> HasSamples(paths[i][j])
  }

  /** The polygons of one path, one per continuous subpath, in order. */
  function PathPolygons(path: seq<Subpath>, key: Point -> Point): seq<seq<Point>>
    requires forall j :: 0 <= j < |path| ==> HasSamples(path[j])
    decreases |path|
  {
    if |path| == 0 then []
    else PathPolygons(path[..|path| - 1], key) + [SubpathPolygon(path[|path| - 1], key)]
  }

  /** Polygon j of a path is the polygon of its subpath j. */
  lemma {:induction false} PathPolygonsAt(path: seq<Subpath>, key: Point -> Point)
    requires forall j :: 0 <= j < |path| ==> HasSamples(path[j])
    ensures |PathPolygons(path, key)| == |path|
    ensures forall j :: 0 <= j < |path| ==> PathPolygons(path, key)[j] == SubpathPolygon(path[j], key)
    decreases |path|
  {
    if |path| > 0 {
      var init := path[..|path| - 1];
      PathPolygonsAt(init, key);
      var pp, pi := PathPolygons(path, key), PathPolygons(init, key);
      assert pp == pi + [SubpathPolygon(path[|path| - 1], key)];
      forall j | 0 <= j < |path|
        ensures pp[j] == SubpathPolygon(path[j], key)
      {
        if j < |init| {
          assert pp[j] == pi[j];
          assert init[j] == path[j];
        } else {
          assert j == |pi|;
        }
      }
    }
  }

  /** polys: the multi-polygon of every path, in document order. */
  function Shapes(paths: seq<seq<Subpath>>, key: Point -> Point): seq<seq<seq<Point>>>
    requires AllDrawable(paths)
  {
    seq(|paths|, i requires 0 <= i < |paths| && AllDrawable([paths[i]]) => PathPolygons(paths[i], key))
  }

  /** The shape builder keeps the document's structure: one multi-polygon per
      path, one polygon per subpath (the polygon of that subpath), every
      polygon non-empty and every closed subpath's polygon closed. */
  lemma ShapesStructure(paths: seq<seq<Subpath>>, key: Point -> Point)
    requires AllDrawable(paths)
    ensures var polys := Shapes(paths, key);
      && |polys| == |paths|
      && forall i :: 0 <= i < |paths| ==>
        && |polys[i]| == |paths[i]|
        && forall j :: 0 <= j < |paths[i]| ==>
          && polys[i][j] == SubpathPolygon(paths[i][j], key)
          && |polys[i][j]| >= 1
          && (paths[i][j].closed ==> polys[i][j][|polys[i][j]| - 1] == polys[i][j][0])
  {
    var polys := Shapes(paths, key);
    forall i | 0 <= i < |paths|
      ensures |polys[i]| == |paths[i]|
      ensures forall j :: 0 <= j < |paths[i]| ==>
          && polys[i][j] == SubpathPolygon(paths[i][j], key)
          && |polys[i][j]| >= 1
          && (paths[i][j].closed ==> polys[i][j][|polys[i][j]| - 1] == polys[i][j][0])
    {
      assert AllDrawable([paths[i]]);
      PathPolygonsAt(paths[i], key);
      forall j | 0 <= j < |paths[i]|
        ensures |SubpathPolygon(paths[i][j], key)| >= 1
        ensures paths[i][j].closed ==> SubpathPolygon(paths[i][j], key)[|SubpathPolygon(paths[i][j], key)| - 1] == SubpathPolygon(paths[i][j], key)[0]
      {
        SubpathPolygonProperties(paths[i][j], key);
      }
    }
  }

  /** Building the polygons of a path one subpath further appends that
      subpath's polygon. */
  lemma PathPolygonsSnoc(path: seq<Subpath>, j: nat, key: Point -> Point)
    requires j < |path|
    requires forall jj :: 0 <= jj <= j ==> HasSamples(path[jj])
    ensures PathPolygons(path[..j + 1], key) == PathPolygons(path[..j], key) + [SubpathPolygon(path[j], key)]
  {
    assert path[..j + 1][..j] == path[..j];
  }

  /** Building the shapes one path further appends that path's polygons. */
  lemma ShapesSnoc(paths: seq<seq<Subpath>>, i: nat, key: Point -> Point)
    requires i < |paths|
    requires AllDrawable(paths[..i]) && AllDrawable([paths[i]])
    ensures AllDrawable(paths[..i + 1])
    ensures Shapes(paths[..i + 1], key) == Shapes(paths[..i], key) + [PathPolygons(paths[i], key)]
  {
    assert paths[..i + 1] == paths[..i] + [paths[i]];
  }

  /** The nested loops over paths and subpaths that build polys
      (svg2ReGIS.py:107-120). */
  method BuildPolygons(paths: seq<seq<Subpath>>, key: Point -> Point) returns (polys: Option<seq<seq<seq<Point>>>>)
    ensures polys.None? <==> !AllDrawable(paths)
    ensures polys.Some? ==> polys.value == Shapes(paths, key)
  {
    var acc: seq<seq<seq<Point>>> := [];
    for i := 0 to |paths|
      invariant AllDrawable(paths[..i])
      invariant acc == Shapes(paths[..i], key)
    {
      var path := paths[i];
      var poly: seq<seq<Point>> := [];
      for j := 0 to |path|
        invariant forall jj :: 0 <= jj < j ==> HasSamples(path[jj])
        invariant poly == PathPolygons(path[..j], key)
      {
        var pts := FlattenSubpath(path[j], key);
        if pts.None? {
          assert !AllDrawable(paths) by {
            assert 0 <= i < |paths| && 0 <= j < |paths[i]| && !HasSamples(paths[i][j]);
          }
          return None;
        }
        PathPolygonsSnoc(path, j, key);
        poly := poly + [pts.value];
      }
      assert path[..|path|] == path;
      ShapesSnoc(paths, i, key);
      acc := acc + [poly];
    }
    assert paths[..|paths|] == paths;
    polys := Some(acc);
  }
}
