/** Plane geometry shared by the flattener and the compressor.
    The source carries every point as a complex number x + y·i; here a point
    is a pair of reals and all arithmetic is exact. */
module Geometry {

  datatype Point = Point(x: real, y: real)

  const Origin: Point := Point(0.0, 0.0)

  function Add(p: Point, q: Point): Point {
    Point(p.x + q.x, p.y + q.y)
  }

  function Sub(p: Point, q: Point): Point {
    Point(p.x - q.x, p.y - q.y)
  }

  /** The sum of a sequence of displacements (Origin for the empty one). */
  function Sum(ds: seq<Point>): Point {
    if |ds| == 0 then Origin else Add(Sum(ds[..|ds| - 1]), ds[|ds| - 1])
  }

  /** numpy.diff: the consecutive differences ps[i+1] - ps[i]. */
  function Diffs(ps: seq<Point>): (ds: seq<Point>)
    ensures |ds| == if |ps| == 0 then 0 else |ps| - 1
  {
    if |ps| == 0 then []
    else seq(|ps| - 1, i requires 0 <= i < |ps| - 1 => Sub(ps[i + 1], ps[i]))
  }

  /** numpy.cumsum: entry j is the sum of es[0..j]. */
  function PrefixSums(es: seq<Point>): (ps: seq<Point>)
    ensures |ps| == |es|
  {
    seq(|es|, j requires 0 <= j < |es| => Sum(es[..j + 1]))
  }

  /** Summing is compatible with concatenation. */
  lemma {:induction false} SumAppend(a: seq<Point>, b: seq<Point>)
    ensures Sum(a + b) == Add(Sum(a), Sum(b))
    decreases |b|
  {
    if |b| == 0 {
      assert a + b == a;
    } else {
      var b' := b[..|b| - 1];
      assert (a + b)[..|a + b| - 1] == a + b';
      SumAppend(a, b');
    }
  }

  /** The differences of a point sequence telescope: the first point plus all of
      them is the last point. */
  lemma {:induction false} Telescope(ps: seq<Point>)
    requires |ps| > 0
    ensures Add(ps[0], Sum(Diffs(ps))) == ps[|ps| - 1]
    decreases |ps|
  {
    if |ps| > 1 {
      var init := ps[..|ps| - 1];
      Telescope(init);
      assert Diffs(ps)[..|ps| - 2] == Diffs(init);
    }
  }

  /** cumsum inverts diff: seeding the differences with the first point and
      summing them back yields the original sequence. */
  lemma CumsumOfDiffs(ps: seq<Point>)
    requires |ps| > 0
    ensures PrefixSums([ps[0]] + Diffs(ps)) == ps
  {
    var es := [ps[0]] + Diffs(ps);
    forall j | 0 <= j < |ps|
      ensures PrefixSums(es)[j] == ps[j]
    {
      var pre := ps[..j + 1];
      assert es[..j + 1] == [pre[0]] + Diffs(pre);
      SumAppend([pre[0]], Diffs(pre));
      Telescope(pre);
    }
  }

  /** diff inverts cumsum, apart from the seed: the differences of the running
      sums are the displacements after the first. */
  lemma DiffsOfCumsum(es: seq<Point>)
    requires |es| > 0
    ensures Diffs(PrefixSums(es)) == es[1..]
  {
    var ps := PrefixSums(es);
    forall i | 0 <= i < |es| - 1
      ensures Diffs(ps)[i] == es[i + 1]
    {
      assert es[..i + 2][..i + 1] == es[..i + 1];
    }
  }
}
