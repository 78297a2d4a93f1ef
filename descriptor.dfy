/**
 * The descriptor builder: the loop that turns the ordered landmark points of a
 * face into the vector of distances between consecutive points
 * (backend/app.py, in both the enrollment and the recognition handler).
 */
module Descriptor {
  import opened RealMath

  /** A landmark in pixel coordinates, (x, y). */
  type Point = (real, real)

  /** dx^2 + dy^2 for the segment from `p` to `q`. */
  function SquaredLength(p: Point, q: Point): real
  {
    var dx := q.0 - p.0;
    var dy := q.1 - p.1;
    dx * dx + dy * dy
  }

  /** The Euclidean distance between two landmarks: the non-negative root of dx^2 + dy^2. */
  function SegmentLength(sqrt: real -> real, p: Point, q: Point): (d: real)
    requires IsSqrt(sqrt)
    ensures 0.0 <= d
    ensures d * d == (q.0 - p.0) * (q.0 - p.0) + (q.1 - p.1) * (q.1 - p.1)
  {
    sqrt(SquaredLength(p, q))
  }

  /**
   * The descriptor of a point sequence, built as the source's loop builds it:
   * one entry appended per point after the first. Entry i is the length of
   * the segment from point i to point i + 1; no normalisation is applied.
   */
  function Describe(sqrt: real -> real, points: seq<Point>): (v: seq<real>)
    requires IsSqrt(sqrt)
    ensures |points| > 0 ==> |v| == |points| - 1
    ensures |points| == 0 ==> v == []
    ensures forall i :: 0 <= i < |v| ==> v[i] == SegmentLength(sqrt, points[i], points[i + 1])
    ensures forall i :: 0 <= i < |v| ==> 0.0 <= v[i]
  {
    if |points| <= 1 then []
    else Describe(sqrt, points[..|points| - 1]) + [SegmentLength(sqrt, points[|points| - 2], points[|points| - 1])]
  }

  /** The builder loop `for i in range(1, len(puntos))`, appending one distance per step. */
  method BuildDescriptor(sqrt: real -> real, points: seq<Point>) returns (vector: seq<real>)
    requires IsSqrt(sqrt)
    ensures vector == Describe(sqrt, points)
    ensures |points| > 0 ==> |vector| == |points| - 1
    ensures forall i :: 0 <= i < |vector| ==> 0.0 <= vector[i]
  {
    vector := [];
    if |points| == 0 {
      return;
    }
    var i := 1;
    while i < |points|
      invariant 1 <= i <= |points|
      invariant vector == Describe(sqrt, points[..i])
    {
      var dx := points[i].0 - points[i - 1].0;
      var dy := points[i].1 - points[i - 1].1;
      assert dx * dx + dy * dy == SquaredLength(points[i - 1], points[i]);
      var dist := sqrt(dx * dx + dy * dy);
      assert points[..i + 1][..i] == points[..i];
      vector := vector + [dist];
      i := i + 1;
    }
    assert points[..i] == points;
  }

  /** Three landmarks (0,0), (3,4), (3,4) give the descriptor [5, 0]. */
  lemma {:induction false} DescribeExample(sqrt: real -> real)
    requires IsSqrt(sqrt)
    ensures Describe(sqrt, [(0.0, 0.0), (3.0, 4.0), (3.0, 4.0)]) == [5.0, 0.0]
  {
    var v := Describe(sqrt, [(0.0, 0.0), (3.0, 4.0), (3.0, 4.0)]);
    SqrtUnique(sqrt, 25.0, 5.0);
    SqrtUnique(sqrt, 0.0, 0.0);
    assert |v| == 2;
    assert v[0] == sqrt(25.0);
    assert v[1] == sqrt(0.0);
  }
}
