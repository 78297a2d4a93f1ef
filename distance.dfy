/**
 * `calcular_distancia` (backend/app.py): the L2 norm of the difference of two
 * descriptors. `Distance` returns `None` for every pair of different lengths,
 * which the matcher treats as a skipped candidate. numpy raises for most such
 * pairs but broadcasts an array of length 1 instead; `BroadcastDistance`
 * models that as-written behaviour.
 */
module Distances {
  import opened Wrappers
  import opened RealMath

  /** The sum of the squared component-wise differences of two equal-length vectors. */
  function SumOfSquares(v1: seq<real>, v2: seq<real>): (s: real)
    requires |v1| == |v2|
    ensures 0.0 <= s
  {
    if |v1| == 0 then 0.0
    else (v1[0] - v2[0]) * (v1[0] - v2[0]) + SumOfSquares(v1[1..], v2[1..])
  }

  /**
   * The Euclidean distance between two descriptors, or `None` when their
   * lengths differ: a mismatched pair is never compared.
   */
  function Distance(sqrt: real -> real, v1: seq<real>, v2: seq<real>): (d: Option<real>)
    requires IsSqrt(sqrt)
    ensures d.Some? <==> |v1| == |v2|
    ensures d.Some? ==> 0.0 <= d.value && d.value * d.value == SumOfSquares(v1, v2)
  {
    if |v1| == |v2| then Some(sqrt(SumOfSquares(v1, v2))) else None
  }

  lemma {:induction false} SumOfSquaresSymmetric(v1: seq<real>, v2: seq<real>)
    requires |v1| == |v2|
    ensures SumOfSquares(v1, v2) == SumOfSquares(v2, v1)
  {
    if |v1| > 0 {
      SumOfSquaresSymmetric(v1[1..], v2[1..]);
      assert (v1[0] - v2[0]) * (v1[0] - v2[0]) == (v2[0] - v1[0]) * (v2[0] - v1[0]);
    }
  }

  lemma {:induction false} SumOfSquaresSelf(v: seq<real>)
    ensures SumOfSquares(v, v) == 0.0
  {
    if |v| > 0 {
      SumOfSquaresSelf(v[1..]);
    }
  }

  /** The distance is symmetric, including which pairs fail to compare. */
  lemma DistanceSymmetric(sqrt: real -> real, v1: seq<real>, v2: seq<real>)
    requires IsSqrt(sqrt)
    ensures Distance(sqrt, v1, v2) == Distance(sqrt, v2, v1)
  {
    if |v1| == |v2| {
      SumOfSquaresSymmetric(v1, v2);
    }
  }

  /** A descriptor is at distance zero from itself. */
  lemma DistanceToSelf(sqrt: real -> real, v: seq<real>)
    requires IsSqrt(sqrt)
    ensures Distance(sqrt, v, v) == Some(0.0)
  {
    SumOfSquaresSelf(v);
    SqrtUnique(sqrt, 0.0, 0.0);
  }

  /** numpy's broadcast of a length-1 array to length `n`: its one entry repeated. */
  function Stretch(v: seq<real>, n: nat): (r: seq<real>)
    requires |v| == 1
    ensures |r| == n && forall i :: 0 <= i < n ==> r[i] == v[0]
  {
    seq(n, _ => v[0])
  }

  /**
   * `calcular_distancia` exactly as numpy evaluates it on two one-dimensional
   * arrays: equal lengths subtract entry by entry, and an array of length 1 is
   * broadcast against the other, whatever its length; any other pair raises.
   */
  function BroadcastDistance(sqrt: real -> real, v1: seq<real>, v2: seq<real>): (d: Option<real>)
    requires IsSqrt(sqrt)
    ensures d.Some? <==> |v1| == |v2| || |v1| == 1 || |v2| == 1
    ensures |v1| == |v2| ==> d == Distance(sqrt, v1, v2)
    ensures |v1| != |v2| && |v2| == 1 ==>
      d.Some? && d.value * d.value == SumOfSquares(v1, Stretch(v2, |v1|))
    ensures |v1| != |v2| && |v1| == 1 ==>
      d.Some? && d.value * d.value == SumOfSquares(Stretch(v1, |v2|), v2)
    ensures d.Some? ==> 0.0 <= d.value
  {
    if |v1| == |v2| then Distance(sqrt, v1, v2)
    else if |v2| == 1 then Distance(sqrt, v1, Stretch(v2, |v1|))
    else if |v1| == 1 then Distance(sqrt, Stretch(v1, |v2|), v2)
    else None
  }
}
