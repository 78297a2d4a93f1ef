/**
 * The square root the descriptor and the distance rely on.
 *
 * Dafny's logic cannot prove that every non-negative real has a square root,
 * so the root is not defined here: each member that needs one receives it as a
 * parameter `sqrt`, constrained by `IsSqrt`, and every property below follows
 * from that constraint alone.
 */
module RealMath {

  /** `sqrt` returns the non-negative square root of every non-negative real. */
  ghost predicate IsSqrt(sqrt: real -> real)
  {
    forall x: real :: 0.0 <= x ==> 0.0 <= sqrt(x) && sqrt(x) * sqrt(x) == x
  }

  /** The non-negative root is unique: any `r >= 0` with `r * r == x` is `sqrt(x)`. */
  lemma SqrtUnique(sqrt: real -> real, x: real, r: real)
    requires IsSqrt(sqrt)
    requires 0.0 <= r && r * r == x
    ensures sqrt(x) == r
  {
    var s := sqrt(x);
    assert 0.0 <= s && s * s == x;
    assert (s - r) * (s + r) == 0.0;
    if s + r == 0.0 {
      assert s == 0.0 && r == 0.0;
    } else {
      assert s - r == 0.0;
    }
  }

  /** Comparing a root with a non-negative bound is comparing the radicand with the bound squared. */
  lemma SqrtBelow(sqrt: real -> real, x: real, t: real)
    requires IsSqrt(sqrt)
    requires 0.0 <= x && 0.0 <= t
    ensures sqrt(x) < t <==> x < t * t
  {
    var s := sqrt(x);
    assert 0.0 <= s && s * s == x;
    assert x == s * s;
    if s < t {
      var st := s * t;
      assert s * s <= st;
      assert st < t * t;
    } else {
      var st := s * t;
      assert t * t <= st;
      assert st <= s * s;
    }
  }
}
