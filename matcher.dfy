/**
 * The recognition scan of `reconocer_usuario` (backend/app.py): a linear pass
 * over every enrolled user that keeps the closest user seen so far, accepting
 * a user only when its distance is strictly below both the best distance so
 * far and the fixed threshold, and skipping users whose stored embedding
 * cannot be parsed or compared.
 */
module Matcher {
  import opened Wrappers
  import opened RealMath
  import opened Distances

  /** The identity columns of an enrolled user (`requisitoriado` is `wanted`). */
  datatype User = User(id: int, name: string, surname: string, code: string, email: string, wanted: bool)

  /**
   * A stored row: the user and the parsed embedding, `None` when the stored
   * text does not parse as a list of numbers.
   */
  datatype Candidate = Candidate(user: User, embedding: Option<seq<real>>)

  /** The running best of the scan: no user yet (distance infinity), or a user and its distance. */
  datatype Best = NoBest | Best(user: User, distance: real)

  /** The acceptance ceiling `umbral`. */
  const Threshold: real := 30.0

  /**
   * The distance from the query to a candidate, or `None` when the candidate
   * is skipped: its embedding did not parse, or its length differs from the
   * query's.
   */
  function Measure(sqrt: real -> real, query: seq<real>, c: Candidate): (d: Option<real>)
    requires IsSqrt(sqrt)
    ensures d.Some? <==> c.embedding.Some? && |c.embedding.value| == |query|
    ensures d.Some? ==> 0.0 <= d.value
    ensures d.Some? ==> d.value * d.value == SumOfSquares(query, c.embedding.value)
  {
    if c.embedding.None? then None else Distance(sqrt, query, c.embedding.value)
  }

  /** A candidate that can win: it compares, and strictly below the threshold. */
  ghost predicate Acceptable(sqrt: real -> real, query: seq<real>, c: Candidate)
    requires IsSqrt(sqrt)
  {
    Measure(sqrt, query, c).Some? && Measure(sqrt, query, c).value < Threshold
  }

  /**
   * One iteration of the scan over candidate `c`: a skipped candidate leaves
   * the best unchanged; otherwise `c` takes over exactly when its distance is
   * below the threshold and strictly below the best so far.
   */
  function Step(sqrt: real -> real, query: seq<real>, best: Best, c: Candidate): (next: Best)
    requires IsSqrt(sqrt)
    ensures Measure(sqrt, query, c).None? ==> next == best
    ensures next != best ==> Acceptable(sqrt, query, c) && next == Best(c.user, Measure(sqrt, query, c).value)
    ensures next != best ==> best.NoBest? || Measure(sqrt, query, c).value < best.distance
    ensures Acceptable(sqrt, query, c) && (best.NoBest? || Measure(sqrt, query, c).value < best.distance) ==>
      next == Best(c.user, Measure(sqrt, query, c).value)
  {
    match Measure(sqrt, query, c)
    case None => best
    case Some(d) =>
      if (best.NoBest? || d < best.distance) && d < Threshold then Best(c.user, d) else best
  }

  /**
   * The state after scanning `cs` in order from no best: a selected user is
   * at a distance strictly below the threshold and never negative.
   */
  function Scan(sqrt: real -> real, query: seq<real>, cs: seq<Candidate>): (r: Best)
    requires IsSqrt(sqrt)
    ensures r.Best? ==> 0.0 <= r.distance < Threshold
    ensures |cs| == 0 ==> r == NoBest
  {
    if |cs| == 0 then NoBest
    else Step(sqrt, query, Scan(sqrt, query, cs[..|cs| - 1]), cs[|cs| - 1])
  }

  /**
   * Index `k` holds the first closest candidate, and it is acceptable: every
   * earlier candidate that compares is strictly farther, and every later one
   * is at least as far.
   */
  ghost predicate IsFirstClosest(sqrt: real -> real, query: seq<real>, cs: seq<Candidate>, k: int)
    requires IsSqrt(sqrt)
  {
    && 0 <= k < |cs|
    && Acceptable(sqrt, query, cs[k])
    && (forall j :: 0 <= j < k && Measure(sqrt, query, cs[j]).Some? ==>
          Measure(sqrt, query, cs[j]).value > Measure(sqrt, query, cs[k]).value)
    && (forall j :: k < j < |cs| && Measure(sqrt, query, cs[j]).Some? ==>
          Measure(sqrt, query, cs[j]).value >= Measure(sqrt, query, cs[k]).value)
  }

  /**
   * The scan finds no user exactly when no candidate is acceptable, and
   * otherwise returns the first closest candidate with its distance.
   */
  lemma {:induction false} ScanSelectsFirstClosest(sqrt: real -> real, query: seq<real>, cs: seq<Candidate>)
    requires IsSqrt(sqrt)
    ensures Scan(sqrt, query, cs).NoBest? <==> forall j :: 0 <= j < |cs| ==> !Acceptable(sqrt, query, cs[j])
    ensures Scan(sqrt, query, cs).Best? ==>
      exists k :: IsFirstClosest(sqrt, query, cs, k)
        && Scan(sqrt, query, cs) == Best(cs[k].user, Measure(sqrt, query, cs[k]).value)
  {
    if |cs| > 0 {
      var n := |cs| - 1;
      var p, c := cs[..n], cs[n];
      ScanSelectsFirstClosest(sqrt, query, p);
      assert forall j :: 0 <= j < n ==> p[j] == cs[j];
      var before := Scan(sqrt, query, p);
      var m := Measure(sqrt, query, c);
      if before.Best? {
        var k :| IsFirstClosest(sqrt, query, p, k) && before == Best(p[k].user, Measure(sqrt, query, p[k]).value);
        if m.Some? && m.value < before.distance && m.value < Threshold {
          assert IsFirstClosest(sqrt, query, cs, n);
        } else {
          assert IsFirstClosest(sqrt, query, cs, k);
        }
      } else if m.Some? && m.value < Threshold {
        assert IsFirstClosest(sqrt, query, cs, n);
      }
    }
  }

  /** A first closest candidate, when there is one, is exactly what the scan returns. */
  lemma FirstClosestIsSelected(sqrt: real -> real, query: seq<real>, cs: seq<Candidate>, k: int)
    requires IsSqrt(sqrt)
    requires IsFirstClosest(sqrt, query, cs, k)
    ensures Scan(sqrt, query, cs) == Best(cs[k].user, Measure(sqrt, query, cs[k]).value)
  {
    ScanSelectsFirstClosest(sqrt, query, cs);
    var k' :| IsFirstClosest(sqrt, query, cs, k') && Scan(sqrt, query, cs) == Best(cs[k'].user, Measure(sqrt, query, cs[k']).value);
    assert k' == k;
  }

  /** A selected user is strictly below the threshold and no farther than any acceptable candidate. */
  lemma {:induction false} ScanBelowThresholdAndMinimal(sqrt: real -> real, query: seq<real>, cs: seq<Candidate>, j: int)
    requires IsSqrt(sqrt)
    requires 0 <= j < |cs| && Acceptable(sqrt, query, cs[j])
    ensures Scan(sqrt, query, cs).Best?
    ensures Scan(sqrt, query, cs).distance < Threshold
    ensures Scan(sqrt, query, cs).distance <= Measure(sqrt, query, cs[j]).value
  {
    ScanSelectsFirstClosest(sqrt, query, cs);
  }

  /** A malformed candidate anywhere in the list changes nothing: the scan is as if it were absent. */
  lemma {:induction false} MalformedCandidateIgnored(sqrt: real -> real, query: seq<real>, pre: seq<Candidate>, c: Candidate, post: seq<Candidate>)
    requires IsSqrt(sqrt)
    requires Measure(sqrt, query, c).None?
    ensures Scan(sqrt, query, pre + [c] + post) == Scan(sqrt, query, pre + post)
  {
    if |post| == 0 {
      assert pre + [c] + post == pre + [c];
      assert (pre + [c])[..|pre|] == pre;
      assert pre + post == pre;
    } else {
      var n := |post| - 1;
      MalformedCandidateIgnored(sqrt, query, pre, c, post[..n]);
      assert (pre + [c] + post)[..|pre| + 1 + n] == pre + [c] + post[..n];
      assert (pre + post)[..|pre| + n] == pre + post[..n];
    }
  }

  /**
   * The two-candidate scenario of the tie-break: of two candidates at the same
   * acceptable distance, the earlier one wins. The general statement, for any
   * list, is `IsFirstClosest` with `FirstClosestIsSelected`.
   */
  lemma TieKeepsEarlier(sqrt: real -> real, query: seq<real>, a: Candidate, b: Candidate)
    requires IsSqrt(sqrt)
    requires Acceptable(sqrt, query, a)
    requires Measure(sqrt, query, b) == Measure(sqrt, query, a)
    ensures Scan(sqrt, query, [a, b]) == Best(a.user, Measure(sqrt, query, a).value)
  {
    assert [a, b][..1] == [a];
    assert [a][..0] == [];
    assert Scan(sqrt, query, [a]) == Best(a.user, Measure(sqrt, query, a).value);
  }

  /** The scan loop of `reconocer_usuario`, with `mejor_usuario`/`menor_distancia` held in `best`. */
  method FindBestMatch(sqrt: real -> real, query: seq<real>, candidates: seq<Candidate>) returns (best: Best)
    requires IsSqrt(sqrt)
    ensures best == Scan(sqrt, query, candidates)
    ensures best.NoBest? <==> forall j :: 0 <= j < |candidates| ==> !Acceptable(sqrt, query, candidates[j])
    ensures best.Best? ==> best.distance < Threshold
    ensures best.Best? ==>
      exists k :: IsFirstClosest(sqrt, query, candidates, k)
        && best == Best(candidates[k].user, Measure(sqrt, query, candidates[k]).value)
  {
    best := NoBest;
    for i := 0 to |candidates|
      invariant best == Scan(sqrt, query, candidates[..i])
    {
      assert candidates[..i + 1][..i] == candidates[..i];
      var row := candidates[i];
      if row.embedding.None? {
        continue;
      }
      var distance := Distance(sqrt, query, row.embedding.value);
      if distance.None? {
        continue;
      }
      if (best.NoBest? || distance.value < best.distance) && distance.value < Threshold {
        best := Best(row.user, distance.value);
      }
    }
    assert candidates[..|candidates|] == candidates;
    ScanSelectsFirstClosest(sqrt, query, candidates);
  }
}
