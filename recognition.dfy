/**
 * The two request handlers of backend/app.py reduced to their decisions:
 * enrollment (`registrar_usuario`) rejects an image without a face and
 * otherwise stores the descriptor; recognition (`reconocer_usuario`) rejects
 * an image without a face, scans the stored users and reports the best match
 * with its alert.
 */
module Recognition {
  import opened Wrappers
  import opened RealMath
  import opened Descriptor
  import opened Distances
  import opened Matcher

  /** The one error of the core: the landmark detector found no face. */
  datatype Error = NoFaceDetected

  /** What recognition answers: a rejection, `coincidencia: False`, or the matched user. */
  datatype Response = Rejected(error: Error) | NoMatch | Matched(user: User, distance: real, alert: string)

  /** The notification text raised for a wanted user. */
  const AlertText: string := "¡ALERTA! Usuario requisitoriado detectado. Notificación enviada (simulada)."

  /** The alert attached to a scan result: non-empty exactly for a match against a wanted user. */
  function Alert(best: Best): (alert: string)
    ensures alert != "" <==> best.Best? && best.user.wanted
    ensures alert != "" ==> alert == AlertText
  {
    if best.Best? && best.user.wanted then AlertText else ""
  }

  /** The response for the outcome of a scan. */
  function Report(best: Best): (r: Response)
    ensures r.NoMatch? <==> best.NoBest?
    ensures r.Matched? ==> r.user == best.user && r.distance == best.distance
    ensures r.Matched? ==> (r.alert != "" <==> r.user.wanted)
    ensures !r.Rejected?
  {
    match best
    case NoBest => NoMatch
    case Best(user, distance) => Matched(user, distance, Alert(best))
  }

  /**
   * Enrollment: no face is an error; otherwise the stored row is the user
   * with the descriptor of the landmarks, one entry per consecutive pair.
   */
  method Enroll(sqrt: real -> real, user: User, points: seq<Point>) returns (r: Result<Candidate, Error>)
    requires IsSqrt(sqrt)
    ensures r.Failure? <==> |points| == 0
    ensures r.Failure? ==> r.error == NoFaceDetected
    ensures r.Success? ==> r.value == Candidate(user, Some(Describe(sqrt, points)))
    ensures r.Success? ==> |r.value.embedding.value| == |points| - 1
  {
    if |points| == 0 {
      return Failure(NoFaceDetected);
    }
    var vector := BuildDescriptor(sqrt, points);
    return Success(Candidate(user, Some(vector)));
  }

  /**
   * Recognition: no face is rejected before anything is built or scanned;
   * otherwise the descriptor is built, the stored users are scanned and the
   * best match, if any, is reported with its alert.
   */
  method Recognize(sqrt: real -> real, points: seq<Point>, stored: seq<Candidate>) returns (response: Response)
    requires IsSqrt(sqrt)
    ensures response == Rejected(NoFaceDetected) <==> |points| == 0
    ensures |points| > 0 ==> response == Report(Scan(sqrt, Describe(sqrt, points), stored))
    ensures response.NoMatch? <==>
      |points| > 0 && forall j :: 0 <= j < |stored| ==> !Acceptable(sqrt, Describe(sqrt, points), stored[j])
    ensures response.Matched? ==> response.distance < Threshold
    ensures response.Matched? ==> (response.alert != "" <==> response.user.wanted)
  {
    if |points| == 0 {
      return Rejected(NoFaceDetected);
    }
    var query := BuildDescriptor(sqrt, points);
    var best := FindBestMatch(sqrt, query, stored);
    response := Report(best);
  }

  /**
   * A face enrolled from the same landmarks as the query is at distance zero,
   * so recognition always reports a match, at distance zero.
   */
  lemma EnrolledFaceIsRecognized(sqrt: real -> real, points: seq<Point>, user: User, before: seq<Candidate>, after: seq<Candidate>)
    requires IsSqrt(sqrt)
    requires |points| > 0
    ensures
      var stored := before + [Candidate(user, Some(Describe(sqrt, points)))] + after;
      Scan(sqrt, Describe(sqrt, points), stored).Best? && Scan(sqrt, Describe(sqrt, points), stored).distance == 0.0
  {
    var query := Describe(sqrt, points);
    var stored := before + [Candidate(user, Some(query))] + after;
    DistanceToSelf(sqrt, query);
    assert stored[|before|] == Candidate(user, Some(query));
    ScanBelowThresholdAndMinimal(sqrt, query, stored, |before|);
    ScanSelectsFirstClosest(sqrt, query, stored);
  }

  /** Query [5, 0] against A = [5, 0] and B = [6, 1]: A matches at distance 0. */
  lemma ExactMatchExample(sqrt: real -> real, a: User, b: User)
    requires IsSqrt(sqrt)
    ensures Scan(sqrt, [5.0, 0.0], [Candidate(a, Some([5.0, 0.0])), Candidate(b, Some([6.0, 1.0]))]) == Best(a, 0.0)
  {
    var cs := [Candidate(a, Some([5.0, 0.0])), Candidate(b, Some([6.0, 1.0]))];
    DistanceToSelf(sqrt, [5.0, 0.0]);
    assert Measure(sqrt, [5.0, 0.0], cs[0]) == Some(0.0);
    assert Measure(sqrt, [5.0, 0.0], cs[1]).Some?;
    FirstClosestIsSelected(sqrt, [5.0, 0.0], cs, 0);
  }

  /** Query [100, 100] against a lone [0, 0] (distance about 141.42): no match. */
  lemma FarCandidateExample(sqrt: real -> real, c: User)
    requires IsSqrt(sqrt)
    ensures Scan(sqrt, [100.0, 100.0], [Candidate(c, Some([0.0, 0.0]))]) == NoBest
  {
    var cs := [Candidate(c, Some([0.0, 0.0]))];
    assert SumOfSquares([100.0, 100.0], [0.0, 0.0]) == 20000.0 by {
      assert [100.0, 100.0][1..] == [100.0];
      assert [0.0, 0.0][1..] == [0.0];
    }
    SqrtBelow(sqrt, 20000.0, Threshold);
    ScanSelectsFirstClosest(sqrt, [100.0, 100.0], cs);
  }

  /**
   * The comparison as written lets a stored embedding of length 1 through:
   * against the query [5, 0] the stored [5] is broadcast to [5, 5] and lies
   * at distance 5, below the threshold, where the length check skips it.
   */
  lemma BroadcastAcceptsShortEmbedding(sqrt: real -> real, u: User)
    requires IsSqrt(sqrt)
    ensures BroadcastDistance(sqrt, [5.0, 0.0], [5.0]) == Some(5.0)
    ensures 5.0 < Threshold
    ensures Scan(sqrt, [5.0, 0.0], [Candidate(u, Some([5.0]))]) == NoBest
  {
    var s := Stretch([5.0], 2);
    assert s == [5.0, 5.0];
    assert SumOfSquares([5.0, 0.0], s) == 25.0 by {
      assert [5.0, 0.0][1..] == [0.0];
      assert s[1..] == [5.0];
    }
    SqrtUnique(sqrt, 25.0, 5.0);
    ScanSelectsFirstClosest(sqrt, [5.0, 0.0], [Candidate(u, Some([5.0]))]);
  }
}
