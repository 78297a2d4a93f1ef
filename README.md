# Face recognition core: descriptor, distance, matcher and alert

This Dafny project models the recognition engine of the face-recognition backend (`backend/app.py`).
The Flask handlers `registrar_usuario` (enrollment) and `reconocer_usuario` (recognition) contain it:

- **Descriptor builder** (`descriptor.dfy`, module `Descriptor`). It turns the ordered landmark
  points of a face into a vector with one entry per consecutive pair of points. Each entry is the
  Euclidean distance between the two points, with no normalisation. The loop
  `for i in range(1, len(puntos))` is the method `BuildDescriptor`. It is proved equal to the
  recursive specification `Describe`, whose contract gives the length (N points give N-1 entries),
  each entry, and non-negativity.
- **Distance** (`distance.dfy`, module `Distances`). `calcular_distancia` is the L2 norm of the
  difference. `Distance` returns `None` for every pair of different lengths, and the scan skips
  that row. numpy raises for most such pairs, but it broadcasts an array of length 1 and compares
  it; `BroadcastDistance` models that as-written behaviour (see "## Findings").
- **Matcher** (`matcher.dfy`, module `Matcher`). `FindBestMatch` is the `for user in usuarios` loop.
  It keeps `mejor_usuario`/`menor_distancia` in one `Best` value, where `NoBest` stands for
  `None`/infinity. A row replaces the best only when its distance is strictly below both the best
  so far and the threshold `umbral = 30.0`. Rows whose embedding does not parse or does not compare
  are skipped. The loop is proved equal to the left fold `Scan`, and `Scan` is characterised
  independently by `IsFirstClosest`:
  - the selected row is acceptable (its distance is strictly below 30);
  - every earlier comparable row is strictly farther;
  - every later comparable row is at least as far;
  - the result is "no match" exactly when no row is acceptable.
- **Handlers and alert** (`recognition.dfy`, module `Recognition`).
  - `Enroll` and `Recognize` reject an empty landmark list (`No se detectó rostro`) before any
    descriptor is built or any row is scanned.
  - `Report` turns a scan result into `coincidencia: False` or the matched user.
  - `Alert` is the alert string. It is non-empty exactly when there is a match and the matched
    user is `requisitoriado`.

Numbers are Dafny `real`s. Dafny cannot prove that a non-negative real has a square root, so
every member that takes a root receives it as a parameter `sqrt`. The requirement `IsSqrt(sqrt)`
(module `RealMath`, `real_math.dfy`) says it returns the non-negative root of every non-negative
real. Every property below holds for any such function. `wrappers.dfy` holds `Option` and `Result`.

The builder loop returns `[]` for an empty point list. The rejection is the handlers'
`if not puntos` guard (app.py:43, 114), which `Enroll` and `Recognize` carry.

## Model

| member | source | states |
|---|---|---|
| Descriptor.SegmentLength | backend/app.py:48-50 | The entry for two consecutive landmarks is non-negative and its square is dx² + dy². |
| Descriptor.Describe | backend/app.py:46-51 | For N > 0 points the descriptor has N-1 entries, and none for no points. Entry i is the segment length from point i to point i+1, so every entry is non-negative. |
| Descriptor.BuildDescriptor | backend/app.py:117-122 | The builder loop (duplicated at lines 46-51) returns exactly `Describe(points)`: N-1 non-negative entries for N > 0 points. |
| Descriptor.DescribeExample | backend/app.py:47-51 | The landmarks (0,0), (3,4), (3,4) give the descriptor [5, 0]. |
| Distances.SumOfSquares | backend/app.py:104 | The sum of squared component differences is never negative. |
| Distances.Distance | backend/app.py:101-104 | A distance exists exactly when the lengths agree. It is non-negative and its square is the sum of squared differences. |
| Distances.DistanceSymmetric | backend/app.py:101-104 | `Distance(v1, v2) == Distance(v2, v1)`, including which pairs fail to compare. |
| Distances.DistanceToSelf | backend/app.py:101-104 | Every descriptor is at distance exactly 0 from itself. |
| Distances.Stretch | backend/app.py:104 | numpy's broadcast of a length-1 array to length n: n copies of its one entry. |
| Distances.BroadcastDistance | backend/app.py:102-104 | The norm as numpy evaluates it: defined when the lengths agree or either vector has length 1. It agrees with `Distance` on equal lengths. When one side has length 1 and the lengths differ, its square is the sum of squared differences against that entry repeated. It is non-negative. |
| Matcher.Measure | backend/app.py:135-137 | A row yields a distance exactly when its embedding parsed and has the query's length. The distance is the L2 norm of the difference: non-negative, and its square is the sum of squared differences between the query and the embedding. |
| Matcher.Step | backend/app.py:135-140 | One iteration: a skipped row leaves the best unchanged. The row takes over only when it is acceptable and strictly closer than the best so far (or there is none), so a tie keeps the best; and it always takes over in that case. |
| Matcher.Scan | backend/app.py:130-142 | The fold of `Step` over the rows from "no best": the empty list gives no best, and a selected user's distance is non-negative and strictly below 30. |
| Matcher.ScanSelectsFirstClosest | backend/app.py:130-142 | The scan finds no user exactly when no row is comparable and strictly below 30. Otherwise it returns the first closest row (`IsFirstClosest`) with its distance. |
| Matcher.FirstClosestIsSelected | backend/app.py:134-140 | Whenever row k is the first closest acceptable row, the scan returns that row's user and distance. |
| Matcher.ScanBelowThresholdAndMinimal | backend/app.py:132-140 | If any row is acceptable, the scan returns a user. Its distance is below 30 and no greater than that of any acceptable row. |
| Matcher.MalformedCandidateIgnored | backend/app.py:135-142 | A row that fails to parse or compare, anywhere in the list, leaves the result exactly as if it were absent. |
| Matcher.TieKeepsEarlier | backend/app.py:138-140 | The two-row tie scenario: of two rows at the same acceptable distance, the earlier one is selected. |
| Matcher.FindBestMatch | backend/app.py:130-142 | The scan loop returns exactly `Scan`. It returns "no best" iff no row is acceptable. A returned distance is below 30 and belongs to the first closest row. |
| Recognition.Alert | backend/app.py:145-148 | The alert is non-empty iff there is a match whose user is wanted. When non-empty, it is the fixed alert text. |
| Recognition.Report | backend/app.py:144-163 | `coincidencia: False` exactly when no user was selected. Otherwise the response carries that user and distance, and its alert is non-empty iff the user is wanted. |
| Recognition.Enroll | backend/app.py:42-51 | Enrollment fails with `NoFaceDetected` iff there are no landmarks. Otherwise the stored row is the user with the descriptor of N-1 entries. |
| Recognition.Recognize | backend/app.py:113-163 | Rejected iff there are no landmarks. Otherwise the response reports the scan of the query descriptor. It is "no match" iff no stored row is acceptable. A reported distance is below 30, and the alert is non-empty iff the user is wanted. |
| Recognition.EnrolledFaceIsRecognized | backend/app.py:117-142 | If a stored row holds the descriptor of the query's own landmarks, recognition reports a match at distance 0, wherever that row is in the list. |
| Recognition.ExactMatchExample | backend/app.py:130-142 | Query [5,0] against A = [5,0] and B = [6,1] matches A at distance 0. |
| Recognition.FarCandidateExample | backend/app.py:130-142 | Query [100,100] against a lone [0,0] (distance ≈ 141.42 ≥ 30) gives no match. |
| Recognition.BroadcastAcceptsShortEmbedding | backend/app.py:101-104 | As written, a stored [5] against the query [5,0] is broadcast to distance 5, which is below 30. The corrected comparison skips that row. |

## Left out

- Flask routing, request parsing, `jsonify` and the HTTP status codes. The model keeps only the
  "no face → rejected" decision.
- Saving uploads under `uuid` names, and `extract_landmarks` (OpenCV and dlib). These are I/O and
  a foreign model. The landmark list is an input. It is the first detected face's 68 points, or
  `[]` when no face is found.
- The database (`get_connection`, INSERT/SELECT/UPDATE/DELETE, `listar_usuarios`,
  `eliminar_usuario`, `editar_usuario`). These are external persistence with no logic of their
  own. The row id is an input to `Enroll`, and the scan receives the rows as a sequence.
- JSON encoding and decoding of embeddings. A stored embedding is `Option<seq<real>>`, and `None`
  means `json.loads` failed or did not give a flat list of numbers.
- Matcher.Measure: skips every stored embedding whose length differs from the query's, and every
  stored value that is not a flat list of numbers. The source does not skip all of them: numpy
  broadcasts a length-1 list (see "## Findings"), a JSON number such as `5` (a 0-d array), and a
  nested list shaped as a column such as `[[1],[2]]` (for which `np.linalg.norm` returns a
  Frobenius norm) against the query, so such rows are compared and can be selected. Only the
  length-1 list is modelled as written (`Distances.BroadcastDistance`); the scalar and nested
  cases are not.
- Floating point. `round(menor_distancia, 2)` is not modelled, and `Matched` carries the exact
  distance. IEEE rounding of the square root and sums is not modelled. A stored `NaN` (which
  `json.loads` accepts, and whose comparisons are all false) is not modelled. The `inf` sentinel
  is the `NoBest` state.
- Pixel coordinates are integers in the source and reals here. Every integer is a real, so this
  only widens the inputs.
- The square root is the parameter `sqrt`, constrained by `IsSqrt`, rather than a definition.
- The `print` of the alert. It is logging only.
- Distances.DistanceToSelf: only "identical ⇒ distance 0" is proved. The converse (distance 0 ⇒
  identical) holds but is not proved, because the solver's non-linear real arithmetic does not
  settle it.

## Findings

| source | as written | input that shows it | evidently intended | confidence | as-written member | corrected member |
|---|---|---|---|---|---|---|
| backend/app.py:101-104 | `np.array(v1) - np.array(v2)` broadcasts a length-1 stored embedding (or a length-1 query) against the other vector instead of raising, so the row is compared and can be selected. A stored JSON number or a column-shaped nested list broadcasts the same way (not modelled; see `Matcher.Measure` under "## Left out"). | query descriptor [5, 0] and stored embedding [5]: the computed distance is 5 < 30, so the row is accepted. | A stored embedding whose length differs from the query's is malformed and skipped, like one that fails to parse. | medium: a length-1 embedding needs a corrupt or legacy row; not executed | Distances.BroadcastDistance, Recognition.BroadcastAcceptsShortEmbedding | Distances.Distance, Matcher.Measure |
