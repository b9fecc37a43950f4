# Flight-path planner

A model of the flight-path planner in `randomFindCFunction.py`.
`calculateFlightPath` takes a list of waypoints and exclusion zones, each zone a centre with a
radius, and builds a flight path in three stages.

1. **Densification.** Walk the consecutive waypoint pairs. For each pair, append its first
   waypoint, then `floor(distance / stepDistance)` target points at distances `step, 2·step, …`
   from it, towards the second waypoint. End with the last waypoint.
2. **Exclusion correction.** Each target point is checked against the zone whose centre is
   nearest; ties go to the first such zone. If the point is inside that zone's radius, it is
   pushed out along the centre-to-point line to the radius (`extendVecByDist`).
3. **Simplification.** Scan the interior points. Remove every point whose bearing from the
   point before it equals its bearing to the point after it. The first and last points always
   stay.

The geometry is left uninterpreted. `distanceTwoPoints`, `calculateBearing`, the destination
formula of `pointFromDistBear` and the bearing comparison are fields of a `Geo` record that
every operation takes as a parameter. `extendVecByDist` is modelled exactly over real
coordinates.

Files:

- `outcome.dfy`: errors and the `Result` type.
- `geo_math.dfy`: points, the `Geo` record and `ExtendVecByDist`.
- `exclusion.dfy`: the nearest-zone correction. `Correct` is the specification and `CorrectTarget`
  is the source's loop.
- `densifier.dfy`: densification. `Densify` is the specification and `DensifyPath`/`AppendTargets`
  are the source's nested loops.
- `simplifier.dfy`: simplification. `Kept`/`Simplified` are the specification, `Simplifies` is a
  declarative description, and `SimplifyPath` is the in-place removal loop.
- `planner.dfy`: `Plan` and `CalculateFlightPath`, which compose the stages.
- `as_written.dfy`: the defective parts of the code as written, with the inputs that show them.

The specification functions of the densifier take the correction as a parameter
`correct: Point -> Result<Point>`. The planner passes `Corrector(geo, centres, radii)`.

Modelling choices that follow the code:

- **Zero-distance correction.** `extendVecByDist` divides by the distance from the centre to the
  target point (line 78). The model reports a zero divisor as the error `ZeroDistanceToCentre`.
- **Waypoints and simplification.** The code's simplification loop (lines 173-177) considers
  every interior point of the densified path, including the original waypoints; its removal
  raises (see below). The model follows the intended scan and removes a collinear interior
  waypoint like any other point.
- **Single correction.** Each target point is corrected once, against its nearest zone only
  (lines 158-166). With overlapping zones, a corrected point is not re-checked against the other
  zones, by the code or by the model.
- **Exclusion tolerance.** The command line reads `exclusionRadiusTolerance` (line 27), but
  `calculateFlightPath` never uses it, so the model has no tolerance.

Where the code does not do what it evidently intends, the model follows the intent, and
`as_written.dfy` models the code as written:

- **List never initialised.** The code appends to a `flightPath` list that it never
  initialises. The model starts from an empty path.
- **Distance list overwritten.** The correction's distance loop overwrites the list with each
  distance (line 161). The model collects them.
- **Stale radius index.** The comparison reads `exclusionRadius[k]` with the loop's last `k`
  (lines 164, 166). The model uses the nearest zone's radius.
- **Empty zone list.** With no zones the code would evaluate `min([])`. The model keeps the
  point unchanged.
- **Simplification off by one.** The loop enumerates a copy of the interior from index 0, so it
  compares the wrong neighbours (lines 173-177). When it does find a match, its `list.remove`
  on array-valued points raises. The model scans indices 1 to n-2 with an explicit index. After
  a removal the index stays put, so "the point before" is the last point kept and "the point
  after" is the next point of the densified path.
- **Zero step.** A zero step makes the count divide by zero (line 150). The model reports this
  as `ZeroStepDistance`.
- **Negative step.** A negative step gives a negative count, and `range` then runs zero times.
  The model does the same.

## Model

| member | source | states |
|---|---|---|
| GeoMath.ExtendVecByDist | randomFindCFunction.py:69-80 | extending by exactly the distance from first to second returns second; extending by 0 returns first; a degenerate vector returns first; a zero distance is excluded |
| Exclusion.ArgMin | randomFindCFunction.py:165 | the index returned is the first occurrence of the minimum distance (`list.index(min(...))`) |
| Exclusion.FirstMinimumUnique | randomFindCFunction.py:165 | the first-minimum index is unique, so the nearest zone is well defined |
| Exclusion.Correct | randomFindCFunction.py:158-166 | the correction can fail only with the zero-distance division error |
| Exclusion.CorrectSpec | randomFindCFunction.py:158-166 | a point is unchanged when there are no zones, when no zone contains it, or when the nearest zone does not contain it; otherwise it becomes `extendVecByDist(centre[minIndex], point, radius[minIndex])`, or fails when it lies on that centre |
| Exclusion.CorrectTarget | randomFindCFunction.py:158-166 | the loop that collects distances and then applies the argmin comparison computes exactly the correction `Correct` |
| Densifier.CountIsFloor | randomFindCFunction.py:147-154 | for a non-negative distance, the number of target points is `floor(distance / step)`: that many steps fit into the distance, one more does not, and a pair shorter than one step has none |
| Densifier.CorrectAll | randomFindCFunction.py:154-167 | the targets are all corrected in order exactly when every correction succeeds; on success each output point is its target's correction; on failure the error is some target's correction error |
| Densifier.CorrectAllStep | randomFindCFunction.py:154-167 | one inner-loop step grows the corrected prefix by one point, or ends the walk with that point's error |
| Densifier.DensifyPairsLayout | randomFindCFunction.py:143-167 | after n pairs, waypoint i sits at its index and is immediately followed by exactly the corrected targets of pair i, up to the index of waypoint i+1 |
| Densifier.DensifiedLength | randomFindCFunction.py:143-170 | the densified path has length `len(waypoints) + Σ numPoints_i` |
| Densifier.WaypointIndexMonotonic | randomFindCFunction.py:143-170 | waypoints appear in their original order |
| Densifier.WaypointPreserved | randomFindCFunction.py:143-170 | every waypoint appears unmodified at its index; the first waypoint opens the path and the last closes it |
| Densifier.TargetPlacement | randomFindCFunction.py:154-167 | the j-th point after waypoint i lies before waypoint i+1 and is the correction of `pointFromDistBear(w[i], w[i+1], step·(j+1))` |
| Densifier.DensifyFailure | randomFindCFunction.py:154-167 | densification fails exactly when the correction of some target point of some pair fails |
| Densifier.AppendTargets | randomFindCFunction.py:153-167 | the inner loop appends exactly the corrected targets of the pair to the path, or returns the first correction error |
| Densifier.DensifyPath | randomFindCFunction.py:143-170 | the nested loops compute exactly `Densify` with the exclusion correction |
| Simplifier.ScanFromSimplifies | randomFindCFunction.py:173-177 | the scan, continued from any consistent state, ends in indices satisfying `Simplifies` |
| Simplifier.SimplifiedSpec | randomFindCFunction.py:173-177 | the kept indices satisfy `Simplifies`: they include the first and last index and are increasing, so the result is an order-preserving subsequence. A point is dropped exactly when it is collinear with the last kept point and its successor. The result has between 2 and `len(path)` points and keeps both endpoints |
| Simplifier.SimplifiedShort | randomFindCFunction.py:173 | a path of fewer than two points has no interior and is returned unchanged |
| Simplifier.IncreasingBounded | randomFindCFunction.py:173-177 | strictly increasing indices below n number at most n, so the simplified path is no longer than its input |
| Simplifier.NextKept | randomFindCFunction.py:173-177 | in a simplification, each kept index is the first stop of the scan after the previous kept index |
| Simplifier.SimplifiesUnique | randomFindCFunction.py:173-177 | at most one index list satisfies `Simplifies`, so that description determines the simplification |
| Simplifier.SimplifyPath | randomFindCFunction.py:173-177 | in-place removal with an index that stays put after a removal yields exactly `Simplified` |
| Planner.PlanFailure | randomFindCFunction.py:138-150 | the error is "too few waypoints" exactly when there are fewer than two waypoints; "zero step" exactly when there are at least two and the step is 0; any other failure is the zero-distance correction error |
| Planner.PlanAnchors | randomFindCFunction.py:138-179 | a produced path has at least two points, starts with the first waypoint and ends with the last |
| Planner.PlanIsSimplifiedDensification | randomFindCFunction.py:143-179 | the produced path is the densified path taken at the indices that `Simplifies` describes |
| Planner.DensifiedTargetCorrection | randomFindCFunction.py:154-167 | in the densified path, a target point is unchanged unless its first nearest zone contains it; then it is pushed out to that zone's radius along the centre line |
| Planner.NoZonesNoCorrection | randomFindCFunction.py:158-167 | without zones densification never fails, and every target point is the uncorrected `pointFromDistBear` point |
| Planner.CalculateFlightPath | randomFindCFunction.py:129-179 | the method computes exactly `Plan`, returns the too-few-waypoints and zero-step errors exactly in their cases, and a produced path keeps the first and last waypoints |
| AsWritten.DistancesAsWritten | randomFindCFunction.py:158-161 | the loop as written rebinds the distance variable on every pass. Afterwards it holds `[]` when there are no centres, and otherwise only the last centre's distance |
| AsWritten.MinAsWritten | randomFindCFunction.py:164 | `min` raises on a float and on an empty list; on a non-empty list it returns an element no larger than any other |
| AsWritten.CorrectionAlwaysRaisesAsWritten | randomFindCFunction.py:158-164 | the distance loop followed by `min`, as written, raises for every target point, whatever the zones |
| AsWritten.CorrectionWithoutZones | randomFindCFunction.py:158-166 | without zones, `min` of the empty list the loop leaves raises, where the corrected step keeps the point |
| AsWritten.CorrectStaleRadius | randomFindCFunction.py:164-166 | the comparison as written uses the last zone's radius: a point at least that far from its nearest centre is kept |
| AsWritten.StaleRadiusAgrees | randomFindCFunction.py:164-166 | when the last zone's radius equals the nearest zone's, the code as written (once line 161 collects the distances) computes exactly the corrected step |
| AsWritten.StaleRadiusMissesZone | randomFindCFunction.py:164-166 | a point inside its nearest zone but no closer than the last zone's radius is kept as written, while the corrected step changes it exactly when it fails or the extension moves it |
| AsWritten.StaleRadiusLeavesPointInside | randomFindCFunction.py:164-166 | concretely, with zones (0,0) r=1 and (10,0) r=0.1, the point (0.5,0) stays inside the first zone as written; it is moved to (1,0), on that zone's boundary, when corrected |
| AsWritten.SimplifyFromAsWritten | randomFindCFunction.py:173-177 | the loop as written either raises or returns the path unchanged: a mismatch of bearings keeps the point, a match reaches `list.remove`, which raises on array-valued points, and a neighbour index out of range raises |
| AsWritten.SimplifiedAsWritten | randomFindCFunction.py:173-177 | over `flightPath[1:-1]`, the loop as written leaves a path of at most two points unchanged, and never returns a changed path |
| AsWritten.SimplifyOffByOne | randomFindCFunction.py:173-177 | for three collinear points, the loop as written keeps the middle one while the corrected scan removes it |

## Findings

| source | as written | input that shows it | evidently intended | confidence | as-written member | corrected member |
|---|---|---|---|---|---|---|
| randomFindCFunction.py:158-164 | each distance is assigned over `exclusionDistance`, so `min` is applied to a float (or to `[]` when there are no zones) and raises | any target point, e.g. with no zones | collect all distances into a list and take its minimum | high, not executed | AsWritten.CorrectionAlwaysRaisesAsWritten | Exclusion.CorrectSpec |
| randomFindCFunction.py:164-166 | compares with, and extends to, `exclusionRadius[k]` for the last loop index `k` | once line 161 collects the distances: zones (0,0) r=1 and (10,0) r=0.1, target (0.5,0) with latitude distance | use the nearest zone's radius `exclusionRadius[minIndex]` | high, not executed | AsWritten.StaleRadiusLeavesPointInside | Exclusion.CorrectSpec |
| randomFindCFunction.py:173-177 | enumerates `flightPath[1:-1]` from index 0, so it compares `flightPath[index-1]` (the last point for index 0) and `flightPath[index+1]` (the point itself), and a match calls `list.remove`, which raises on array-valued points | three collinear points (0,0), (1,0), (2,0), with bearing as the latitude difference | compare each interior point with the point kept before it and the point after it | high, not executed | AsWritten.SimplifyOffByOne | Simplifier.SimplifiedSpec |

## Left out

- Reading the mission file and parsing the command line (lines 7-8, 19-27) are I/O and are not modelled.
- `extractMissionData` (lines 30-47) is dictionary extraction into globals, which is I/O plumbing. It builds the centre and radius lists in step, so every member requires that they have equal length.
- The trigonometric bodies of `distanceTwoPoints`, `calculateBearing` and `pointFromDistBear` (lines 55-125) are floating-point trigonometry. They are fields of `Geo`. The properties that depend on them are not stated: distance symmetry and non-negativity, the destination round trip, and a corrected point really lying outside its zone.
- Collinear: the exact float equality of bearings (line 176) is the abstract `sameBearing` field. It is not a float comparison, and it has no tolerance.
- Idempotence of simplification is not claimed. The scan compares a kept point with its successor in the densified path, which may itself be removed, so a second pass can remove more points unless the geometry rules it out.
- `exportMission` and the module-level constants (lines 10-16, 181-195) only feed file output, and are not modelled.
- The `print` before returning `None` (line 139) is output. The model returns `Failure(TooFewWaypoints)` instead.
- Floating-point rounding is not modelled: coordinates and distances are exact reals.
- AsWritten.SimplifyFromAsWritten: points are values, so object identity is not modelled. CPython's `list.remove` first tests identity, so a match whose point is the very object at the head of the path would be removed rather than raise. That needs the same array object twice in the path, and the model does not cover it.
- Densifier.CountIsFloor: states the floor equality only for a non-negative distance. A negative one, which a real distance never is, gives a count of 0.
