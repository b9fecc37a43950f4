/**
  calculateFlightPath: densify the waypoints with exclusion correction,
  then simplify. Fewer than two waypoints produce no path; a zero step
  distance makes the first target count divide by zero.
*/
module Planner {
  import opened Outcome
  import opened GeoMath
  import opened Exclusion
  import opened Densifier
  import opened Simplifier

  /** The flight path the planner computes. */
  function Plan(geo: Geo, waypoints: seq<Point>, exclusionPoints: seq<Point>, stepDistance: real,
                exclusionRadius: seq<real>): Result<seq<Point>>
    requires |exclusionRadius| == |exclusionPoints|
  {
    if |waypoints| < 2 then Failure(TooFewWaypoints)
    else if stepDistance == 0.0 then Failure(ZeroStepDistance)
    else
      match Densify(geo, waypoints, stepDistance, Corrector(geo, exclusionPoints, exclusionRadius))
      case Failure(e) => Failure(e)
      case Success(p) => Success(Simplified(geo, p))
  }

  /**
    The planner reports too few waypoints exactly when it is given fewer
    than two, a zero step exactly when it is given at least two waypoints
    and a zero step, and otherwise can fail only on the zero divisor of the
    exclusion correction.
  */
  lemma PlanFailure(geo: Geo, waypoints: seq<Point>, exclusionPoints: seq<Point>, stepDistance: real,
                    exclusionRadius: seq<real>)
    requires |exclusionRadius| == |exclusionPoints|
    ensures Plan(geo, waypoints, exclusionPoints, stepDistance, exclusionRadius) == Failure(TooFewWaypoints)
            <==> |waypoints| < 2
    ensures Plan(geo, waypoints, exclusionPoints, stepDistance, exclusionRadius) == Failure(ZeroStepDistance)
            <==> |waypoints| >= 2 && stepDistance == 0.0
    ensures |waypoints| >= 2 && stepDistance != 0.0 &&
            Plan(geo, waypoints, exclusionPoints, stepDistance, exclusionRadius).Failure? ==>
            Plan(geo, waypoints, exclusionPoints, stepDistance, exclusionRadius).error == ZeroDistanceToCentre
  {
    if |waypoints| >= 2 && stepDistance != 0.0 {
      var correct := Corrector(geo, exclusionPoints, exclusionRadius);
      var d := Densify(geo, waypoints, stepDistance, correct);
      if d.Failure? {
        var q :| correct(q) == Failure(d.error);
        assert Correct(geo, q, exclusionPoints, exclusionRadius).Failure?;
      }
    }
  }

  /**
    A planned path begins with the first waypoint and ends with the last:
    neither densification nor simplification moves them.
  */
  lemma PlanAnchors(geo: Geo, waypoints: seq<Point>, exclusionPoints: seq<Point>, stepDistance: real,
                    exclusionRadius: seq<real>)
    requires |exclusionRadius| == |exclusionPoints|
    requires Plan(geo, waypoints, exclusionPoints, stepDistance, exclusionRadius).Success?
    ensures var r := Plan(geo, waypoints, exclusionPoints, stepDistance, exclusionRadius).value;
            2 <= |r| && r[0] == waypoints[0] && r[|r| - 1] == waypoints[|waypoints| - 1]
  {
    var correct := Corrector(geo, exclusionPoints, exclusionRadius);
    var p := Densify(geo, waypoints, stepDistance, correct).value;
    WaypointPreserved(geo, waypoints, 0, stepDistance, correct);
    WaypointPreserved(geo, waypoints, |waypoints| - 1, stepDistance, correct);
    SimplifiedSpec(geo, p);
  }

  /**
    A planned path is the densified path with some interior points
    removed: it is a subsequence of the densified path, taken at the
    indices `Simplifies` determines.
  */
  lemma PlanIsSimplifiedDensification(geo: Geo, waypoints: seq<Point>, exclusionPoints: seq<Point>,
                                      stepDistance: real, exclusionRadius: seq<real>)
    requires |exclusionRadius| == |exclusionPoints|
    requires Plan(geo, waypoints, exclusionPoints, stepDistance, exclusionRadius).Success?
    ensures var correct := Corrector(geo, exclusionPoints, exclusionRadius);
            var p := Densify(geo, waypoints, stepDistance, correct).value;
            var ks := Kept(geo, p);
            && Simplifies(geo, p, ks)
            && Plan(geo, waypoints, exclusionPoints, stepDistance, exclusionRadius).value == Pick(p, ks)
  {
    var correct := Corrector(geo, exclusionPoints, exclusionRadius);
    var p := Densify(geo, waypoints, stepDistance, correct).value;
    DensifiedLength(geo, waypoints, stepDistance, correct);
    SimplifiedSpec(geo, p);
  }

  /**
    In the densified path, the j-th point after waypoint i is the j-th
    target point of that pair, unchanged unless the nearest exclusion
    centre is closer than its zone's radius, and then pushed out along the
    line from that centre to the radius.
  */
  lemma DensifiedTargetCorrection(geo: Geo, w: seq<Point>, i: nat, j: nat, step: real,
                                  centres: seq<Point>, radii: seq<real>, m: nat)
    requires i + 1 < |w| && step != 0.0 && |radii| == |centres|
    requires j < Count(geo, w[i], w[i + 1], step)
    requires Densify(geo, w, step, Corrector(geo, centres, radii)).Success?
    requires IsFirstMinimum(ExclusionDistances(geo, TargetPoint(geo, w[i], w[i + 1], step, j), centres), m)
    ensures var p := Densify(geo, w, step, Corrector(geo, centres, radii)).value;
            var k := WaypointIndex(geo, w, i, step) + 1 + j;
            var t := PointFromDistBear(geo, w[i], w[i + 1], step * (j + 1) as real);
            && k < |p|
            && (radii[m] <= geo.distance(t, centres[m]) ==> p[k] == t)
            && (geo.distance(t, centres[m]) < radii[m] ==>
                  geo.distance(centres[m], t) != 0.0 && p[k] == ExtendVecByDist(geo, centres[m], t, radii[m]))
  {
    var t := TargetPoint(geo, w[i], w[i + 1], step, j);
    TargetPlacement(geo, w, i, j, step, Corrector(geo, centres, radii));
    CorrectSpec(geo, t, centres, radii);
  }

  /**
    Without exclusion zones the densified path always exists and its
    target points are the uncorrected ones.
  */
  lemma NoZonesNoCorrection(geo: Geo, w: seq<Point>, i: nat, j: nat, step: real)
    requires i + 1 < |w| && step != 0.0
    requires j < Count(geo, w[i], w[i + 1], step)
    ensures Densify(geo, w, step, Corrector(geo, [], [])).Success?
    ensures var p := Densify(geo, w, step, Corrector(geo, [], [])).value;
            var k := WaypointIndex(geo, w, i, step) + 1 + j;
            k < |p| && p[k] == PointFromDistBear(geo, w[i], w[i + 1], step * (j + 1) as real)
  {
    var correct := Corrector(geo, [], []);
    forall i': nat, j': nat | i' + 1 < |w| ensures !TargetFails(geo, w, i', j', step, correct) {
      var t := TargetPoint(geo, w[i'], w[i' + 1], step, j');
      CorrectSpec(geo, t, [], []);
    }
    DensifyFailure(geo, w, step, correct);
    TargetPlacement(geo, w, i, j, step, correct);
    CorrectSpec(geo, TargetPoint(geo, w[i], w[i + 1], step, j), [], []);
  }

  /**
    calculateFlightPath: with fewer than two waypoints no path; otherwise
    densify with exclusion correction, then simplify.
  */
  method CalculateFlightPath(geo: Geo, waypoints: seq<Point>, exclusionPoints: seq<Point>, stepDistance: real,
                             exclusionRadius: seq<real>)
    returns (flightPath: Result<seq<Point>>)
    requires |exclusionRadius| == |exclusionPoints|
    ensures flightPath == Plan(geo, waypoints, exclusionPoints, stepDistance, exclusionRadius)
    ensures flightPath == Failure(TooFewWaypoints) <==> |waypoints| < 2
    ensures flightPath == Failure(ZeroStepDistance) <==> |waypoints| >= 2 && stepDistance == 0.0
    ensures flightPath.Success? ==>
              2 <= |flightPath.value| && flightPath.value[0] == waypoints[0] &&
              flightPath.value[|flightPath.value| - 1] == waypoints[|waypoints| - 1]
  {
    PlanFailure(geo, waypoints, exclusionPoints, stepDistance, exclusionRadius);
    if |waypoints| < 2 {
      return Failure(TooFewWaypoints);
    }
    if stepDistance == 0.0 {
      return Failure(ZeroStepDistance);
    }
    var densified := DensifyPath(geo, waypoints, exclusionPoints, stepDistance, exclusionRadius);
    if densified.Failure? {
      return Failure(densified.error);
    }
    var simplified := SimplifyPath(geo, densified.value);
    flightPath := Success(simplified);
    PlanAnchors(geo, waypoints, exclusionPoints, stepDistance, exclusionRadius);
  }
}
