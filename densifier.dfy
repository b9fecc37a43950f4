/**
  Densification: walk the consecutive waypoint pairs, emit each first
  waypoint followed by the target points placed every `step` along the
  pair, each target point passed through the exclusion correction, and
  finish with the last waypoint.

  The specification functions take the correction as a parameter
  `correct`; the methods, which run the source's loops, use the exclusion
  correction of the `Exclusion` module.
*/
module Densifier {
  import opened Outcome
  import opened GeoMath
  import opened Exclusion

  /**
    The number of target points generated for the pair (a, b): the loop
    `for j in range(floor(distance / step))` runs floor(distance / step)
    times, and not at all when that floor is negative.
  */
  function Count(geo: Geo, a: Point, b: Point, step: real): nat
    requires step != 0.0
  {
    var n := (geo.distance(a, b) / step).Floor;
    if n < 0 then 0 else n
  }

  /**
    With a non-negative distance the count is exactly the floor of
    distance / step: `Count` whole steps fit into the distance and one more
    does not. In particular a pair shorter than one step has no target point.
  */
  lemma CountIsFloor(geo: Geo, a: Point, b: Point, step: real)
    requires step > 0.0
    requires geo.distance(a, b) >= 0.0
    ensures Count(geo, a, b, step) == (geo.distance(a, b) / step).Floor
    ensures Count(geo, a, b, step) as real * step <= geo.distance(a, b) < (Count(geo, a, b, step) + 1) as real * step
    ensures Count(geo, a, b, step) == 0 <==> geo.distance(a, b) < step
  {
    var d := geo.distance(a, b);
    var x := d / step;
    assert x * step == d;
    var n := x.Floor;
    assert Count(geo, a, b, step) == n;
    assert n as real <= x < n as real + 1.0;
    var below := x - n as real;
    var above := n as real + 1.0 - x;
    assert below * step >= 0.0;
    assert above * step > 0.0;
    assert n as real * step == d - below * step;
    assert (n + 1) as real * step == d + above * step;
    var short := 1.0 - x;
    assert step - d == short * step;
    if x < 1.0 {
      assert short * step > 0.0;
    } else {
      var excess := x - 1.0;
      assert excess * step >= 0.0;
      assert d - step == excess * step;
    }
  }

  /** The j-th (from 0) uncorrected target point of the pair (a, b). */
  function TargetPoint(geo: Geo, a: Point, b: Point, step: real, j: int): Point
  {
    PointFromDistBear(geo, a, b, step * (j + 1) as real)
  }

  /**
    The uncorrected target points of the pair (a, b): the j-th lies at
    distance step * (j + 1) from a, towards b.
  */
  function Targets(geo: Geo, a: Point, b: Point, step: real): (ts: seq<Point>)
    requires step != 0.0
    ensures |ts| == Count(geo, a, b, step)
    ensures forall j :: 0 <= j < |ts| ==> ts[j] == TargetPoint(geo, a, b, step, j)
  {
    seq(Count(geo, a, b, step), j => TargetPoint(geo, a, b, step, j))
  }

  /**
    Every point of `ps` corrected in order; the walk stops at the first
    point whose correction fails, with that failure.
  */
  function CorrectAll(ps: seq<Point>, correct: Point -> Result<Point>): (r: Result<seq<Point>>)
    ensures r.Success? <==> forall k :: 0 <= k < |ps| ==> correct(ps[k]).Success?
    ensures r.Success? ==> |r.value| == |ps|
    ensures r.Success? ==> forall k :: 0 <= k < |ps| ==> correct(ps[k]) == Success(r.value[k])
    ensures r.Failure? ==> exists k :: 0 <= k < |ps| && correct(ps[k]) == Failure(r.error)
  {
    if ps == [] then Success([])
    else
      match CorrectAll(ps[..|ps| - 1], correct)
      case Failure(e) => Failure(e)
      case Success(qs) =>
        match correct(ps[|ps| - 1])
        case Failure(e) => Failure(e)
        case Success(q) => Success(qs + [q])
  }

  /** Correcting one more point: the corrected prefix grows by that point's correction, or stops with its failure. */
  lemma CorrectAllSnoc(ps: seq<Point>, p: Point, correct: Point -> Result<Point>)
    requires CorrectAll(ps, correct).Success?
    ensures correct(p).Success? ==>
              CorrectAll(ps + [p], correct) == Success(CorrectAll(ps, correct).value + [correct(p).value])
    ensures correct(p).Failure? ==> CorrectAll(ps + [p], correct) == Failure(correct(p).error)
  {
    assert (ps + [p])[..|ps|] == ps;
  }

  /** A failure on a prefix is the failure of the whole sequence. */
  lemma {:induction false} CorrectAllPrefixFailure(ps: seq<Point>, n: nat, correct: Point -> Result<Point>)
    requires n <= |ps|
    requires CorrectAll(ps[..n], correct).Failure?
    ensures CorrectAll(ps, correct) == CorrectAll(ps[..n], correct)
    decreases |ps| - n
  {
    if n < |ps| {
      assert ps[..n + 1][..n] == ps[..n];
      CorrectAllPrefixFailure(ps, n + 1, correct);
    } else {
      assert ps[..n] == ps;
    }
  }

  /**
    One step of the inner loop: with the first j points corrected to
    `done`, correcting point j either extends `done` or ends the whole
    walk with its failure.
  */
  lemma CorrectAllStep(ps: seq<Point>, j: nat, done: seq<Point>, correct: Point -> Result<Point>)
    requires j < |ps| && CorrectAll(ps[..j], correct) == Success(done)
    ensures correct(ps[j]).Success? ==> CorrectAll(ps[..j + 1], correct) == Success(done + [correct(ps[j]).value])
    ensures correct(ps[j]).Failure? ==> CorrectAll(ps, correct) == Failure(correct(ps[j]).error)
  {
    assert ps[..j + 1] == ps[..j] + [ps[j]];
    CorrectAllSnoc(ps[..j], ps[j], correct);
    if correct(ps[j]).Failure? {
      CorrectAllPrefixFailure(ps, j + 1, correct);
    }
  }

  /**
    The path after the first `n` waypoint pairs: for each pair, its first
    waypoint followed by its corrected target points.
  */
  function DensifyPairs(geo: Geo, w: seq<Point>, n: nat, step: real, correct: Point -> Result<Point>)
    : (r: Result<seq<Point>>)
    requires n < |w| && step != 0.0
    ensures r.Failure? ==> exists q :: correct(q) == Failure(r.error)
  {
    if n == 0 then Success([])
    else
      match DensifyPairs(geo, w, n - 1, step, correct)
      case Failure(e) => Failure(e)
      case Success(p) =>
        match CorrectAll(Targets(geo, w[n - 1], w[n], step), correct)
        case Failure(e) => Failure(e)
        case Success(ts) => Success(p + [w[n - 1]] + ts)
  }

  /** The densified and corrected path: all pairs, then the last waypoint. */
  function Densify(geo: Geo, w: seq<Point>, step: real, correct: Point -> Result<Point>): (r: Result<seq<Point>>)
    requires |w| >= 1 && step != 0.0
    ensures r.Failure? ==> exists q :: correct(q) == Failure(r.error)
  {
    match DensifyPairs(geo, w, |w| - 1, step, correct)
    case Failure(e) => Failure(e)
    case Success(p) => Success(p + [w[|w| - 1]])
  }

  /** The number of target points generated for the first `n` pairs. */
  function TargetsBefore(geo: Geo, w: seq<Point>, n: nat, step: real): nat
    requires n < |w| && step != 0.0
  {
    if n == 0 then 0 else TargetsBefore(geo, w, n - 1, step) + Count(geo, w[n - 1], w[n], step)
  }

  /** The position of waypoint `i` in the densified path. */
  function WaypointIndex(geo: Geo, w: seq<Point>, i: nat, step: real): nat
    requires i < |w| && step != 0.0
  {
    i + TargetsBefore(geo, w, i, step)
  }

  /** An earlier waypoint lies earlier in the path. */
  lemma {:induction false} WaypointIndexMonotonic(geo: Geo, w: seq<Point>, i: nat, k: nat, step: real)
    requires i < k < |w| && step != 0.0
    ensures WaypointIndex(geo, w, i, step) < WaypointIndex(geo, w, k, step)
    decreases k
  {
    if i < k - 1 {
      WaypointIndexMonotonic(geo, w, i, k - 1, step);
    }
  }

  /** After `n` pairs the path holds n waypoints and their target points. */
  lemma {:induction false} DensifyPairsLength(geo: Geo, w: seq<Point>, n: nat, step: real, correct: Point -> Result<Point>)
    requires n < |w| && step != 0.0
    requires DensifyPairs(geo, w, n, step, correct).Success?
    ensures |DensifyPairs(geo, w, n, step, correct).value| == WaypointIndex(geo, w, n, step)
  {
    if n > 0 {
      DensifyPairsLength(geo, w, n - 1, step, correct);
    }
  }

  /** One more pair appends its first waypoint and its corrected target points. */
  lemma DensifyPairsStep(geo: Geo, w: seq<Point>, n: nat, step: real, correct: Point -> Result<Point>)
    requires 0 < n < |w| && step != 0.0
    requires DensifyPairs(geo, w, n, step, correct).Success?
    ensures DensifyPairs(geo, w, n - 1, step, correct).Success?
    ensures CorrectAll(Targets(geo, w[n - 1], w[n], step), correct).Success?
    ensures DensifyPairs(geo, w, n, step, correct).value ==
            DensifyPairs(geo, w, n - 1, step, correct).value + [w[n - 1]] +
            CorrectAll(Targets(geo, w[n - 1], w[n], step), correct).value
  {
  }

  /**
    One step of the outer loop: from the path after n pairs, pair n either
    appends w[n] and its corrected targets or fails the whole densification.
  */
  lemma DensifyPairsNext(geo: Geo, w: seq<Point>, n: nat, p: seq<Point>, step: real, correct: Point -> Result<Point>)
    requires n + 1 < |w| && step != 0.0
    requires DensifyPairs(geo, w, n, step, correct) == Success(p)
    ensures match CorrectAll(Targets(geo, w[n], w[n + 1], step), correct)
            case Success(ts) => DensifyPairs(geo, w, n + 1, step, correct) == Success(p + [w[n]] + ts)
            case Failure(e) => Densify(geo, w, step, correct) == Failure(e)
  {
    if CorrectAll(Targets(geo, w[n], w[n + 1], step), correct).Failure? {
      DensifyPairsFailurePersists(geo, w, n + 1, |w| - 1, step, correct);
    }
  }

  /** The path after m pairs is a prefix of the path after n >= m pairs. */
  lemma {:induction false} DensifyPairsPrefix(geo: Geo, w: seq<Point>, m: nat, n: nat, step: real,
                                              correct: Point -> Result<Point>)
    requires m <= n < |w| && step != 0.0
    requires DensifyPairs(geo, w, n, step, correct).Success?
    ensures DensifyPairs(geo, w, m, step, correct).Success?
    ensures var pm := DensifyPairs(geo, w, m, step, correct).value;
            var pn := DensifyPairs(geo, w, n, step, correct).value;
            |pm| <= |pn| && pn[..|pm|] == pm
    decreases n - m
  {
    if m < n {
      DensifyPairsStep(geo, w, n, step, correct);
      DensifyPairsPrefix(geo, w, m, n - 1, step, correct);
      var pm := DensifyPairs(geo, w, m, step, correct).value;
      var pn' := DensifyPairs(geo, w, n - 1, step, correct).value;
      var pn := DensifyPairs(geo, w, n, step, correct).value;
      assert pn[..|pn'|] == pn';
      assert pn[..|pm|] == pn'[..|pm|];
    }
  }

  /**
    In the path after `n` pairs, waypoint i (i < n) sits at its index,
    followed immediately by the corrected target points of pair i, which
    fill the places up to the index of waypoint i + 1.
  */
  lemma DensifyPairsLayout(geo: Geo, w: seq<Point>, n: nat, i: nat, step: real,
                           correct: Point -> Result<Point>)
    requires i < n < |w| && step != 0.0
    requires DensifyPairs(geo, w, n, step, correct).Success?
    ensures var p := DensifyPairs(geo, w, n, step, correct).value;
            var wi := WaypointIndex(geo, w, i, step);
            var ts := CorrectAll(Targets(geo, w[i], w[i + 1], step), correct);
            && WaypointIndex(geo, w, i + 1, step) == wi + 1 + Count(geo, w[i], w[i + 1], step) <= |p|
            && p[wi] == w[i]
            && ts.Success?
            && p[wi + 1..WaypointIndex(geo, w, i + 1, step)] == ts.value
  {
    DensifyPairsPrefix(geo, w, i + 1, n, step, correct);
    DensifyPairsStep(geo, w, i + 1, step, correct);
    DensifyPairsLength(geo, w, i, step, correct);
    DensifyPairsLength(geo, w, i + 1, step, correct);
    var p := DensifyPairs(geo, w, n, step, correct).value;
    var q := DensifyPairs(geo, w, i + 1, step, correct).value;
    var wi := WaypointIndex(geo, w, i, step);
    var wj := WaypointIndex(geo, w, i + 1, step);
    assert p[..wj] == q;
    assert p[wi] == q[wi];
    assert p[wi + 1..wj] == q[wi + 1..wj];
  }

  /** A failure after `n` pairs is the failure of every longer prefix of pairs. */
  lemma {:induction false} DensifyPairsFailurePersists(geo: Geo, w: seq<Point>, n: nat, k: nat, step: real,
                                                       correct: Point -> Result<Point>)
    requires n <= k < |w| && step != 0.0
    requires DensifyPairs(geo, w, n, step, correct).Failure?
    ensures DensifyPairs(geo, w, k, step, correct) == DensifyPairs(geo, w, n, step, correct)
    decreases k - n
  {
    if n < k {
      DensifyPairsFailurePersists(geo, w, n, k - 1, step, correct);
    }
  }

  /** The densified path holds every waypoint and every target point. */
  lemma DensifiedLength(geo: Geo, w: seq<Point>, step: real, correct: Point -> Result<Point>)
    requires |w| >= 1 && step != 0.0
    requires Densify(geo, w, step, correct).Success?
    ensures |Densify(geo, w, step, correct).value| == |w| + TargetsBefore(geo, w, |w| - 1, step)
  {
    DensifyPairsLength(geo, w, |w| - 1, step, correct);
  }

  /**
    Every waypoint appears unmodified in the densified path, at its index;
    the first waypoint opens the path and the last one closes it.
  */
  lemma WaypointPreserved(geo: Geo, w: seq<Point>, i: nat, step: real, correct: Point -> Result<Point>)
    requires i < |w| && step != 0.0
    requires Densify(geo, w, step, correct).Success?
    ensures var p := Densify(geo, w, step, correct).value;
            WaypointIndex(geo, w, i, step) < |p| && p[WaypointIndex(geo, w, i, step)] == w[i]
    ensures WaypointIndex(geo, w, 0, step) == 0
    ensures WaypointIndex(geo, w, |w| - 1, step) == |Densify(geo, w, step, correct).value| - 1
  {
    var pairs := DensifyPairs(geo, w, |w| - 1, step, correct);
    var p := pairs.value + [w[|w| - 1]];
    assert Densify(geo, w, step, correct).value == p;
    DensifyPairsLength(geo, w, |w| - 1, step, correct);
    var wi := WaypointIndex(geo, w, i, step);
    if i < |w| - 1 {
      DensifyPairsLayout(geo, w, |w| - 1, i, step, correct);
      assert p[wi] == pairs.value[wi];
    }
  }

  /**
    The j-th point after waypoint i is the correction of the j-th target
    point of pair i, which lies at distance step * (j + 1) from w[i]
    towards w[i + 1].
  */
  lemma TargetPlacement(geo: Geo, w: seq<Point>, i: nat, j: nat, step: real, correct: Point -> Result<Point>)
    requires i + 1 < |w| && step != 0.0
    requires j < Count(geo, w[i], w[i + 1], step)
    requires Densify(geo, w, step, correct).Success?
    ensures var p := Densify(geo, w, step, correct).value;
            var k := WaypointIndex(geo, w, i, step) + 1 + j;
            && k < WaypointIndex(geo, w, i + 1, step) < |p|
            && correct(PointFromDistBear(geo, w[i], w[i + 1], step * (j + 1) as real)) == Success(p[k])
  {
    var p' := DensifyPairs(geo, w, |w| - 1, step, correct).value;
    DensifyPairsLayout(geo, w, |w| - 1, i, step, correct);
    DensifyPairsLength(geo, w, |w| - 1, step, correct);
    var wi := WaypointIndex(geo, w, i, step);
    var ts := CorrectAll(Targets(geo, w[i], w[i + 1], step), correct).value;
    assert p'[wi + 1..WaypointIndex(geo, w, i + 1, step)][j] == ts[j];
  }

  /** Densification after `n` pairs fails exactly when the targets of one of them cannot all be corrected. */
  lemma {:induction false} DensifyPairsFailure(geo: Geo, w: seq<Point>, n: nat, step: real, correct: Point -> Result<Point>)
    requires n < |w| && step != 0.0
    ensures DensifyPairs(geo, w, n, step, correct).Failure? <==>
            exists i :: 0 <= i < n && CorrectAll(Targets(geo, w[i], w[i + 1], step), correct).Failure?
  {
    if n > 0 {
      DensifyPairsFailure(geo, w, n - 1, step, correct);
    }
  }

  /** The correction of the j-th target point of pair i fails. */
  predicate TargetFails(geo: Geo, w: seq<Point>, i: nat, j: nat, step: real, correct: Point -> Result<Point>)
    requires i + 1 < |w| && step != 0.0
  {
    j < Count(geo, w[i], w[i + 1], step) && correct(TargetPoint(geo, w[i], w[i + 1], step, j)).Failure?
  }

  /**
    The whole densification fails exactly when some target point of some
    pair cannot be corrected.
  */
  lemma DensifyFailure(geo: Geo, w: seq<Point>, step: real, correct: Point -> Result<Point>)
    requires |w| >= 1 && step != 0.0
    ensures Densify(geo, w, step, correct).Failure? <==>
            exists i: nat, j: nat :: i + 1 < |w| && TargetFails(geo, w, i, j, step, correct)
  {
    DensifyPairsFailure(geo, w, |w| - 1, step, correct);
    var pairs := DensifyPairs(geo, w, |w| - 1, step, correct);
    if pairs.Failure? {
      var i :| 0 <= i < |w| - 1 && CorrectAll(Targets(geo, w[i], w[i + 1], step), correct).Failure?;
      var ts := Targets(geo, w[i], w[i + 1], step);
      var j :| 0 <= j < |ts| && correct(ts[j]).Failure?;
      assert TargetFails(geo, w, i, j, step, correct);
    } else {
      forall i: nat, j: nat | i + 1 < |w| ensures !TargetFails(geo, w, i, j, step, correct) {
        var ts := Targets(geo, w[i], w[i + 1], step);
        assert CorrectAll(ts, correct).Success?;
        if j < |ts| {
          assert correct(ts[j]).Success?;
        }
      }
    }
  }

  /**
    The inner loop of the source for the pair (a, b): place each target
    point, correct it against the exclusion zones and append it to the
    path built so far.
  */
  method AppendTargets(geo: Geo, flightPath: seq<Point>, a: Point, b: Point, stepDistance: real,
                       exclusionPoints: seq<Point>, exclusionRadius: seq<real>)
    returns (r: Result<seq<Point>>)
    requires stepDistance != 0.0 && |exclusionRadius| == |exclusionPoints|
    ensures match CorrectAll(Targets(geo, a, b, stepDistance), Corrector(geo, exclusionPoints, exclusionRadius))
            case Failure(e) => r == Failure(e)
            case Success(ts) => r == Success(flightPath + ts)
  {
    ghost var correct := Corrector(geo, exclusionPoints, exclusionRadius);
    ghost var targets := Targets(geo, a, b, stepDistance);
    var totalDistance := geo.distance(a, b);
    var numPoints := (totalDistance / stepDistance).Floor;
    var path := flightPath;
    ghost var done: seq<Point> := [];
    var j := 0;
    assert targets[..0] == [];
    while j < numPoints
      invariant 0 <= j <= |targets|
      invariant path == flightPath + done
      invariant CorrectAll(targets[..j], correct) == Success(done)
    {
      var targetPoint := PointFromDistBear(geo, a, b, stepDistance * (j + 1) as real);
      var corrected := CorrectTarget(geo, targetPoint, exclusionPoints, exclusionRadius);
      assert corrected == correct(targets[j]);
      CorrectAllStep(targets, j, done, correct);
      if corrected.Failure? {
        return Failure(corrected.error);
      }
      path := path + [corrected.value];
      done := done + [corrected.value];
      j := j + 1;
    }
    assert targets[..j] == targets;
    r := Success(path);
  }

  /**
    The densification loops of the source: for each pair append its first
    waypoint, then its corrected target points; finally append the last
    waypoint. The path starts empty: the source appends to a list it
    never initialises in the function, which is evidently meant to be empty.
  */
  method DensifyPath(geo: Geo, waypoints: seq<Point>, exclusionPoints: seq<Point>, stepDistance: real,
                     exclusionRadius: seq<real>)
    returns (r: Result<seq<Point>>)
    requires |waypoints| >= 2 && stepDistance != 0.0 && |exclusionRadius| == |exclusionPoints|
    ensures r == Densify(geo, waypoints, stepDistance, Corrector(geo, exclusionPoints, exclusionRadius))
  {
    ghost var correct := Corrector(geo, exclusionPoints, exclusionRadius);
    var flightPath: seq<Point> := [];
    var i := 0;
    while i < |waypoints| - 1
      invariant 0 <= i <= |waypoints| - 1
      invariant DensifyPairs(geo, waypoints, i, stepDistance, correct) == Success(flightPath)
    {
      DensifyPairsNext(geo, waypoints, i, flightPath, stepDistance, correct);
      flightPath := flightPath + [waypoints[i]];
      var extended := AppendTargets(geo, flightPath, waypoints[i], waypoints[i + 1], stepDistance,
                                    exclusionPoints, exclusionRadius);
      if extended.Failure? {
        return extended;
      }
      flightPath := extended.value;
      i := i + 1;
    }
    flightPath := flightPath + [waypoints[|waypoints| - 1]];
    r := Success(flightPath);
  }
}
