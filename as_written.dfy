/**
  The planner's code as written, where it departs from what it evidently
  intends, with concrete inputs that show the difference. The rest of the
  model uses the corrected definitions in Exclusion and Simplifier.
*/
module AsWritten {
  import opened Outcome
  import opened GeoMath
  import opened Exclusion
  import opened Simplifier

  /** A Python computation: it returns a value or raises an exception. */
  datatype Run<T> = Returns(value: T) | Raises

  /** The value the distance variable of the correction holds after the loop over the centres. */
  datatype DistanceValue = DistanceList(ds: seq<real>) | DistanceFloat(d: real)

  /**
    The distance loop as written: it starts from the empty list and
    assigns each distance to the list variable itself, so afterwards the
    variable holds the last distance, or the empty list when there are no
    centres.
  */
  method DistancesAsWritten(geo: Geo, targetPoint: Point, exclusionPoints: seq<Point>)
    returns (exclusionDistance: DistanceValue)
    ensures |exclusionPoints| == 0 ==> exclusionDistance == DistanceList([])
    ensures |exclusionPoints| > 0 ==>
              exclusionDistance == DistanceFloat(geo.distance(targetPoint, exclusionPoints[|exclusionPoints| - 1]))
  {
    exclusionDistance := DistanceList([]);
    for k := 0 to |exclusionPoints|
      invariant k == 0 ==> exclusionDistance == DistanceList([])
      invariant k > 0 ==> exclusionDistance == DistanceFloat(geo.distance(targetPoint, exclusionPoints[k - 1]))
    {
      exclusionDistance := DistanceFloat(geo.distance(targetPoint, exclusionPoints[k]));
    }
  }

  /** `min` of the variable: it raises on a float and on an empty list. */
  function MinAsWritten(v: DistanceValue): (r: Run<real>)
    ensures r.Returns? <==> v.DistanceList? && |v.ds| > 0
    ensures r.Returns? ==> r.value in v.ds && forall k :: 0 <= k < |v.ds| ==> r.value <= v.ds[k]
  {
    match v
    case DistanceFloat(_) => Raises
    case DistanceList(ds) => if |ds| == 0 then Raises else Returns(ds[ArgMin(ds)])
  }

  /**
    The distance loop and the `min` that follows it, as written: every
    target point makes the correction raise, whatever the zones.
  */
  method CorrectionAlwaysRaisesAsWritten(geo: Geo, targetPoint: Point, exclusionPoints: seq<Point>)
    returns (nearest: Run<real>)
    ensures nearest == Raises
  {
    var exclusionDistance := DistancesAsWritten(geo, targetPoint, exclusionPoints);
    nearest := MinAsWritten(exclusionDistance);
  }

  /**
    Without zones the loop leaves the empty list, on which `min` raises,
    where the corrected step keeps the target point.
  */
  lemma CorrectionWithoutZones(geo: Geo, p: Point)
    ensures MinAsWritten(DistanceList([])) == Raises
    ensures Correct(geo, p, [], []) == Success(p)
  {
    CorrectSpec(geo, p, [], []);
  }

  /**
    The comparison as written, given the list of distances the code
    evidently intends: it compares the nearest distance with, and
    extends to, the radius of the zone the loop variable last named (the
    last zone), not the nearest zone's.
  */
  function CorrectStaleRadius(geo: Geo, p: Point, centres: seq<Point>, radii: seq<real>): (r: Result<Point>)
    requires |radii| == |centres| && |centres| > 0
    ensures var m := ArgMin(ExclusionDistances(geo, p, centres));
            radii[|radii| - 1] <= geo.distance(p, centres[m]) ==> r == Success(p)
  {
    var ds := ExclusionDistances(geo, p, centres);
    var m := ArgMin(ds);
    var radius := radii[|radii| - 1];
    if ds[m] < radius then
      if geo.distance(centres[m], p) == 0.0 then Failure(ZeroDistanceToCentre)
      else Success(ExtendVecByDist(geo, centres[m], p, radius))
    else Success(p)
  }

  /** When the last zone's radius equals the nearest zone's, the stale index is harmless. */
  lemma StaleRadiusAgrees(geo: Geo, p: Point, centres: seq<Point>, radii: seq<real>)
    requires |radii| == |centres| && |centres| > 0
    requires radii[|radii| - 1] == radii[ArgMin(ExclusionDistances(geo, p, centres))]
    ensures CorrectStaleRadius(geo, p, centres, radii) == Correct(geo, p, centres, radii)
  {
  }

  /**
    A point inside its nearest zone m but no closer than the last zone's
    radius is kept by the code as written, while the corrected step moves
    it (or fails) unless extending it to radius m leaves it where it is.
  */
  lemma StaleRadiusMissesZone(geo: Geo, p: Point, centres: seq<Point>, radii: seq<real>, m: nat)
    requires |radii| == |centres|
    requires IsFirstMinimum(ExclusionDistances(geo, p, centres), m)
    requires radii[|radii| - 1] <= geo.distance(p, centres[m]) < radii[m]
    ensures CorrectStaleRadius(geo, p, centres, radii) == Success(p)
    ensures Correct(geo, p, centres, radii) != Success(p) <==>
            geo.distance(centres[m], p) == 0.0 || ExtendVecByDist(geo, centres[m], p, radii[m]) != p
  {
    CorrectSpec(geo, p, centres, radii);
    FirstMinimumUnique(ExclusionDistances(geo, p, centres), m, ArgMin(ExclusionDistances(geo, p, centres)));
  }

  /** A plane along the latitude axis: distance and bearing are differences of latitude. */
  function LineGeo(): Geo
  {
    Geo((a: Point, b: Point) => if a.lat <= b.lat then b.lat - a.lat else a.lat - b.lat,
        (a: Point, b: Point) => b.lat - a.lat,
        (a: Point, bearing: real, d: real) => a,
        (x: real, y: real) => x == y)
  }

  /**
    A target point at 0.5 from a zone of radius 1 whose neighbour zone, far
    away, has radius 0.1: the code as written leaves it inside the nearest
    zone, the corrected step moves it to that zone's boundary.
  */
  lemma StaleRadiusLeavesPointInside()
    ensures var geo, p := LineGeo(), Point(0.5, 0.0);
            var centres, radii := [Point(0.0, 0.0), Point(10.0, 0.0)], [1.0, 0.1];
            && CorrectStaleRadius(geo, p, centres, radii) == Success(p)
            && geo.distance(p, centres[0]) < radii[0]
            && Correct(geo, p, centres, radii) == Success(Point(1.0, 0.0))
            && geo.distance(Point(1.0, 0.0), centres[0]) == radii[0]
  {
    var geo, p := LineGeo(), Point(0.5, 0.0);
    var centres, radii := [Point(0.0, 0.0), Point(10.0, 0.0)], [1.0, 0.1];
    var ds := ExclusionDistances(geo, p, centres);
    assert ds == [0.5, 9.5];
    assert IsFirstMinimum(ds, 0);
    FirstMinimumUnique(ds, 0, ArgMin(ds));
  }

  /** Python indexing: a negative index counts from the end; out of range raises. */
  function PyIndex(s: seq<Point>, i: int): (r: Run<Point>)
    ensures r.Returns? <==> -|s| <= i < |s|
    ensures 0 <= i < |s| ==> r == Returns(s[i])
    ensures -|s| <= i < 0 ==> r == Returns(s[|s| + i])
  {
    if 0 <= i < |s| then Returns(s[i])
    else if -|s| <= i < 0 then Returns(s[|s| + i])
    else Raises
  }

  /**
    The simplification loop as written, from position `index` of the
    enumeration of the snapshot `interior` (the path's interior points
    taken before the loop): it compares the bearing from the path's
    element at index - 1 to the point with the bearing from the point to
    the path's element at index + 1.

    When the bearings agree it calls `flightPath.remove(point)`, and
    `list.remove` first compares the path's first element with the point
    by `==`. That element is the first waypoint, a two-coordinate numpy
    array; comparing it with a point (an array, or the list an
    uncorrected target is) gives an element-wise array whose truth value
    raises. So a removal raises, and the loop as written either raises or
    leaves the path as it was.
  */
  function SimplifyFromAsWritten(geo: Geo, path: seq<Point>, interior: seq<Point>, index: nat): (r: Run<seq<Point>>)
    requires index <= |interior|
    ensures r.Returns? ==> r.value == path
    decreases |interior| - index
  {
    if index == |interior| then Returns(path)
    else
      var point := interior[index];
      match (PyIndex(path, index - 1), PyIndex(path, index + 1))
      case (Returns(before), Returns(after)) =>
        if Collinear(geo, before, point, after) then Raises
        else SimplifyFromAsWritten(geo, path, interior, index + 1)
      case _ => Raises
  }

  /** The simplification as written, over `flightPath[1:-1]`. */
  function SimplifiedAsWritten(geo: Geo, path: seq<Point>): (r: Run<seq<Point>>)
    ensures |path| <= 2 ==> r == Returns(path)
    ensures r.Returns? ==> r.value == path
  {
    if |path| < 2 then Returns(path) else SimplifyFromAsWritten(geo, path, path[1..|path| - 1], 0)
  }

  /**
    Three points on a line: the code as written compares the middle point
    with the last point and with itself, and keeps it; the corrected scan
    removes it.
  */
  lemma SimplifyOffByOne()
    ensures var geo := LineGeo();
            var a, b, c := Point(0.0, 0.0), Point(1.0, 0.0), Point(2.0, 0.0);
            && Collinear(geo, a, b, c)
            && SimplifiedAsWritten(geo, [a, b, c]) == Returns([a, b, c])
            && Simplified(geo, [a, b, c]) == [a, c]
  {
    var geo := LineGeo();
    var a, b, c := Point(0.0, 0.0), Point(1.0, 0.0), Point(2.0, 0.0);
    var p := [a, b, c];
    assert PyIndex(p, -1) == Returns(c) && PyIndex(p, 1) == Returns(b);
    assert !Collinear(geo, c, b, b);
    assert Collinear(geo, p[0], p[1], p[2]);
    assert ScanFrom(geo, p, [0], 2) == [0, 2];
    assert ScanFrom(geo, p, [0], 1) == [0, 2];
    assert Pick(p, [0, 2]) == [a, c];
    assert p[1..|p| - 1] == [b];
    assert SimplifyFromAsWritten(geo, p, [b], 1) == Returns(p);
    assert SimplifyFromAsWritten(geo, p, [b], 0) == Returns(p);
  }
}
