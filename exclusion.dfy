/**
  Exclusion correction of one target point: find the nearest exclusion
  centre and, when the point is closer to it than that zone's radius,
  move the point along the centre-to-point line out to the radius.
*/
module Exclusion {
  import opened Outcome
  import opened GeoMath

  /** The distance from `p` to every exclusion centre, in the centres' order. */
  function ExclusionDistances(geo: Geo, p: Point, centres: seq<Point>): seq<real>
  {
    seq(|centres|, k requires 0 <= k < |centres| => geo.distance(p, centres[k]))
  }

  /**
    `m` indexes the first occurrence of the minimum of `ds`: no entry is
    smaller and every entry before it is larger.
  */
  predicate IsFirstMinimum(ds: seq<real>, m: int)
  {
    && 0 <= m < |ds|
    && (forall k :: 0 <= k < |ds| ==> ds[m] <= ds[k])
    && (forall k :: 0 <= k < m ==> ds[m] < ds[k])
  }

  /** `ds.index(min(ds))`. */
  function ArgMin(ds: seq<real>): (m: nat)
    requires |ds| > 0
    ensures IsFirstMinimum(ds, m)
  {
    if |ds| == 1 then 0
    else
      var m := ArgMin(ds[..|ds| - 1]);
      if ds[|ds| - 1] < ds[m] then |ds| - 1 else m
  }

  /** At most one index is the first minimum. */
  lemma FirstMinimumUnique(ds: seq<real>, m1: int, m2: int)
    requires IsFirstMinimum(ds, m1) && IsFirstMinimum(ds, m2)
    ensures m1 == m2
  {
    assert ds[m1] <= ds[m2] && ds[m2] <= ds[m1];
  }

  /**
    The correction of one target point against the exclusion zones
    (centres[k], radii[k]). Only the first nearest centre is considered.
  */
  function Correct(geo: Geo, p: Point, centres: seq<Point>, radii: seq<real>): (r: Result<Point>)
    requires |radii| == |centres|
    ensures r.Failure? ==> r.error == ZeroDistanceToCentre
  {
    if |centres| == 0 then Success(p)
    else
      var ds := ExclusionDistances(geo, p, centres);
      var m := ArgMin(ds);
      if ds[m] < radii[m] then
        if geo.distance(centres[m], p) == 0.0 then Failure(ZeroDistanceToCentre)
        else Success(ExtendVecByDist(geo, centres[m], p, radii[m]))
      else Success(p)
  }

  /**
    What the correction does: a point is kept when there is no zone, when no
    zone contains it, or when the nearest centre's zone does not contain it;
    when the nearest centre's zone contains it, it is pushed along the line
    from that centre to the zone's radius, unless it is at distance zero from
    the centre, where the division fails.
  */
  lemma CorrectSpec(geo: Geo, p: Point, centres: seq<Point>, radii: seq<real>)
    requires |radii| == |centres|
    ensures |centres| == 0 ==> Correct(geo, p, centres, radii) == Success(p)
    ensures (forall k :: 0 <= k < |centres| ==> radii[k] <= geo.distance(p, centres[k])) ==>
              Correct(geo, p, centres, radii) == Success(p)
    ensures forall m :: IsFirstMinimum(ExclusionDistances(geo, p, centres), m) ==>
              if radii[m] <= geo.distance(p, centres[m]) then
                Correct(geo, p, centres, radii) == Success(p)
              else if geo.distance(centres[m], p) == 0.0 then
                Correct(geo, p, centres, radii) == Failure(ZeroDistanceToCentre)
              else
                Correct(geo, p, centres, radii) == Success(ExtendVecByDist(geo, centres[m], p, radii[m]))
  {
    if |centres| > 0 {
      var ds := ExclusionDistances(geo, p, centres);
      var m := ArgMin(ds);
      forall m' | IsFirstMinimum(ds, m') ensures m' == m { FirstMinimumUnique(ds, m', m); }
    }
  }

  /** The correction against fixed exclusion zones, as a function of the point. */
  function Corrector(geo: Geo, centres: seq<Point>, radii: seq<real>): Point -> Result<Point>
    requires |radii| == |centres|
  {
    p => Correct(geo, p, centres, radii)
  }

  /**
    The correction step as the source runs it: collect the distances to the
    centres in a loop, then compare the nearest one with its zone's radius.
    The code as written assigns each distance over the list and reads the
    radius through the stale loop index; module AsWritten models both, and
    this method does what they evidently intend.
  */
  method CorrectTarget(geo: Geo, targetPoint: Point, exclusionPoints: seq<Point>, exclusionRadius: seq<real>)
    returns (r: Result<Point>)
    requires |exclusionRadius| == |exclusionPoints|
    ensures r == Correct(geo, targetPoint, exclusionPoints, exclusionRadius)
  {
    var exclusionDistance: seq<real> := [];
    for k := 0 to |exclusionPoints|
      invariant exclusionDistance == ExclusionDistances(geo, targetPoint, exclusionPoints[..k])
    {
      exclusionDistance := exclusionDistance + [geo.distance(targetPoint, exclusionPoints[k])];
    }
    assert exclusionPoints[..|exclusionPoints|] == exclusionPoints;
    if |exclusionDistance| == 0 {
      return Success(targetPoint);
    }
    var minIndex := ArgMin(exclusionDistance);
    var point := targetPoint;
    if exclusionDistance[minIndex] < exclusionRadius[minIndex] {
      if geo.distance(exclusionPoints[minIndex], point) == 0.0 {
        return Failure(ZeroDistanceToCentre);
      }
      point := ExtendVecByDist(geo, exclusionPoints[minIndex], point, exclusionRadius[minIndex]);
    }
    return Success(point);
  }
}
