/**
  Points and the geometric primitives of the planner.

  The spherical formulas (law-of-cosines distance, Mercator bearing,
  destination from distance and bearing) are floating-point trigonometry;
  they are left uninterpreted as the fields of a `Geo` record that every
  operation takes as a parameter. Only `extendVecByDist`, which is plain
  vector arithmetic, is given a body.

  The source file does not parse as written: the input file is opened
  without `with` (randomFindCFunction.py line 7), the distance formula calls
  an undefined `arcmath` and has unbalanced parentheses (line 64), the
  bearing indexes with `]]` (line 92) and the destination calls an
  undefined `amath` (line 120); the bearing also uses an undefined `pi`
  (line 91). Those lines are not modelled. The simplification block of
  `calculateFlightPath` (lines 172-177) is indented with spaces inside a
  body indented with tabs, which Python 3 rejects; the model, including the
  as-written simplification of module AsWritten, reads that block as the
  last step of `calculateFlightPath`, before its `return`.
*/
module GeoMath {

  /** A (latitude, longitude) coordinate vector. */
  datatype Point = Point(lat: real, long: real)

  /** The uninterpreted primitives. */
  datatype Geo = Geo(
    // distanceTwoPoints(first, second)
    distance: (Point, Point) -> real,
    // calculateBearing(first, second)
    bearing: (Point, Point) -> real,
    // the point reached from an origin along a bearing after a distance
    // (the two assignments that end pointFromDistBear)
    destination: (Point, real, real) -> Point,
    // the comparison of two bearings in the simplification step
    sameBearing: (real, real) -> bool)

  /** pointFromDistBear: travel `d` from `first` along the bearing towards `third`. */
  function PointFromDistBear(geo: Geo, first: Point, third: Point, d: real): Point
  {
    geo.destination(first, geo.bearing(first, third), d)
  }

  /** The bearing from `prev` to `p` equals the bearing from `p` to `next`. */
  predicate Collinear(geo: Geo, prev: Point, p: Point, next: Point)
  {
    geo.sameBearing(geo.bearing(prev, p), geo.bearing(p, next))
  }

  /**
    extendVecByDist: the point that is `d / distance(first, second)` of the
    way from `first` to `second`, that is first + d/dist * (second - first).
    The source divides by the distance, so a zero distance is excluded here
    and reported as an error by the caller.
  */
  function ExtendVecByDist(geo: Geo, first: Point, second: Point, d: real): (third: Point)
    requires geo.distance(first, second) != 0.0
    ensures d == geo.distance(first, second) ==> third == second
    ensures d == 0.0 ==> third == first
    ensures second == first ==> third == first
  {
    var t := d / geo.distance(first, second);
    Point(first.lat + t * (second.lat - first.lat), first.long + t * (second.long - first.long))
  }
}
