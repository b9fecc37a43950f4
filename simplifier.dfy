/**
  Simplification: scan the interior points of the path from the second
  to the second-to-last and remove every point whose bearing from the
  point before it equals its bearing to the point after it. The first and
  the last point are never removed. After a removal the scan stays at the
  same position, so the point before is always the last point kept and
  the point after is the next point of the original path.

  The result is described by the indices of the points kept.
*/
module Simplifier {
  import opened GeoMath

  /** The indices of `ks` are strictly increasing. */
  predicate Increasing(ks: seq<nat>)
  {
    forall a, b :: 0 <= a < b < |ks| ==> ks[a] < ks[b]
  }

  /** Every point strictly between a and b is collinear with the point a and its own successor. */
  predicate RemovedBetween(geo: Geo, p: seq<Point>, a: nat, b: nat)
    requires a < b < |p|
  {
    forall i :: a < i < b ==> Collinear(geo, p[a], p[i], p[i + 1])
  }

  /** The points of `p` at the indices `ks`, in that order. */
  function Pick(p: seq<Point>, ks: seq<nat>): (r: seq<Point>)
    requires forall k :: 0 <= k < |ks| ==> ks[k] < |p|
  {
    seq(|ks|, k requires 0 <= k < |ks| => p[ks[k]])
  }

  /**
    `ks` is how the scan simplifies `p`: it keeps the first and the last
    point, keeps points in order, removes exactly the points between two
    kept ones (each collinear with the point kept before it and with its
    own successor), and every interior point it keeps is not collinear with
    the point kept before it and its own successor.
  */
  predicate Simplifies(geo: Geo, p: seq<Point>, ks: seq<nat>)
  {
    && 2 <= |p| && 2 <= |ks|
    && ks[0] == 0 && ks[|ks| - 1] == |p| - 1
    && Increasing(ks)
    && (forall k :: 0 < k < |ks| ==> RemovedBetween(geo, p, ks[k - 1], ks[k]))
    && (forall k :: 0 < k < |ks| - 1 ==> !Collinear(geo, p[ks[k - 1]], p[ks[k]], p[ks[k] + 1]))
  }

  /** The state of the scan before position i: `ks` kept so far, the points after its last one removed. */
  predicate ScanState(geo: Geo, p: seq<Point>, ks: seq<nat>, i: nat)
  {
    && 2 <= |p| && 1 <= i <= |p| - 1
    && 1 <= |ks| && ks[0] == 0 && ks[|ks| - 1] < i
    && Increasing(ks)
    && (forall k :: 0 < k < |ks| ==> RemovedBetween(geo, p, ks[k - 1], ks[k]))
    && (forall k :: 0 < k < |ks| ==> !Collinear(geo, p[ks[k - 1]], p[ks[k]], p[ks[k] + 1]))
    && RemovedBetween(geo, p, ks[|ks| - 1], i)
  }

  /** The rest of the scan from position i, having kept `ks`. */
  function ScanFrom(geo: Geo, p: seq<Point>, ks: seq<nat>, i: nat): (r: seq<nat>)
    requires 2 <= |p| && 1 <= i <= |p| - 1
    requires 1 <= |ks| && forall k :: 0 <= k < |ks| ==> ks[k] < i
    ensures forall k :: 0 <= k < |r| ==> r[k] < |p|
    decreases |p| - i
  {
    if i == |p| - 1 then ks + [i]
    else if Collinear(geo, p[ks[|ks| - 1]], p[i], p[i + 1]) then ScanFrom(geo, p, ks, i + 1)
    else ScanFrom(geo, p, ks + [i], i + 1)
  }

  /** The indices of the points the simplification keeps. */
  function Kept(geo: Geo, p: seq<Point>): (ks: seq<nat>)
    ensures forall k :: 0 <= k < |ks| ==> ks[k] < |p|
  {
    if |p| < 2 then seq(|p|, k => k) else ScanFrom(geo, p, [0], 1)
  }

  /** The simplified path. */
  function Simplified(geo: Geo, p: seq<Point>): seq<Point>
  {
    Pick(p, Kept(geo, p))
  }

  /** Removing the point at i keeps the scan in a valid state. */
  lemma ScanRemove(geo: Geo, p: seq<Point>, ks: seq<nat>, i: nat)
    requires ScanState(geo, p, ks, i) && i < |p| - 1
    requires Collinear(geo, p[ks[|ks| - 1]], p[i], p[i + 1])
    ensures ScanState(geo, p, ks, i + 1)
  {
  }

  /** Keeping the point at i keeps the scan in a valid state. */
  lemma ScanKeep(geo: Geo, p: seq<Point>, ks: seq<nat>, i: nat)
    requires ScanState(geo, p, ks, i) && i < |p| - 1
    requires !Collinear(geo, p[ks[|ks| - 1]], p[i], p[i + 1])
    ensures ScanState(geo, p, ks + [i], i + 1)
  {
    var ks' := ks + [i];
    forall k | 0 < k < |ks'|
      ensures RemovedBetween(geo, p, ks'[k - 1], ks'[k])
      ensures !Collinear(geo, p[ks'[k - 1]], p[ks'[k]], p[ks'[k] + 1])
    {
      if k < |ks| {
        assert ks'[k - 1] == ks[k - 1] && ks'[k] == ks[k];
      }
    }
  }

  /** Keeping the last point ends the scan in a simplification. */
  lemma ScanEnd(geo: Geo, p: seq<Point>, ks: seq<nat>)
    requires |p| >= 2 && ScanState(geo, p, ks, |p| - 1)
    ensures Simplifies(geo, p, ks + [|p| - 1])
  {
    var ks' := ks + [|p| - 1];
    forall k | 0 < k < |ks'|
      ensures RemovedBetween(geo, p, ks'[k - 1], ks'[k])
    {
      if k < |ks| {
        assert ks'[k - 1] == ks[k - 1] && ks'[k] == ks[k];
      }
    }
    forall k | 0 < k < |ks'| - 1
      ensures !Collinear(geo, p[ks'[k - 1]], p[ks'[k]], p[ks'[k] + 1])
    {
      assert ks'[k - 1] == ks[k - 1] && ks'[k] == ks[k];
    }
  }

  /** The scan, continued from any of its states, ends in a simplification of `p`. */
  lemma {:induction false} ScanFromSimplifies(geo: Geo, p: seq<Point>, ks: seq<nat>, i: nat)
    requires ScanState(geo, p, ks, i)
    ensures Simplifies(geo, p, ScanFrom(geo, p, ks, i))
    decreases |p| - i
  {
    if i == |p| - 1 {
      ScanEnd(geo, p, ks);
    } else if Collinear(geo, p[ks[|ks| - 1]], p[i], p[i + 1]) {
      ScanRemove(geo, p, ks, i);
      ScanFromSimplifies(geo, p, ks, i + 1);
    } else {
      ScanKeep(geo, p, ks, i);
      ScanFromSimplifies(geo, p, ks + [i], i + 1);
    }
  }

  /**
    The simplification of a path of at least two points is described by
    `Simplifies`: the first and last points stay, the result is the
    subsequence at increasing indices, and a point is removed exactly when
    it is collinear with the last point kept before it and its successor.
  */
  lemma SimplifiedSpec(geo: Geo, p: seq<Point>)
    requires |p| >= 2
    ensures Simplifies(geo, p, Kept(geo, p))
    ensures var r := Simplified(geo, p);
            2 <= |r| <= |p| && r[0] == p[0] && r[|r| - 1] == p[|p| - 1]
  {
    assert ScanState(geo, p, [0], 1);
    ScanFromSimplifies(geo, p, [0], 1);
    IncreasingBounded(Kept(geo, p), |p|);
  }

  /** A path of fewer than two points is left as it is. */
  lemma SimplifiedShort(geo: Geo, p: seq<Point>)
    requires |p| < 2
    ensures Simplified(geo, p) == p
  {
  }

  /** Strictly increasing indices below n number at most n. */
  lemma {:induction false} IncreasingBounded(ks: seq<nat>, n: nat)
    requires Increasing(ks) && forall k :: 0 <= k < |ks| ==> ks[k] < n
    ensures |ks| <= n
  {
    if ks != [] {
      var init := ks[..|ks| - 1];
      assert forall k :: 0 <= k < |init| ==> init[k] < ks[|ks| - 1];
      IncreasingBounded(init, ks[|ks| - 1]);
    }
  }

  /** The first index from c on where the scan, having kept a, keeps the next point. */
  function NextStop(geo: Geo, p: seq<Point>, a: nat, c: nat): (b: nat)
    requires a < c <= |p| - 1
    ensures c <= b <= |p| - 1
    decreases |p| - c
  {
    if c == |p| - 1 || !Collinear(geo, p[a], p[c], p[c + 1]) then c else NextStop(geo, p, a, c + 1)
  }

  /** A stop b reached through collinear points only is the next stop. */
  lemma {:induction false} NextStopIs(geo: Geo, p: seq<Point>, a: nat, c: nat, b: nat)
    requires a < c <= b <= |p| - 1
    requires RemovedBetween(geo, p, a, b)
    requires b == |p| - 1 || !Collinear(geo, p[a], p[b], p[b + 1])
    ensures NextStop(geo, p, a, c) == b
    decreases b - c
  {
    if c < b {
      assert Collinear(geo, p[a], p[c], p[c + 1]);
      NextStopIs(geo, p, a, c + 1, b);
    }
  }

  /** In a simplification, each kept index after the first is the next stop after the one before it. */
  lemma NextKept(geo: Geo, p: seq<Point>, ks: seq<nat>, k: nat)
    requires Simplifies(geo, p, ks) && 0 < k < |ks|
    ensures ks[k - 1] < ks[k] <= |p| - 1
    ensures NextStop(geo, p, ks[k - 1], ks[k - 1] + 1) == ks[k]
    ensures ks[k - 1] < |p| - 1
  {
    assert ks[k] <= ks[|ks| - 1];
    assert k < |ks| - 1 ==> ks[k] < ks[|ks| - 1];
    NextStopIs(geo, p, ks[k - 1], ks[k - 1] + 1, ks[k]);
  }

  /** In a simplification only the final kept index is the last point of the path. */
  lemma LastKeptAtEnd(geo: Geo, p: seq<Point>, ks: seq<nat>, k: nat)
    requires Simplifies(geo, p, ks) && k < |ks|
    ensures ks[k] == |p| - 1 <==> k == |ks| - 1
  {
    if k < |ks| - 1 {
      assert ks[k] < ks[|ks| - 1];
    }
  }

  /** A path has only one simplification: `Simplifies` determines the kept indices. */
  lemma SimplifiesUnique(geo: Geo, p: seq<Point>, ks1: seq<nat>, ks2: seq<nat>)
    requires Simplifies(geo, p, ks1) && Simplifies(geo, p, ks2)
    ensures ks1 == ks2
  {
    var n := if |ks1| < |ks2| then |ks1| else |ks2|;
    var k := 1;
    while k < n
      invariant 1 <= k <= n
      invariant ks1[..k] == ks2[..k]
    {
      NextKept(geo, p, ks1, k);
      NextKept(geo, p, ks2, k);
      assert ks1[k - 1] == ks2[k - 1];
      assert ks1[..k + 1] == ks1[..k] + [ks1[k]];
      assert ks2[..k + 1] == ks2[..k] + [ks2[k]];
      k := k + 1;
    }
    assert ks1[n - 1] == ks2[n - 1];
    LastKeptAtEnd(geo, p, ks1, n - 1);
    LastKeptAtEnd(geo, p, ks2, n - 1);
    assert ks1 == ks1[..n] && ks2 == ks2[..n];
  }

  /**
    The simplification loop of the source, with the removal done in place
    on the path: the scan position stays put after a removal and advances
    past a point it keeps. The loop as written enumerates a copy of the
    interior from index 0, so it compares the wrong neighbours, and its
    `list.remove` on array-valued points raises; module AsWritten models
    that loop.
  */
  method SimplifyPath(geo: Geo, path: seq<Point>) returns (flightPath: seq<Point>)
    ensures flightPath == Simplified(geo, path)
  {
    flightPath := path;
    if |path| < 2 {
      return;
    }
    var i := 1;
    ghost var m := 1;
    ghost var kept: seq<nat> := [0];
    while i < |flightPath| - 1
      invariant 1 <= m <= |path| - 1 && i == |kept|
      invariant kept[0] == 0 && forall k :: 0 <= k < |kept| ==> kept[k] < m
      invariant flightPath == Pick(path, kept) + path[m..]
      invariant ScanFrom(geo, path, kept, m) == Kept(geo, path)
      decreases |path| - m
    {
      assert flightPath[i - 1] == path[kept[|kept| - 1]];
      assert flightPath[i] == path[m] && flightPath[i + 1] == path[m + 1];
      if Collinear(geo, flightPath[i - 1], flightPath[i], flightPath[i + 1]) {
        flightPath := flightPath[..i] + flightPath[i + 1..];
        assert flightPath == Pick(path, kept) + path[m + 1..];
      } else {
        assert Pick(path, kept + [m]) == Pick(path, kept) + [path[m]];
        kept := kept + [m];
        i := i + 1;
      }
      m := m + 1;
    }
    assert m == |path| - 1;
    assert Pick(path, kept + [m]) == Pick(path, kept) + [path[m]];
  }
}
