/** Nearest-neighbour matching of one point cloud against another
    (`calculateDeformations` of the viewer). */
module Matching {
  import opened Wrappers
  import opened Geometry

  /** The matching radius, hard-coded in the source: a candidate counts only
      when its distance is strictly below it. */
  const MaxDistance: real := 2.0

  /** One record per point of the first cloud. */
  datatype Deformation = Deformation(point: Point, deformation: real, matched: bool)

  /** The running minimum, which starts at JavaScript's `Infinity`. */
  datatype Bound = Finite(value: real) | Infinity

  /** `d < bound`, with every real below `Infinity`. */
  predicate Below(d: real, bound: Bound) {
    bound.Infinity? || d < bound.value
  }

  /** `q` is a candidate for `p`: strictly closer than the matching radius. */
  ghost predicate InRange(dist: (Point, Point) -> real, p: Point, q: Point) {
    dist(p, q) < MaxDistance
  }

  /** Some point of `cloud` is a candidate for `p`. */
  ghost predicate HasCandidate(dist: (Point, Point) -> real, p: Point, cloud: seq<Point>) {
    exists j :: 0 <= j < |cloud| && InRange(dist, p, cloud[j])
  }

  /** Among the first `n` points of `cloud`, index `k` is the candidate nearest
      to `p`, and the first one at that distance: every earlier candidate is
      strictly farther, every later one at least as far. */
  ghost predicate NearestAmong(dist: (Point, Point) -> real, p: Point, cloud: seq<Point>, k: int, n: int)
    requires n <= |cloud|
  {
    && 0 <= k < n
    && InRange(dist, p, cloud[k])
    && (forall j :: 0 <= j < k && InRange(dist, p, cloud[j]) ==> dist(p, cloud[k]) < dist(p, cloud[j]))
    && (forall j :: k < j < n && InRange(dist, p, cloud[j]) ==> dist(p, cloud[k]) <= dist(p, cloud[j]))
  }

  /** Index `k` is the match the matcher should pick for `p` in `cloud`. */
  ghost predicate IsNearest(dist: (Point, Point) -> real, p: Point, cloud: seq<Point>, k: int) {
    NearestAmong(dist, p, cloud, k, |cloud|)
  }

  /** What the record for `p` must hold: the point itself; `matched` exactly
      when `cloud` has a candidate; then the distance to the nearest
      candidate, otherwise 0. */
  ghost predicate Describes(dist: (Point, Point) -> real, r: Deformation, p: Point, cloud: seq<Point>) {
    && r.point == p
    && r.matched == HasCandidate(dist, p, cloud)
    && (r.matched ==> exists k :: IsNearest(dist, p, cloud, k) && r.deformation == dist(p, cloud[k]))
    && (!r.matched ==> r.deformation == 0.0)
  }

  /** The matcher: for every point of `points1`, scan all of `points2` keeping
      the closest candidate seen so far; a later point replaces it only when
      strictly closer. `dist` is the source's `Math.sqrt` of the squared
      coordinate differences. */
  method CalculateDeformations(points1: seq<Point>, points2: seq<Point>, dist: (Point, Point) -> real)
    returns (deformations: seq<Deformation>)
    requires IsEuclidean(dist)
    ensures |deformations| == |points1|
    ensures forall i :: 0 <= i < |points1| ==> Describes(dist, deformations[i], points1[i], points2)
  {
    deformations := [];
    for i := 0 to |points1|
      invariant |deformations| == i
      invariant forall k :: 0 <= k < i ==> Describes(dist, deformations[k], points1[k], points2)
    {
      var p1 := points1[i];
      var minDistance := Infinity;
      var closestPoint: Option<Point> := None;
      ghost var closest := -1;

      for j := 0 to |points2|
        invariant closestPoint.None? <==> minDistance.Infinity?
        invariant closestPoint.None? ==> forall k :: 0 <= k < j ==> !InRange(dist, p1, points2[k])
        invariant closestPoint.Some? ==>
          && NearestAmong(dist, p1, points2, closest, j)
          && closestPoint.value == points2[closest]
          && minDistance == Finite(dist(p1, points2[closest]))
      {
        var p2 := points2[j];
        var distance := dist(p1, p2);
        if Below(distance, minDistance) && distance < MaxDistance {
          minDistance := Finite(distance);
          closestPoint := Some(p2);
          closest := j;
        }
      }

      var deformation := if minDistance.Finite? && minDistance.value < MaxDistance then minDistance.value else 0.0;
      var record := Deformation(p1, deformation, closestPoint.Some?);
      assert Describes(dist, record, p1, points2) by {
        if closestPoint.Some? {
          assert IsNearest(dist, p1, points2, closest);
        }
      }
      deformations := deformations + [record];
    }
  }

  /** Two indices that both satisfy the nearest-match rule coincide: the
      tie-break makes the match unique. */
  lemma NearestIsUnique(dist: (Point, Point) -> real, p: Point, cloud: seq<Point>, k1: int, k2: int)
    requires IsNearest(dist, p, cloud, k1) && IsNearest(dist, p, cloud, k2)
    ensures k1 == k2
  {
  }

  /** A record produced for `p` carries a deformation in `[0, MaxDistance)`;
      a matched one carries the distance to some point of `cloud`, no larger
      than the distance to any candidate; an unmatched one carries 0. */
  lemma DeformationIsInRangeMinimum(dist: (Point, Point) -> real, r: Deformation, p: Point, cloud: seq<Point>)
    requires IsEuclidean(dist) && Describes(dist, r, p, cloud)
    ensures 0.0 <= r.deformation < MaxDistance
    ensures r.matched ==> exists k :: 0 <= k < |cloud| && r.deformation == dist(p, cloud[k])
    ensures r.matched ==> forall j :: 0 <= j < |cloud| && InRange(dist, p, cloud[j]) ==> r.deformation <= dist(p, cloud[j])
  {
    if r.matched {
      var k :| IsNearest(dist, p, cloud, k) && r.deformation == dist(p, cloud[k]);
      forall j | 0 <= j < |cloud| && InRange(dist, p, cloud[j])
        ensures r.deformation <= dist(p, cloud[j])
      {
        if j < k {
          assert dist(p, cloud[k]) < dist(p, cloud[j]);
        }
      }
    }
  }

  /** Matched exactly when some point of `cloud` lies within the radius, as
      decided by comparing squared distances with the squared radius. */
  lemma MatchedIffWithinRadius(dist: (Point, Point) -> real, r: Deformation, p: Point, cloud: seq<Point>)
    requires IsEuclidean(dist) && Describes(dist, r, p, cloud)
    ensures r.matched <==> exists j :: 0 <= j < |cloud| && SqDist(p, cloud[j]) < MaxDistance * MaxDistance
  {
    if r.matched {
      var j :| 0 <= j < |cloud| && InRange(dist, p, cloud[j]);
      BelowRadiusBySquares(dist, p, cloud[j], MaxDistance);
    } else {
      forall j | 0 <= j < |cloud|
        ensures !(SqDist(p, cloud[j]) < MaxDistance * MaxDistance)
      {
        BelowRadiusBySquares(dist, p, cloud[j], MaxDistance);
      }
    }
  }

  /** Against an empty second cloud no record is matched and every
      deformation is 0. */
  lemma EmptyCloudLeavesUnmatched(dist: (Point, Point) -> real, r: Deformation, p: Point)
    requires Describes(dist, r, p, [])
    ensures !r.matched && r.deformation == 0.0
  {
  }

  /** A point that also occurs in the second cloud is matched with
      deformation 0; comparing a cloud with itself reports no deformation. */
  lemma PresentPointHasZeroDeformation(dist: (Point, Point) -> real, r: Deformation, p: Point, cloud: seq<Point>)
    requires IsEuclidean(dist) && Describes(dist, r, p, cloud) && p in cloud
    ensures r.matched && r.deformation == 0.0
  {
    var j :| 0 <= j < |cloud| && cloud[j] == p;
    assert dist(p, cloud[j]) == 0.0;
    assert InRange(dist, p, cloud[j]);
    DeformationIsInRangeMinimum(dist, r, p, cloud);
  }
}
