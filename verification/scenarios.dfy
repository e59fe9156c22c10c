/** Concrete comparisons worked through the model. */
module Scenarios {
  import opened Wrappers
  import opened Geometry
  import opened Matching
  import opened Statistics

  /** Two points compared with a slightly moved copy of the first and a far
      one: the first point is matched with an insignificant deformation, the
      second is left unmatched, and the statistics process one record. */
  lemma TwoPointComparison(dist: (Point, Point) -> real, r0: Deformation, r1: Deformation)
    requires IsEuclidean(dist)
    requires var cloud := [Point(0.0, 0.0, 0.05), Point(10.0, 0.0, 5.0)];
      && Describes(dist, r0, Point(0.0, 0.0, 0.0), cloud)
      && Describes(dist, r1, Point(10.0, 0.0, 0.0), cloud)
    ensures r0.matched && 0.0 <= r0.deformation <= SignificanceThreshold
    ensures !r1.matched && r1.deformation == 0.0
    ensures DeformationStats([r0, r1]) == Stats(Some(r0.deformation), Some(r0.deformation), 0, 1)
  {
    var p0, p1 := Point(0.0, 0.0, 0.0), Point(10.0, 0.0, 0.0);
    var cloud := [Point(0.0, 0.0, 0.05), Point(10.0, 0.0, 5.0)];
    BelowRadiusBySquares(dist, p0, cloud[0], MaxDistance);
    BelowRadiusBySquares(dist, p0, cloud[0], SignificanceThreshold);
    BelowRadiusBySquares(dist, p0, cloud[1], MaxDistance);
    BelowRadiusBySquares(dist, p1, cloud[0], MaxDistance);
    BelowRadiusBySquares(dist, p1, cloud[1], MaxDistance);
    assert InRange(dist, p0, cloud[0]);
    assert !InRange(dist, p0, cloud[1]);
    assert !InRange(dist, p1, cloud[0]) && !InRange(dist, p1, cloud[1]);
    var k :| IsNearest(dist, p0, cloud, k) && r0.deformation == dist(p0, cloud[k]);
    assert k == 0;
    var values := [r0.deformation];
    assert MatchedValues([r0, r1]) == values;
    assert MaxOf(values) == Some(r0.deformation);
    assert Sum(values) == r0.deformation by {
      assert values[..0] == [];
    }
    assert Mean(values) == Some(r0.deformation);
    assert CountSignificant(values) == 0;
  }

  /** Matching is directional: a cloud can be fully matched against a second
      cloud while the second is not fully matched against the first. */
  lemma MatchingIsDirectional(dist: (Point, Point) -> real, forward: Deformation, backward: Deformation)
    requires IsEuclidean(dist)
    requires var origin, far := Point(0.0, 0.0, 0.0), Point(10.0, 0.0, 0.0);
      && Describes(dist, forward, origin, [origin, far])
      && Describes(dist, backward, far, [origin])
    ensures forward.matched && forward.deformation == 0.0
    ensures !backward.matched
  {
    var origin, far := Point(0.0, 0.0, 0.0), Point(10.0, 0.0, 0.0);
    PresentPointHasZeroDeformation(dist, forward, origin, [origin, far]);
    BelowRadiusBySquares(dist, far, origin, MaxDistance);
  }
}
