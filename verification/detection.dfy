/** One deformation detection run (`performDeformationDetection`): match,
    build the deformation cloud's buffers, compute the statistics. */
module Detection {
  import opened Wrappers
  import opened Geometry
  import opened Matching
  import opened Statistics
  import opened Visualization

  method PerformDeformationDetection(points1: seq<Point>, points2: seq<Point>, dist: (Point, Point) -> real)
    returns (deformations: seq<Deformation>, positions: array<real>, hues: array<Option<real>>, stats: Stats)
    requires IsEuclidean(dist)
    ensures |deformations| == |points1|
    ensures forall i :: 0 <= i < |points1| ==> Describes(dist, deformations[i], points1[i], points2)
    ensures fresh(positions) && fresh(hues)
    ensures positions[..] == Interleave(points1)
    ensures hues.Length == |points1|
    ensures forall i :: 0 <= i < |points1| ==>
      hues[i] == DeformationHue(deformations[i].deformation, ColorScale(deformations))
    ensures stats == DeformationStats(deformations)
    ensures stats.significantCount <= stats.processedCount <= |points1|
    ensures stats.maxDeformation.Some? ==> 0.0 <= stats.maxDeformation.value < MaxDistance
    ensures points2 == [] ==> stats == Stats(None, None, 0, 0)
  {
    deformations := CalculateDeformations(points1, points2, dist);
    positions, hues := CreateDeformationVisualization(points1, deformations);
    stats := DeformationStats(deformations);
    MatcherStatsBounds(dist, deformations, points1, points2);
  }
}
