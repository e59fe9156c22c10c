/** Values shared by every part of the model. */
module Wrappers {

  /** `None` stands for a value JavaScript would report as non-finite
      (`-Infinity` from an empty `Math.max`, `NaN` from `0 / 0`). */
  datatype Option<+T> = None | Some(value: T)
}

/** Points of a cloud and the Euclidean distance between them. */
module Geometry {

  /** A point of a cloud. Only its coordinates take part in matching and layout. */
  datatype Point = Point(x: real, y: real, z: real)

  /** The squared Euclidean distance: the argument of `Math.sqrt` in the matcher. */
  function SqDist(p: Point, q: Point): (s: real)
    ensures s >= 0.0
  {
    Square(p.x - q.x); Square(p.y - q.y); Square(p.z - q.z);
    (p.x - q.x) * (p.x - q.x) + (p.y - q.y) * (p.y - q.y) + (p.z - q.z) * (p.z - q.z)
  }

  lemma Square(a: real)
    ensures a * a >= 0.0
  {
    if a < 0.0 {
      PositiveProduct(-a, -a);
    }
  }

  lemma PositiveProduct(a: real, b: real)
    requires a > 0.0 && b > 0.0
    ensures a * b > 0.0
  {
  }

  /** `dist` is what the matcher computes with `Math.sqrt`: the non-negative
      square root of the squared distance, which is exactly 0 for a point
      and itself. */
  ghost predicate IsEuclidean(dist: (Point, Point) -> real) {
    && (forall p, q :: 0.0 <= dist(p, q) && dist(p, q) * dist(p, q) == SqDist(p, q))
    && (forall p :: dist(p, p) == 0.0)
  }

  /** Since the square root is monotone, a distance is below a radius exactly
      when the squared distance is below the squared radius. */
  lemma BelowRadiusBySquares(dist: (Point, Point) -> real, p: Point, q: Point, radius: real)
    requires IsEuclidean(dist) && radius >= 0.0
    ensures dist(p, q) < radius <==> SqDist(p, q) < radius * radius
  {
    var d := dist(p, q);
    assert 0.0 <= d && d * d == SqDist(p, q);
    if d < radius {
      assert radius * radius - d * d == (radius - d) * (radius + d);
      PositiveProduct(radius - d, radius + d);
    } else if d > radius {
      assert d * d - radius * radius == (d - radius) * (d + radius);
      PositiveProduct(d - radius, d + radius);
    }
  }
}
