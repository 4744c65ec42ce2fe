/** Points in space and the three-dimensional Euclidean distance of
    `distancia_3d`. The square root is not modelled: a distance is any
    non-negative real whose square is the squared distance, and every
    comparison of a distance against a radius is carried out on squares. */
module Geometry {

  datatype Point3 = Point3(x: real, y: real, z: real)

  const Origin: Point3 := Point3(0.0, 0.0, 0.0)

  /** The sum of squared coordinate differences, the radicand of `distancia_3d`. */
  function SquaredDistance(p: Point3, q: Point3): (d: real)
    ensures d >= 0.0
  {
    (p.x - q.x) * (p.x - q.x) + (p.y - q.y) * (p.y - q.y) + (p.z - q.z) * (p.z - q.z)
  }

  /** `d` is the value `distancia_3d(p, q)` returns: the non-negative square root
      of the squared distance. */
  predicate IsDistance(d: real, p: Point3, q: Point3) {
    d >= 0.0 && d * d == SquaredDistance(p, q)
  }

  lemma SquarePositive(a: real)
    ensures a * a >= 0.0
    ensures a != 0.0 ==> a * a > 0.0
  {
  }

  /** The squared distance vanishes exactly for identical points. */
  lemma SquaredDistanceZero(p: Point3, q: Point3)
    ensures SquaredDistance(p, q) > 0.0 <==> p != q
  {
    var dx, dy, dz := p.x - q.x, p.y - q.y, p.z - q.z;
    SquarePositive(dx);
    SquarePositive(dy);
    SquarePositive(dz);
    if p == q {
      calc {
        SquaredDistance(p, q);
        == 0.0 * 0.0 + 0.0 * 0.0 + 0.0 * 0.0;
        == 0.0;
      }
    } else if dx != 0.0 {
      calc {
        SquaredDistance(p, q);
        == dx * dx + (dy * dy + dz * dz);
        >= dx * dx;
        > 0.0;
      }
    } else if dy != 0.0 {
      calc {
        SquaredDistance(p, q);
        == dy * dy + (dx * dx + dz * dz);
        >= dy * dy;
        > 0.0;
      }
    } else {
      calc {
        SquaredDistance(p, q);
        == dz * dz + (dx * dx + dy * dy);
        >= dz * dz;
        > 0.0;
      }
    }
  }

  lemma SquaredDistanceSymmetric(p: Point3, q: Point3)
    ensures SquaredDistance(p, q) == SquaredDistance(q, p)
  {
    assert (p.x - q.x) * (p.x - q.x) == (q.x - p.x) * (q.x - p.x);
    assert (p.y - q.y) * (p.y - q.y) == (q.y - p.y) * (q.y - p.y);
    assert (p.z - q.z) * (p.z - q.z) == (q.z - p.z) * (q.z - p.z);
  }

  lemma ProductPositive(a: real, b: real)
    requires a > 0.0 && b > 0.0
    ensures a * b > 0.0
  {
  }

  /** Squaring is strictly monotone on the non-negative reals. */
  lemma SquareMonotone(a: real, b: real)
    requires 0.0 <= a && 0.0 <= b
    ensures a <= b <==> a * a <= b * b
  {
    var aa, ab, bb := a * a, a * b, b * b;
    if a <= b {
      assert aa <= ab <= bb;
    } else {
      ProductPositive(a, a - b);
      assert bb <= ab < aa;
    }
  }

  /** The square root is unique, so the distance is a function of the two points. */
  lemma DistanceUnique(d1: real, d2: real, p: Point3, q: Point3)
    requires IsDistance(d1, p, q) && IsDistance(d2, p, q)
    ensures d1 == d2
  {
    SquareMonotone(d1, d2);
    SquareMonotone(d2, d1);
  }

  /** `distancia_3d` is symmetric. */
  lemma DistanceSymmetric(d: real, p: Point3, q: Point3)
    requires IsDistance(d, p, q)
    ensures IsDistance(d, q, p)
  {
    SquaredDistanceSymmetric(p, q);
  }

  /** `distancia_3d` is zero exactly for identical points. */
  lemma DistanceZero(d: real, p: Point3, q: Point3)
    requires IsDistance(d, p, q)
    ensures d == 0.0 <==> p == q
  {
    SquaredDistanceZero(p, q);
    SquarePositive(d);
    if d == 0.0 {
      calc {
        SquaredDistance(p, q);
        == d * d;
        == 0.0 * 0.0;
        == 0.0;
      }
    } else {
      calc {
        SquaredDistance(p, q);
        == d * d;
        > 0.0;
      }
    }
  }

  /** Comparing a distance against a non-negative radius is the same as
      comparing the squared distance against the squared radius. */
  lemma WithinRadiusBySquares(d: real, p: Point3, q: Point3, radius: real)
    requires IsDistance(d, p, q)
    requires radius >= 0.0
    ensures d <= radius <==> SquaredDistance(p, q) <= radius * radius
  {
    SquareMonotone(d, radius);
  }
}
