/** The intersection predicate `interseca_cubo` of INX.py: the trajectory end
    point of a drill hole, and the hit decision against one cube centre. */
module Drilling {
  import opened Geometry

  datatype Option<T> = None | Some(value: T)

  /** `radio_cubo`: half the edge of a 5x5x5 cube. */
  const CubeRadius: real := 2.5

  /** The floating-point trigonometry the predicate calls (`np.sin`, `np.cos`)
      and the constant behind `np.radians`, given as parameters. */
  datatype Trig = Trig(sin: real -> real, cos: real -> real, pi: real)

  /** The trigonometric functions obey sin^2 + cos^2 = 1. */
  ghost predicate PythagoreanIdentity(t: Trig) {
    forall a: real :: t.sin(a) * t.sin(a) + t.cos(a) * t.cos(a) == 1.0
  }

  /** `np.radians`: zero degrees is zero radians and a half turn is `pi`. */
  function Radians(t: Trig, degrees: real): (r: real)
    ensures degrees == 0.0 ==> r == 0.0
    ensures degrees == 180.0 ==> r == t.pi
  {
    degrees * t.pi / 180.0
  }

  /** The direction of the hole: azimuth clockwise from the Y axis, dip from
      the horizontal. A level hole points along its azimuth in the horizontal
      plane, and a level hole with azimuth zero points along the Y axis. */
  function Direction(t: Trig, azimuth: real, dip: real): (d: Point3)
    ensures dip == 0.0 && t.sin(0.0) == 0.0 && t.cos(0.0) == 1.0 ==>
              d == Point3(t.sin(Radians(t, azimuth)), t.cos(Radians(t, azimuth)), 0.0)
    ensures azimuth == 0.0 && dip == 0.0 && t.sin(0.0) == 0.0 && t.cos(0.0) == 1.0 ==>
              d == Point3(0.0, 1.0, 0.0)
  {
    var az, dp := Radians(t, azimuth), Radians(t, dip);
    Point3(t.sin(az) * t.cos(dp), t.cos(az) * t.cos(dp), t.sin(dp))
  }

  /** `punto_final`: the collar moved `depth` along `direction`. A hole of
      depth zero, or one without direction, ends at its collar. */
  function EndPoint(collar: Point3, direction: Point3, depth: real): (e: Point3)
    ensures depth == 0.0 || direction == Origin ==> e == collar
  {
    Point3(collar.x + direction.x * depth,
           collar.y + direction.y * depth,
           collar.z + direction.z * depth)
  }

  /** The pair `(interseca, punto_final)` the predicate returns; `None` stands
      for Python's `None`. */
  datatype Verdict = Verdict(hit: bool, endPoint: Option<Point3>)

  /** `interseca_cubo(coordenadas_taladro, azimut, dip, profundidad, cubo)`.
      The end point is computed, but the decision compares the distance from
      the collar (not from the end point) to the cube centre with
      `CubeRadius`, boundary included; `distancia <= radio_cubo` is decided on
      squares. */
  function Intersects(t: Trig, collar: Point3, azimuth: real, dip: real, depth: real,
                      center: Point3): (v: Verdict)
    ensures v.endPoint.Some? <==> v.hit
  {
    var endPoint := EndPoint(collar, Direction(t, azimuth, dip), depth);
    if SquaredDistance(collar, center) <= CubeRadius * CubeRadius then
      Verdict(true, Some(endPoint))
    else
      Verdict(false, None)
  }

  /** A hit exactly when `distancia_3d(collar, center) <= 2.5`. */
  lemma HitIffCollarWithinRadius(t: Trig, collar: Point3, azimuth: real, dip: real,
                                 depth: real, center: Point3, distance: real)
    requires IsDistance(distance, collar, center)
    ensures Intersects(t, collar, azimuth, dip, depth, center).hit <==> distance <= CubeRadius
  {
    WithinRadiusBySquares(distance, collar, center, CubeRadius);
  }

  /** The boundary is inclusive: a collar exactly 2.5 from the centre is a hit,
      and one any amount further away is a miss. */
  lemma RadiusBoundary(t: Trig, collar: Point3, azimuth: real, dip: real, depth: real,
                       center: Point3, excess: real)
    requires excess > 0.0
    ensures IsDistance(CubeRadius, collar, center) ==>
              Intersects(t, collar, azimuth, dip, depth, center).hit
    ensures IsDistance(CubeRadius + excess, collar, center) ==>
              !Intersects(t, collar, azimuth, dip, depth, center).hit
  {
    if IsDistance(CubeRadius + excess, collar, center) {
      HitIffCollarWithinRadius(t, collar, azimuth, dip, depth, center, CubeRadius + excess);
    }
  }

  /** The decision depends on the collar and the cube centre only: neither the
      angles, the depth nor the trigonometry change it. */
  lemma HitIgnoresTrajectory(t1: Trig, t2: Trig, collar: Point3, center: Point3,
                             azimuth1: real, dip1: real, depth1: real,
                             azimuth2: real, dip2: real, depth2: real)
    ensures Intersects(t1, collar, azimuth1, dip1, depth1, center).hit
         == Intersects(t2, collar, azimuth2, dip2, depth2, center).hit
  {
  }

  /** On a hit the returned point is the collar moved `depth` along the
      direction of the hole, whichever cube was tested. */
  lemma HitEndPoint(t: Trig, collar: Point3, azimuth: real, dip: real, depth: real,
                    center: Point3)
    requires Intersects(t, collar, azimuth, dip, depth, center).hit
    ensures Intersects(t, collar, azimuth, dip, depth, center).endPoint
         == Some(EndPoint(collar, Direction(t, azimuth, dip), depth))
  {
  }

  /** Two cubes hit by the same hole yield the same end point. */
  lemma EndPointIgnoresCube(t: Trig, collar: Point3, azimuth: real, dip: real, depth: real,
                            center1: Point3, center2: Point3)
    ensures Intersects(t, collar, azimuth, dip, depth, center1).hit &&
            Intersects(t, collar, azimuth, dip, depth, center2).hit ==>
              Intersects(t, collar, azimuth, dip, depth, center1).endPoint
              == Intersects(t, collar, azimuth, dip, depth, center2).endPoint
  {
  }

  /** A miss is `(False, None)`. */
  lemma MissIsEmpty(t: Trig, collar: Point3, azimuth: real, dip: real, depth: real,
                    center: Point3)
    requires !Intersects(t, collar, azimuth, dip, depth, center).hit
    ensures Intersects(t, collar, azimuth, dip, depth, center) == Verdict(false, None)
  {
  }

  /** Moving `depth` along `direction` covers `depth` times the length of the
      direction, on squares. */
  lemma EndPointOffset(collar: Point3, direction: Point3, depth: real)
    ensures SquaredDistance(collar, EndPoint(collar, direction, depth))
         == depth * depth * SquaredDistance(Origin, direction)
  {
    var e := EndPoint(collar, direction, depth);
    var u, v, w := direction.x, direction.y, direction.z;
    calc {
      SquaredDistance(collar, e);
      == (collar.x - e.x) * (collar.x - e.x) + (collar.y - e.y) * (collar.y - e.y)
         + (collar.z - e.z) * (collar.z - e.z);
      == { CoordinateOffset(collar.x, u, depth);
           CoordinateOffset(collar.y, v, depth);
           CoordinateOffset(collar.z, w, depth); }
         depth * depth * ((0.0 - u) * (0.0 - u))
         + depth * depth * ((0.0 - v) * (0.0 - v))
         + depth * depth * ((0.0 - w) * (0.0 - w));
      == { Distribute3(depth * depth, (0.0 - u) * (0.0 - u), (0.0 - v) * (0.0 - v), (0.0 - w) * (0.0 - w)); }
         depth * depth * ((0.0 - u) * (0.0 - u) + (0.0 - v) * (0.0 - v) + (0.0 - w) * (0.0 - w));
      == depth * depth * SquaredDistance(Origin, direction);
    }
  }

  lemma Distribute3(k: real, a: real, b: real, c: real)
    ensures k * a + k * b + k * c == k * (a + b + c)
  {
  }

  lemma CoordinateOffset(c: real, u: real, depth: real)
    ensures (c - (c + u * depth)) * (c - (c + u * depth)) == depth * depth * ((0.0 - u) * (0.0 - u))
  {
  }

  /** With exact trigonometry the direction of the hole is a unit vector. */
  lemma DirectionIsUnit(t: Trig, azimuth: real, dip: real)
    requires PythagoreanIdentity(t)
    ensures SquaredDistance(Origin, Direction(t, azimuth, dip)) == 1.0
  {
    var az, dp := Radians(t, azimuth), Radians(t, dip);
    var sa, ca, sd, cd := t.sin(az), t.cos(az), t.sin(dp), t.cos(dp);
    calc {
      SquaredDistance(Origin, Direction(t, azimuth, dip));
      == (0.0 - sa * cd) * (0.0 - sa * cd) + (0.0 - ca * cd) * (0.0 - ca * cd)
         + (0.0 - sd) * (0.0 - sd);
      == (sa * sa + ca * ca) * (cd * cd) + sd * sd;
      == { assert sa * sa + ca * ca == 1.0; }
         1.0 * (cd * cd) + sd * sd;
      == cd * cd + sd * sd;
      == { assert sd * sd + cd * cd == 1.0; }
         1.0;
    }
  }

  /** With exact trigonometry and a non-negative depth, the end point (the one
      a hit returns, by `HitEndPoint`) lies exactly `depth` away from the
      collar. */
  lemma EndPointAtDepth(t: Trig, collar: Point3, azimuth: real, dip: real, depth: real)
    requires PythagoreanIdentity(t)
    requires depth >= 0.0
    ensures IsDistance(depth, collar, EndPoint(collar, Direction(t, azimuth, dip), depth))
  {
    var direction := Direction(t, azimuth, dip);
    calc {
      SquaredDistance(collar, EndPoint(collar, direction, depth));
      == { EndPointOffset(collar, direction, depth); }
         depth * depth * SquaredDistance(Origin, direction);
      == { DirectionIsUnit(t, azimuth, dip); }
         depth * depth * 1.0;
      == depth * depth;
    }
  }

  /** A hole whose collar is the cube centre, drilled due north and level, hits
      the cube and ends `depth` along the Y axis. */
  lemma CentredLevelHole(t: Trig)
    requires t.sin(0.0) == 0.0 && t.cos(0.0) == 1.0
    ensures Intersects(t, Origin, 0.0, 0.0, 100.0, Origin)
         == Verdict(true, Some(Point3(0.0, 100.0, 0.0)))
  {
    LevelNorthEnd();
  }

  /** Drilling 100 along the Y axis from the origin ends at (0, 100, 0). */
  lemma LevelNorthEnd()
    ensures EndPoint(Origin, Point3(0.0, 1.0, 0.0), 100.0) == Point3(0.0, 100.0, 0.0)
  {
  }

  /** The same hole misses a cube centred at (10, 10, 10), whatever its
      direction. */
  lemma DistantCube(t: Trig)
    ensures Intersects(t, Origin, 0.0, 0.0, 100.0, Point3(10.0, 10.0, 10.0)) == Verdict(false, None)
  {
  }
}
