/**
 * Rays and hit records (src/math/mod.rs). A ray's direction and a hit's
 * normal are `Norm3` values, so both carry the unit check of `Norm3::new`
 * by their type.
 */
module Rays {
  import opened RealSqrt
  import opened Options
  import opened Vectors

  datatype Ray = Ray(origin: Vec3, dir: Norm3) {

    /** The point at parameter `t`: `origin + t * &dir`. */
    function Walk(t: real): Vec3 {
      origin.Add(ScalarTimesNorm(t, dir))
    }

    /**
     * `distance_to` as written: it projects with `origin.dot(d)` and divides
     * by `|d|` once, so it does not use the direction at all (see
     * `DistanceToIgnoresDirection` and `DistanceToMissesPointOnRay`).
     * Division by `|d|` is why `p` must differ from the origin.
     */
    function DistanceTo(p: Vec3, sqrt: real -> real): (r: real)
      requires IsSqrt(sqrt) && p != origin
      ensures 0.0 <= r
    {
      var d := p.Sub(origin);
      SubZeroIff(p, origin);
      LengthPositiveIff(d, sqrt);
      var comparePoint := origin.Add(Projection(origin, d, d.Length(sqrt)));
      comparePoint.Sub(p).Length(sqrt)
    }
  }

  /** The projection term of `distance_to`: `origin.dot(d) * d / len`. */
  function Projection(origin: Vec3, d: Vec3, len: real): Vec3
    requires len != 0.0
  {
    ScalarTimes(origin.Dot(d), d).DivBy(len)
  }

  /** The vector algebra of `distance_to` when the origin is the world origin. */
  lemma FromWorldOrigin(o: Vec3, p: Vec3)
    requires o == Zero()
    ensures o.Add(Zero()).Sub(p).LengthSqr() == p.LengthSqr()
  {
    assert o.Add(Zero()).Sub(p) == p.Neg();
    NegKeepsLengthSqr(p);
  }

  /** Seen from the world origin the projection vanishes. */
  lemma ProjectionFromWorldOrigin(d: Vec3, len: real)
    requires len != 0.0
    ensures Projection(Zero(), d, len) == Zero()
  {
  }

  /** What an intersection reports: where, the surface normal there, how far along the ray, and whether the ray started inside. */
  datatype Hit = Hit(hitpoint: Vec3, normal: Norm3, pointOnRay: real, inside: bool)

  /** True when the direction has squared length exactly one, not just within the check. */
  predicate UnitDirection(ray: Ray) {
    ray.dir.Into().LengthSqr() == 1.0
  }

  /**
   * The perpendicular distance from `p` to the line of the ray, the value
   * `distance_to` is meant to compute: the distance from `p` to the foot
   * `Walk(k)`, where `k` is the projection of `p - origin` on the direction.
   * It is the distance to the line when the direction has length exactly one
   * (`UnitDirection`), the case its lemmas are stated for.
   */
  function PerpendicularDistance(ray: Ray, p: Vec3, sqrt: real -> real): (r: real)
    requires IsSqrt(sqrt)
    ensures 0.0 <= r
  {
    var k := p.Sub(ray.origin).Dot(ray.dir.Into());
    ray.Walk(k).Sub(p).Length(sqrt)
  }

  // ---------------------------------------------------------------- Walk

  /** `Walk(t) - origin` is the direction scaled by `t`, so `Walk` is affine in `t`. */
  lemma WalkIsAffine(ray: Ray, s: real, t: real)
    ensures ray.Walk(0.0) == ray.origin
    ensures ray.Walk(t).Sub(ray.origin) == ray.dir.Scale(t)
    ensures ray.Walk(s + t) == ray.Walk(s).Add(ray.dir.Scale(t))
  {
  }

  /** Along a direction of length one, `Walk(t)` lies at distance `|t|` from the origin. */
  lemma WalkDistance(ray: Ray, t: real)
    requires UnitDirection(ray)
    ensures ray.Walk(t).Sub(ray.origin).LengthSqr() == t * t
  {
    var n := ray.dir.Into();
    assert ray.Walk(t).Sub(ray.origin) == n.Scale(t);
    ScaledLengthSqr(n, t);
  }

  lemma ScaledLengthSqr(v: Vec3, t: real)
    ensures v.Scale(t).LengthSqr() == t * t * v.LengthSqr()
  {
  }

  /** `|k n - d|^2` expanded. */
  lemma OffsetLengthSqr(n: Vec3, d: Vec3, k: real)
    ensures n.Scale(k).Sub(d).LengthSqr() == k * k * n.LengthSqr() - 2.0 * k * d.Dot(n) + d.LengthSqr()
  {
  }

  // ---------------------------------------------------------------- distance_to

  /** `distance_to` gives the same value whatever the ray's direction. */
  lemma DistanceToIgnoresDirection(o: Vec3, d1: Norm3, d2: Norm3, p: Vec3, sqrt: real -> real)
    requires IsSqrt(sqrt) && p != o
    ensures Ray(o, d1).DistanceTo(p, sqrt) == Ray(o, d2).DistanceTo(p, sqrt)
  {
  }

  /** From the world origin, `distance_to` is just the distance to the origin. */
  lemma DistanceToFromWorldOrigin(ray: Ray, p: Vec3, sqrt: real -> real)
    requires IsSqrt(sqrt) && ray.origin == Zero() && p != Zero()
    ensures ray.DistanceTo(p, sqrt) == p.Length(sqrt)
  {
    var d := p.Sub(ray.origin);
    SubZeroIff(p, ray.origin);
    LengthPositiveIff(d, sqrt);
    ProjectionFromWorldOrigin(d, d.Length(sqrt));
    FromWorldOrigin(ray.origin, p);
  }

  /**
   * The offset `distance_to` measures, for any projection factor `a`: the
   * start plus `a * d / len`, minus `p = origin + d`, is `d` scaled by
   * `a / len - 1`.
   */
  lemma CompareOffset(o: Vec3, p: Vec3, a: real, len: real)
    requires len != 0.0
    ensures o.Add(ScalarTimes(a, p.Sub(o)).DivBy(len)).Sub(p) == p.Sub(o).Scale(a / len - 1.0)
  {
    var d := p.Sub(o);
    ProjectionOffset(o.x, p.x, d.x, a, len);
    ProjectionOffset(o.y, p.y, d.y, a, len);
    ProjectionOffset(o.z, p.z, d.z, a, len);
  }

  /**
   * What `distance_to` computes for every input: with `d = p - origin`,
   * the square of its result is `(origin.dot(d) - |d|)^2`, so it is
   * `|origin.dot(d) - |d||`. Only `origin` and `p` enter it.
   */
  lemma DistanceToSquared(ray: Ray, p: Vec3, sqrt: real -> real)
    requires IsSqrt(sqrt) && p != ray.origin
    ensures var d := p.Sub(ray.origin);
            ray.DistanceTo(p, sqrt) * ray.DistanceTo(p, sqrt)
            == (ray.origin.Dot(d) - d.Length(sqrt)) * (ray.origin.Dot(d) - d.Length(sqrt))
  {
    var o := ray.origin;
    var d := p.Sub(o);
    SubZeroIff(p, o);
    LengthPositiveIff(d, sqrt);
    var len := d.Length(sqrt);
    var c := o.Dot(d) / len - 1.0;
    CompareOffset(o, p, o.Dot(d), len);
    ScaledLengthSqr(d, c);
    QuotientSquare(o.Dot(d), len, d.LengthSqr());
  }

  /**
   * The discrepancy: for the ray from the world origin along +x, the point
   * `(2, 0, 0)` lies on the ray, yet `distance_to` reports 2 where the
   * perpendicular distance is 0.
   */
  lemma DistanceToMissesPointOnRay(ray: Ray, sqrt: real -> real)
    requires IsSqrt(sqrt)
    requires ray.origin == Zero() && ray.dir.Into() == Vec3(1.0, 0.0, 0.0)
    ensures ray.Walk(2.0) == Vec3(2.0, 0.0, 0.0)
    ensures ray.DistanceTo(Vec3(2.0, 0.0, 0.0), sqrt) == 2.0
    ensures PerpendicularDistance(ray, Vec3(2.0, 0.0, 0.0), sqrt) == 0.0
  {
    var p := Vec3(2.0, 0.0, 0.0);
    AlongX(ray);
    AlongXProjection(ray);
    AlongXOffset(ray);
    DistanceToFromWorldOrigin(ray, p, sqrt);
    AxisLength(sqrt, 2.0);
    AxisLength(sqrt, 0.0);
  }

  /** The vector algebra of the counterexample. */
  lemma AlongX(ray: Ray)
    requires ray.origin == Zero() && ray.dir.Into() == Vec3(1.0, 0.0, 0.0)
    ensures ray.Walk(2.0) == Vec3(2.0, 0.0, 0.0)
  {
  }

  lemma AlongXProjection(ray: Ray)
    requires ray.origin == Zero() && ray.dir.Into() == Vec3(1.0, 0.0, 0.0)
    ensures Vec3(2.0, 0.0, 0.0).Sub(ray.origin).Dot(ray.dir.Into()) == 2.0
  {
  }

  lemma AlongXOffset(ray: Ray)
    requires ray.origin == Zero() && ray.dir.Into() == Vec3(1.0, 0.0, 0.0)
    ensures Vec3(2.0, 0.0, 0.0) != Zero()
    ensures ray.Walk(2.0).Sub(Vec3(2.0, 0.0, 0.0)) == Vec3(0.0, 0.0, 0.0)
  {
  }

  /** A vector along one axis has the length of its non-zero component. */
  lemma AxisLength(sqrt: real -> real, a: real)
    requires IsSqrt(sqrt) && 0.0 <= a
    ensures Vec3(a, 0.0, 0.0).Length(sqrt) == a
    ensures Vec3(-a, 0.0, 0.0).Length(sqrt) == a
  {
    assert Vec3(a, 0.0, 0.0).LengthSqr() == a * a;
    assert Vec3(-a, 0.0, 0.0).LengthSqr() == a * a;
    SqrtOfSquare(sqrt, a);
  }

  /**
   * The corrected distance: the foot `Walk(k)` is the closest point of the
   * line, so the offset is orthogonal to the direction and, by Pythagoras,
   * the squared distance plus `k^2` is `|p - origin|^2`.
   */
  lemma PerpendicularDistanceIsOrthogonal(ray: Ray, p: Vec3, sqrt: real -> real)
    requires IsSqrt(sqrt) && UnitDirection(ray)
    ensures var k := p.Sub(ray.origin).Dot(ray.dir.Into());
            && ray.Walk(k).Sub(p).Dot(ray.dir.Into()) == 0.0
            && PerpendicularDistance(ray, p, sqrt) * PerpendicularDistance(ray, p, sqrt) + k * k
               == p.Sub(ray.origin).LengthSqr()
  {
    var n := ray.dir.Into();
    var d := p.Sub(ray.origin);
    var k := d.Dot(n);
    var w := ray.Walk(k).Sub(p);
    assert w == n.Scale(k).Sub(d);
    assert w.Dot(n) == k * n.LengthSqr() - d.Dot(n);
    OffsetLengthSqr(n, d, k);
    assert w.LengthSqr() == k * k - 2.0 * k * k + d.LengthSqr();
  }

  /** Every point of the ray is at perpendicular distance zero. */
  lemma PerpendicularDistanceOnRay(ray: Ray, t: real, sqrt: real -> real)
    requires IsSqrt(sqrt) && UnitDirection(ray)
    ensures PerpendicularDistance(ray, ray.Walk(t), sqrt) == 0.0
  {
    var n := ray.dir.Into();
    var d := ray.Walk(t).Sub(ray.origin);
    assert d == n.Scale(t);
    assert d.Dot(n) == t * n.LengthSqr();
    assert ray.Walk(d.Dot(n)) == ray.Walk(t);
    SubUndoesAdd(ray.Walk(t), ray.Walk(t));
    SqrtOfSquare(sqrt, 0.0);
  }
}
