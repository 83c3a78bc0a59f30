/**
 * Ray–sphere intersection (src/shapes/sphere.rs): the geometric method with
 * `tca`, the squared miss distance `d2` and the half chord `thc`.
 */
module Spheres {
  import opened RealSqrt
  import opened Options
  import opened Vectors
  import opened Rays

  datatype Sphere = Sphere(pos: Vec3, radius: real)

  /** `tca`: the ray parameter of the point closest to the centre. */
  function Tca(s: Sphere, ray: Ray): real {
    s.pos.Sub(ray.origin).Dot(ray.dir.Into())
  }

  /** `d2`: the squared distance from the centre to the ray's line (for a unit direction). */
  function D2(s: Sphere, ray: Ray): real {
    var l := s.pos.Sub(ray.origin);
    l.Dot(l) - Tca(s, ray) * Tca(s, ray)
  }

  /** `radius2`, the squared radius. */
  function Radius2(s: Sphere): real {
    s.radius * s.radius
  }

  /** `p` lies on the sphere's surface. */
  predicate OnSurface(s: Sphere, p: Vec3) {
    p.Sub(s.pos).LengthSqr() == Radius2(s)
  }

  /**
   * The ray parameter `intersect` chooses, lines 15-44, from `tca`, `d2` and
   * the squared radius.
   */
  function Root(s: Sphere, ray: Ray, sqrt: real -> real): (r: Option<real>)
    requires IsSqrt(sqrt)
    ensures r.None? <==> Tca(s, ray) < 0.0 || D2(s, ray) > Radius2(s)
    ensures r.Some? ==> 0.0 <= r.value
  {
    RootFrom(Tca(s, ray), D2(s, ray), Radius2(s), sqrt)
  }

  /**
   * No hit when the centre is behind the origin or the line passes outside;
   * otherwise the smaller root `t0 = tca - thc`, or `t1 = tca + thc` when `t0`
   * is negative. The swap and the second negative test are kept although over
   * the reals neither can fire (`RootChoice`).
   */
  function RootFrom(tca: real, d2: real, radius2: real, sqrt: real -> real): (r: Option<real>)
    requires IsSqrt(sqrt)
    ensures r.None? <==> tca < 0.0 || d2 > radius2
    ensures r.Some? ==> 0.0 <= r.value
  {
    if tca < 0.0 then None
    else if d2 > radius2 then None
    else
      var thc := Sqrt(sqrt, radius2 - d2);
      var (t0, t1) := if tca - thc > tca + thc then (tca + thc, tca - thc) else (tca - thc, tca + thc);
      if t0 < 0.0 then
        if t1 < 0.0 then None else Some(t1)
      else
        Some(t0)
  }

  /** The normal can be built: there is no hit, or the hit point is not the centre. */
  predicate NormalDefined(s: Sphere, ray: Ray, sqrt: real -> real)
    requires IsSqrt(sqrt)
  {
    var r := Root(s, ray, sqrt);
    r.None? || ray.Walk(r.value) != s.pos
  }

  /**
   * `Sphere::intersect`. The hit point is `walk(t)`, the normal is the unit
   * vector from the centre to it, and `inside` is never set. `normalized`
   * aborts on the zero vector, which `NormalDefined` excludes.
   */
  function Intersect(s: Sphere, ray: Ray, sqrt: real -> real): (h: Option<Hit>)
    requires IsSqrt(sqrt) && NormalDefined(s, ray, sqrt)
    ensures h.None? <==> Root(s, ray, sqrt).None?
    ensures h.Some? ==> h.value.pointOnRay == Root(s, ray, sqrt).value
    ensures h.Some? ==> h.value.hitpoint == ray.Walk(h.value.pointOnRay) && !h.value.inside
    ensures h.Some? ==> h.value.normal.Into().LengthSqr() == 1.0
    ensures h.Some? ==> h.value.normal.Into().Scale(h.value.hitpoint.Sub(s.pos).Length(sqrt))
                        == h.value.hitpoint.Sub(s.pos)
  {
    match Root(s, ray, sqrt)
    case None => None
    case Some(t) =>
      var hitpoint := ray.Walk(t);
      var outward := hitpoint.Sub(s.pos);
      SubZeroIff(hitpoint, s.pos);
      LengthPositiveIff(outward, sqrt);
      Some(Hit(hitpoint, outward.Normalized(sqrt), t, false))
  }

  // ---------------------------------------------------------------- real algebra

  /** A root of `t^2 - 2 t tca + ll = r2`, written with the half chord. */
  lemma QuadraticRoot(t: real, tca: real, thc: real, ll: real, d2: real, r2: real)
    requires d2 == ll - tca * tca && thc * thc == r2 - d2
    requires t == tca - thc || t == tca + thc
    ensures t * t - 2.0 * t * tca + ll == r2
  {
  }

  /** Conversely every root is `tca - thc` or `tca + thc`. */
  lemma QuadraticRootsAreChordEnds(u: real, tca: real, thc: real, ll: real, d2: real, r2: real)
    requires d2 == ll - tca * tca && 0.0 <= thc && thc * thc == r2 - d2
    requires u * u - 2.0 * u * tca + ll == r2
    ensures u == tca - thc || u == tca + thc
  {
    assert (u - tca) * (u - tca) == thc * thc;
    assert (u - tca - thc) * (u - tca + thc) == 0.0;
    ZeroProduct(u - tca - thc, u - tca + thc);
  }

  /** A real root exists only when the line passes within the radius. */
  lemma RootNeedsCloseLine(u: real, tca: real, ll: real, d2: real, r2: real)
    requires d2 == ll - tca * tca
    requires u * u - 2.0 * u * tca + ll == r2
    ensures d2 <= r2
  {
    SquareNonNegative(u - tca);
    assert (u - tca) * (u - tca) == r2 - d2;
  }

  // ---------------------------------------------------------------- vector algebra

  /** `walk(t) - pos` is `t dir - l`. */
  lemma WalkOffset(s: Sphere, ray: Ray, t: real)
    ensures ray.Walk(t).Sub(s.pos) == ray.dir.Into().Scale(t).Sub(s.pos.Sub(ray.origin))
  {
  }

  /** The squared distance from the centre of `walk(t)`, as a quadratic in `t`. */
  lemma WalkDistanceFromCentre(s: Sphere, ray: Ray, t: real)
    requires UnitDirection(ray)
    ensures var l := s.pos.Sub(ray.origin);
            ray.Walk(t).Sub(s.pos).LengthSqr() == t * t - 2.0 * t * Tca(s, ray) + l.Dot(l)
  {
    var n := ray.dir.Into();
    var l := s.pos.Sub(ray.origin);
    WalkOffset(s, ray, t);
    OffsetLengthSqr(n, l, t);
    assert l.Dot(n) == Tca(s, ray);
  }

  // ---------------------------------------------------------------- properties

  /**
   * Over the reals `thc = sqrt(radius^2 - d2) >= 0`, so the swap never fires
   * and `t0 <= t1`; the result is `t0` unless that is negative, then `t1`.
   */
  lemma RootChoice(tca: real, d2: real, radius2: real, sqrt: real -> real)
    requires IsSqrt(sqrt) && RootFrom(tca, d2, radius2, sqrt).Some?
    ensures var thc := Sqrt(sqrt, radius2 - d2);
            && 0.0 <= thc && thc * thc == radius2 - d2
            && tca - thc <= tca + thc
            && RootFrom(tca, d2, radius2, sqrt).value == (if tca - thc < 0.0 then tca + thc else tca - thc)
  {
    assert IsRootOf(Sqrt(sqrt, radius2 - d2), radius2 - d2);
  }

  /** Along a unit direction the chosen point lies on the sphere. */
  lemma RootOnSurface(s: Sphere, ray: Ray, sqrt: real -> real)
    requires IsSqrt(sqrt) && UnitDirection(ray) && Root(s, ray, sqrt).Some?
    ensures OnSurface(s, ray.Walk(Root(s, ray, sqrt).value))
  {
    var l := s.pos.Sub(ray.origin);
    var tca, d2, r2, ll := Tca(s, ray), D2(s, ray), Radius2(s), l.Dot(l);
    var t := Root(s, ray, sqrt).value;
    assert Root(s, ray, sqrt) == RootFrom(tca, d2, r2, sqrt);
    RootChoice(tca, d2, r2, sqrt);
    QuadraticRoot(t, tca, Sqrt(sqrt, r2 - d2), ll, d2, r2);
    WalkDistanceFromCentre(s, ray, t);
  }

  /**
   * When the centre is not behind the origin, the chosen point is the nearest
   * surface point ahead of the origin: any `u >= 0` on the surface makes the
   * result `Some` and is no nearer than it.
   */
  lemma RootIsNearest(s: Sphere, ray: Ray, sqrt: real -> real, u: real)
    requires IsSqrt(sqrt) && UnitDirection(ray)
    requires 0.0 <= Tca(s, ray) && 0.0 <= u && OnSurface(s, ray.Walk(u))
    ensures Root(s, ray, sqrt).Some? && Root(s, ray, sqrt).value <= u
  {
    var l := s.pos.Sub(ray.origin);
    var tca, d2, r2, ll := Tca(s, ray), D2(s, ray), Radius2(s), l.Dot(l);
    WalkDistanceFromCentre(s, ray, u);
    assert Root(s, ray, sqrt) == RootFrom(tca, d2, r2, sqrt);
    RootFromNearest(tca, ll, d2, r2, sqrt, u);
  }

  /** `RootIsNearest` over the reals: `u` solves `u^2 - 2 u tca + ll == r2`. */
  lemma RootFromNearest(tca: real, ll: real, d2: real, r2: real, sqrt: real -> real, u: real)
    requires IsSqrt(sqrt) && d2 == ll - tca * tca && 0.0 <= tca && 0.0 <= u
    requires u * u - 2.0 * u * tca + ll == r2
    ensures RootFrom(tca, d2, r2, sqrt).Some? && RootFrom(tca, d2, r2, sqrt).value <= u
  {
    RootNeedsCloseLine(u, tca, ll, d2, r2);
    RootChoice(tca, d2, r2, sqrt);
    QuadraticRootsAreChordEnds(u, tca, Sqrt(sqrt, r2 - d2), ll, d2, r2);
  }

  /** With a unit direction and a non-zero radius the normal is always defined. */
  lemma UnitDirNormalDefined(s: Sphere, ray: Ray, sqrt: real -> real)
    requires IsSqrt(sqrt) && UnitDirection(ray) && s.radius != 0.0
    ensures NormalDefined(s, ray, sqrt)
  {
    if Root(s, ray, sqrt).Some? {
      var p := ray.Walk(Root(s, ray, sqrt).value);
      RootOnSurface(s, ray, sqrt);
      SquarePositive(s.radius, Radius2(s));
      LengthSqrZeroIff(p.Sub(s.pos));
      SubZeroIff(p, s.pos);
    }
  }

  /** Moving sphere and ray by the same offset changes neither `tca` nor `d2`, so not the root. */
  lemma TranslationInvariant(s: Sphere, ray: Ray, c: Vec3, sqrt: real -> real)
    requires IsSqrt(sqrt)
    ensures Root(Sphere(s.pos.Sub(c), s.radius), Ray(ray.origin.Sub(c), ray.dir), sqrt)
            == Root(s, ray, sqrt)
  {
    var s', ray' := Sphere(s.pos.Sub(c), s.radius), Ray(ray.origin.Sub(c), ray.dir);
    TranslatedTcaAndD2(s, ray, c);
    assert Root(s', ray', sqrt) == RootFrom(Tca(s', ray'), D2(s', ray'), Radius2(s'), sqrt);
    RootFromCongruent(Tca(s', ray'), D2(s', ray'), Radius2(s'), Tca(s, ray), D2(s, ray), Radius2(s), sqrt);
  }

  lemma TranslatedTcaAndD2(s: Sphere, ray: Ray, c: Vec3)
    ensures Tca(Sphere(s.pos.Sub(c), s.radius), Ray(ray.origin.Sub(c), ray.dir)) == Tca(s, ray)
    ensures D2(Sphere(s.pos.Sub(c), s.radius), Ray(ray.origin.Sub(c), ray.dir)) == D2(s, ray)
    ensures Radius2(Sphere(s.pos.Sub(c), s.radius)) == Radius2(s)
  {
    SameOffset(s.pos, ray.origin, c);
  }

  /** `RootFrom` of equal arguments is equal (stated for arguments the solver keeps apart). */
  lemma RootFromCongruent(tca1: real, d21: real, r21: real, tca2: real, d22: real, r22: real, sqrt: real -> real)
    requires IsSqrt(sqrt) && tca1 == tca2 && d21 == d22 && r21 == r22
    ensures RootFrom(tca1, d21, r21, sqrt) == RootFrom(tca2, d22, r22, sqrt)
  {
  }

  lemma SameOffset(p: Vec3, o: Vec3, c: Vec3)
    ensures p.Sub(c).Sub(o.Sub(c)) == p.Sub(o)
  {
  }

  /**
   * The origin lies inside the sphere (at distance 1 from a centre of radius 2)
   * and the ray points away from the centre: the surface is reached at `t = 1`,
   * yet `tca < 0` makes `intersect` report no hit.
   */
  lemma NoHitFromInsidePointingAway(s: Sphere, ray: Ray, sqrt: real -> real)
    requires IsSqrt(sqrt)
    requires s == Sphere(Zero(), 2.0) && ray.origin == Vec3(1.0, 0.0, 0.0)
    requires ray.dir.Into() == Vec3(1.0, 0.0, 0.0)
    ensures ray.origin.Sub(s.pos).LengthSqr() < Radius2(s)
    ensures OnSurface(s, ray.Walk(1.0))
    ensures Root(s, ray, sqrt).None?
  {
    AwayFromCentre(s, ray);
    WalkOneStep(s, ray);
    PointOnSurface(s);
    OriginInside(s, ray);
  }

  lemma OriginInside(s: Sphere, ray: Ray)
    requires s == Sphere(Zero(), 2.0) && ray.origin == Vec3(1.0, 0.0, 0.0)
    ensures ray.origin.Sub(s.pos).LengthSqr() < Radius2(s)
  {
  }

  lemma AwayFromCentre(s: Sphere, ray: Ray)
    requires s == Sphere(Zero(), 2.0) && ray.origin == Vec3(1.0, 0.0, 0.0)
    requires ray.dir.Into() == Vec3(1.0, 0.0, 0.0)
    ensures Tca(s, ray) == -1.0
  {
  }

  lemma WalkOneStep(s: Sphere, ray: Ray)
    requires s == Sphere(Zero(), 2.0) && ray.origin == Vec3(1.0, 0.0, 0.0)
    requires ray.dir.Into() == Vec3(1.0, 0.0, 0.0)
    ensures ray.Walk(1.0) == Vec3(2.0, 0.0, 0.0)
  {
  }

  lemma PointOnSurface(s: Sphere)
    requires s == Sphere(Zero(), 2.0)
    ensures OnSurface(s, Vec3(2.0, 0.0, 0.0))
  {
  }

  // ---------------------------------------------------------------- aimed at the centre

  /**
   * A unit-direction ray aimed at the centre from outside, at distance
   * `dist`, hits the near side of the sphere at `t = dist - radius`, and the
   * normal there points straight back along the ray.
   */
  lemma AimedAtCentre(s: Sphere, ray: Ray, sqrt: real -> real, dist: real)
    requires IsSqrt(sqrt) && UnitDirection(ray)
    requires ray.dir.Into().Scale(dist) == s.pos.Sub(ray.origin)
    requires 0.0 < s.radius < dist
    ensures dist == s.pos.Sub(ray.origin).Length(sqrt)
    ensures NormalDefined(s, ray, sqrt) && Intersect(s, ray, sqrt).Some?
    ensures Intersect(s, ray, sqrt).value.pointOnRay == dist - s.radius
    ensures Intersect(s, ray, sqrt).value.normal.Into() == ray.dir.Into().Neg()
  {
    var n, l := ray.dir.Into(), s.pos.Sub(ray.origin);
    ScaledLengthSqr(n, dist);
    RootUnique(l.Length(sqrt), dist);
    assert Tca(s, ray) == dist * n.LengthSqr();
    assert D2(s, ray) == 0.0;
    assert Root(s, ray, sqrt) == RootFrom(dist, 0.0, Radius2(s), sqrt);
    assert RootFrom(dist, 0.0, Radius2(s), sqrt).Some?;
    RootChoice(dist, 0.0, Radius2(s), sqrt);
    RootUnique(Sqrt(sqrt, Radius2(s) - 0.0), s.radius);
    var t := dist - s.radius;
    assert Root(s, ray, sqrt) == Some(t);
    UnitDirNormalDefined(s, ray, sqrt);
    var h := Intersect(s, ray, sqrt).value;
    WalkOffset(s, ray, t);
    assert h.hitpoint.Sub(s.pos) == n.Scale(-s.radius);
    ScaledLengthSqr(n, -s.radius);
    RootUnique(n.Scale(-s.radius).Length(sqrt), s.radius);
    BackAlong(h.normal.Into(), n, s.radius);
  }

  /** `m * r == n * (-r)` with `r` non-zero makes `m` the negation of `n`. */
  lemma BackAlong(m: Vec3, n: Vec3, r: real)
    requires r != 0.0 && m.Scale(r) == n.Scale(-r)
    ensures m == n.Neg()
  {
    assert (m.x + n.x) * r == 0.0 && (m.y + n.y) * r == 0.0 && (m.z + n.z) * r == 0.0;
    ZeroProduct(m.x + n.x, r);
    ZeroProduct(m.y + n.y, r);
    ZeroProduct(m.z + n.z, r);
  }
}
