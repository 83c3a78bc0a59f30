/**
 * The infinite plane of src/shapes/plane.rs: the points `p` with
 * `p . normal == distanceToOrigin * (normal . normal)`, that is the plane
 * through `normal * distanceToOrigin` orthogonal to `normal`.
 */
module Planes {
  import opened RealSqrt
  import opened Options
  import opened Vectors
  import opened Rays

  datatype Plane = Plane(normal: Norm3, distanceToOrigin: real)

  /** `f32::abs`. */
  function Abs(x: real): (r: real)
    ensures 0.0 <= r && (r == x || r == -x)
  {
    if x < 0.0 then -x else x
  }

  /** Below this cosine the ray counts as parallel to the plane. */
  const ParallelEpsilon: real := 0.0001

  /** `normal . dir`, the denominator of the ray parameter. */
  function Denom(p: Plane, ray: Ray): real {
    p.normal.Dot(ray.dir.Into())
  }

  /** The plane's point closest to the world origin, `normal * distance_to_origin`. */
  function Center(p: Plane): Vec3 {
    p.normal.Scale(p.distanceToOrigin)
  }

  /** The ray parameter of the crossing: `(center - origin) . normal / denom`. */
  function Crossing(p: Plane, ray: Ray): real
    requires Denom(p, ray) != 0.0
  {
    Center(p).Sub(ray.origin).Dot(p.normal.Into()) / Denom(p, ray)
  }

  /** The point `q` lies on the plane. */
  predicate OnPlane(p: Plane, q: Vec3) {
    q.Dot(p.normal.Into()) == p.distanceToOrigin * p.normal.Into().LengthSqr()
  }

  /**
   * `Plane::intersect`: no hit when the ray runs (nearly) parallel to the
   * plane or when the crossing is not strictly ahead of the origin;
   * otherwise the hit at the crossing, with the plane's own normal.
   */
  function Intersect(p: Plane, ray: Ray): (h: Option<Hit>)
    ensures h.None? <==> Abs(Denom(p, ray)) <= ParallelEpsilon || Crossing(p, ray) <= 0.0
    ensures h.Some? ==> 0.0 < h.value.pointOnRay
                        && h.value.pointOnRay == Crossing(p, ray)
                        && h.value.hitpoint == ray.Walk(h.value.pointOnRay)
                        && h.value.normal == p.normal
                        && !h.value.inside
  {
    var denom := Denom(p, ray);
    if Abs(denom) > ParallelEpsilon then
      var t := Crossing(p, ray);
      if t > 0.0 then Some(Hit(ray.Walk(t), p.normal, t, false)) else None
    else
      None
  }

  /** Walking along the ray changes the height over the plane by `t * denom`. */
  lemma WalkHeight(o: Vec3, dir: Vec3, n: Vec3, t: real)
    ensures o.Add(dir.Scale(t)).Dot(n) == o.Dot(n) + t * dir.Dot(n)
  {
  }

  /** The height of the plane's centre is `distance_to_origin * (n . n)`. */
  lemma CenterHeight(n: Vec3, d: real)
    ensures n.Scale(d).Dot(n) == d * n.LengthSqr()
  {
  }

  /** `Dot` of `Sub` is the difference of the `Dot`s. */
  lemma SubDot(a: Vec3, b: Vec3, n: Vec3)
    ensures a.Sub(b).Dot(n) == a.Dot(n) - b.Dot(n)
  {
  }

  /** The ray is at height `h0 + t * denom`; it meets height `c` at `(c - h0) / denom` only. */
  lemma LinearCrossing(h0: real, c: real, denom: real, t: real)
    requires denom != 0.0
    ensures h0 + t * denom == c <==> t == (c - h0) / denom
  {
    if h0 + t * denom == c {
      assert t * denom == c - h0;
      assert t == (c - h0) / denom;
    } else {
      DivThenMul(c - h0, denom);
    }
  }

  /** The plane equation along a line, in plain vectors. */
  lemma LineMeetsPlane(o: Vec3, dir: Vec3, n: Vec3, d: real, t: real)
    requires dir.Dot(n) != 0.0
    ensures o.Add(dir.Scale(t)).Dot(n) == d * n.LengthSqr()
            <==> t == n.Scale(d).Sub(o).Dot(n) / dir.Dot(n)
  {
    WalkHeight(o, dir, n, t);
    CenterHeight(n, d);
    SubDot(n.Scale(d), o, n);
    LinearCrossing(o.Dot(n), d * n.LengthSqr(), dir.Dot(n), t);
  }

  lemma WalkAsSum(ray: Ray, t: real)
    ensures ray.Walk(t) == ray.origin.Add(ray.dir.Into().Scale(t))
  {
  }

  /** A point on the ray lies on the plane exactly at the crossing parameter. */
  lemma OnPlaneIff(p: Plane, ray: Ray, t: real)
    requires Denom(p, ray) != 0.0
    ensures OnPlane(p, ray.Walk(t)) <==> t == Crossing(p, ray)
  {
    WalkAsSum(ray, t);
    LineMeetsPlane(ray.origin, ray.dir.Into(), p.normal.Into(), p.distanceToOrigin, t);
  }

  /** Every reported hit point lies on the plane. */
  lemma HitOnPlane(p: Plane, ray: Ray)
    requires Intersect(p, ray).Some?
    ensures OnPlane(p, Intersect(p, ray).value.hitpoint)
  {
    OnPlaneIff(p, ray, Crossing(p, ray));
  }

  /**
   * Conversely, when the ray is not parallel and reaches the plane at some
   * `s > 0`, the intersection is reported, and at exactly that parameter.
   */
  lemma CrossingIsFound(p: Plane, ray: Ray, s: real)
    requires Abs(Denom(p, ray)) > ParallelEpsilon && 0.0 < s && OnPlane(p, ray.Walk(s))
    ensures Intersect(p, ray).Some? && Intersect(p, ray).value.pointOnRay == s
  {
    OnPlaneIff(p, ray, s);
  }
}
