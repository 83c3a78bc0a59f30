/**
 * The first renderer, src/main.rs: a pinhole camera, the older ray–sphere
 * intersection with its `signum` trick and `inside` flag, and the pixel loop
 * that keeps the nearest hit per pixel and writes its shade into a flat,
 * row-major RGB byte buffer. The scene, the materials and the buffer are
 * parameters; the hard-coded scene of `main` and the file output are not
 * part of this model.
 */
module Prototype {
  import opened RealSqrt
  import opened PrototypeMath
  import opened Options
  import Spheres

  datatype Sphere = Sphere(pos: Vec3, radius: real)

  datatype Ray = Ray(start: Vec3, dir: Vec3)

  datatype IntersectionInfo = IntersectionInfo(hitpoint: Vec3, normal: Vec3, pointOnRay: real, inside: bool)

  /** One past the largest `u32`. */
  const U32Limit: int := 0x1_0000_0000

  /** A byte of the image buffer. */
  newtype u8 = b: int | 0 <= b < 256

  // ---------------------------------------------------------------- camera

  /** The eye, the resolution and two opposite corners of the screen rectangle. */
  datatype Camera = Camera(pos: Vec3, res: (nat, nat), screen: (Vec3, Vec3))

  /** The screen lies one unit in front of the eye, parallel to the x-y plane. */
  predicate ValidCamera(cam: Camera) {
    cam.screen.0.z == cam.pos.z + 1.0 && cam.screen.1.z == cam.screen.0.z
  }

  /**
   * `Camera::new`: the screen of the given width and height is centred one
   * unit in front of the eye.
   */
  function NewCamera(pos: Vec3, res: (nat, nat), screenSize: (real, real)): (cam: Camera)
    ensures cam.pos == pos && cam.res == res && ValidCamera(cam)
    ensures cam.screen.1.Sub(cam.screen.0) == Vec3(screenSize.0, screenSize.1, 0.0)
    ensures cam.screen.0.Add(cam.screen.1) == pos.Scale(2.0).Add(Vec3(0.0, 0.0, 2.0))
  {
    Camera(pos, res,
           (pos.Add(Vec3(-screenSize.0 / 2.0, -screenSize.1 / 2.0, 1.0)),
            pos.Add(Vec3(screenSize.0 / 2.0, screenSize.1 / 2.0, 1.0))))
  }

  /**
   * The point of the screen pixel `(px, py)` aims at: the fractions
   * `px / res.0` and `py / res.1` of the way from the first corner to the
   * second, on the screen plane.
   */
  function ScreenPoint(cam: Camera, px: nat, py: nat): Vec3
    requires 0 < cam.res.0 && 0 < cam.res.1
  {
    var s0, s1 := cam.screen.0, cam.screen.1;
    Vec3(s0.x + (s1.x - s0.x) * (px as real / cam.res.0 as real),
         s0.y + (s1.y - s0.y) * (py as real / cam.res.1 as real),
         s1.z)
  }

  /** The ray through pixel `(px, py)`: from the eye towards its screen point. */
  function PixelRay(cam: Camera, px: nat, py: nat): (ray: Ray)
    requires ValidCamera(cam) && 0 < cam.res.0 && 0 < cam.res.1
    ensures ray.start == cam.pos
    ensures ray.dir.Scale(ScreenPoint(cam, px, py).Sub(cam.pos).LengthSqr())
            == ScreenPoint(cam, px, py).Sub(cam.pos)
    ensures 0.0 < ray.dir.z
  {
    var aim := ScreenPoint(cam, px, py).Sub(cam.pos);
    UnitDepthLengthSqr(aim);
    var dir := aim.Normalized();
    DepthStaysPositive(aim, dir);
    Ray(cam.pos, dir)
  }

  /** Scaling by a positive factor back to depth one leaves the depth positive. */
  lemma DepthStaysPositive(aim: Vec3, dir: Vec3)
    requires aim.z == 1.0 && 1.0 <= aim.LengthSqr() && dir.Scale(aim.LengthSqr()) == aim
    ensures 0.0 < dir.z
  {
    assert dir.z * aim.LengthSqr() == 1.0;
  }

  /**
   * `Camera::generate_ray`: the per-pixel step across the screen is scaled
   * in place by the pixel coordinates, added to the first corner, and the
   * offset from the eye is normalised.
   */
  method GenerateRay(cam: Camera, pix: (nat, nat)) returns (ray: Ray)
    requires ValidCamera(cam) && 0 < cam.res.0 && 0 < cam.res.1
    ensures ray == PixelRay(cam, pix.0, pix.1)
  {
    var screenSize := cam.screen.1.Sub(cam.screen.0).Div(Vec3(cam.res.0 as real, cam.res.1 as real, 1.0));
    screenSize := screenSize.(x := screenSize.x * pix.0 as real);
    screenSize := screenSize.(y := screenSize.y * pix.1 as real);
    var aim := cam.screen.0.Add(screenSize).Sub(cam.pos);
    StepScaling(cam.screen.1.x - cam.screen.0.x, cam.res.0 as real, pix.0 as real);
    StepScaling(cam.screen.1.y - cam.screen.0.y, cam.res.1 as real, pix.1 as real);
    assert aim == ScreenPoint(cam, pix.0, pix.1).Sub(cam.pos);
    UnitDepthLengthSqr(aim);
    ray := Ray(cam.pos, aim.Normalized());
  }

  lemma StepScaling(extent: real, res: real, p: real)
    requires res != 0.0
    ensures extent / res * p == extent * (p / res)
  {
  }

  /** Pixel `(0, 0)` aims at the first corner, and the pixel one past the last at the second. */
  lemma ScreenCorners(cam: Camera)
    requires ValidCamera(cam) && 0 < cam.res.0 && 0 < cam.res.1
    ensures ScreenPoint(cam, 0, 0) == cam.screen.0
    ensures ScreenPoint(cam, cam.res.0, cam.res.1) == cam.screen.1
  {
  }

  // ---------------------------------------------------------------- sphere

  /** `rr`: the squared radius (`powi(2)`). */
  function RR(sp: Sphere): real {
    sp.radius * sp.radius
  }

  /** `l`: from the ray's start to the centre. */
  function Offset(sp: Sphere, ray: Ray): Vec3 {
    sp.pos.Sub(ray.start)
  }

  /** `ll`: the squared distance from the start to the centre. */
  function LL(sp: Sphere, ray: Ray): real {
    Offset(sp, ray).Dot(Offset(sp, ray))
  }

  /** `s`: the ray parameter of the point closest to the centre (for a unit direction). */
  function S(sp: Sphere, ray: Ray): real {
    Offset(sp, ray).Dot(ray.dir)
  }

  /** `start + dir * t`. */
  function PointAt(ray: Ray, t: real): Vec3 {
    ray.start.Add(ray.dir.Scale(t))
  }

  predicate OnSurface(sp: Sphere, p: Vec3) {
    p.Sub(sp.pos).LengthSqr() == RR(sp)
  }

  /** `f32::signum` on a number: `-1` below zero, `1` from zero up (`signum(+0.0)` is `1`). */
  function Signum(x: real): (r: real)
    ensures r == -1.0 <==> x < 0.0
    ensures r == 1.0 <==> 0.0 <= x
  {
    if x < 0.0 then -1.0 else 1.0
  }

  /**
   * The ray parameter `intersect` reports, lines 144-163, from `s`, `ll` and
   * `rr`: no hit when the centre is behind a start outside the sphere, or
   * when the line passes outside; otherwise `t = s - sqrt(rr - mm) * u` with
   * `u` the sign of `ll - rr` (the near root from outside, the far root from
   * inside), unless `t` is negative.
   */
  function ParamFrom(s: real, ll: real, rr: real, sqrt: real -> real): (r: Option<real>)
    requires IsSqrt(sqrt)
    ensures s < 0.0 && ll > rr ==> r.None?
    ensures ll - s * s > rr ==> r.None?
    ensures r.Some? ==> 0.0 <= r.value
  {
    if s < 0.0 && ll > rr then None
    else
      var mm := ll - s * s;
      if mm > rr then None
      else
        var u := Signum(ll - rr);
        var t := s - Sqrt(sqrt, rr - mm) * u;
        if t < 0.0 then None else Some(t)
  }

  function Param(sp: Sphere, ray: Ray, sqrt: real -> real): (r: Option<real>)
    requires IsSqrt(sqrt)
    ensures S(sp, ray) < 0.0 && LL(sp, ray) > RR(sp) ==> r.None?
    ensures LL(sp, ray) - S(sp, ray) * S(sp, ray) > RR(sp) ==> r.None?
    ensures r.Some? ==> 0.0 <= r.value
  {
    ParamFrom(S(sp, ray), LL(sp, ray), RR(sp), sqrt)
  }

  /** The normal can be built: there is no hit, or the hit point is not the centre. */
  predicate NormalDefined(sp: Sphere, ray: Ray, sqrt: real -> real)
    requires IsSqrt(sqrt)
  {
    var r := Param(sp, ray, sqrt);
    r.None? || PointAt(ray, r.value) != sp.pos
  }

  /**
   * `Sphere::intersect` of src/main.rs. The hit point is `start + dir * t`,
   * the normal is `(p - pos).normalized()` (by the prototype's
   * `normalized`), and `inside` is set exactly when the start lies strictly
   * inside the sphere.
   */
  function Intersect(sp: Sphere, ray: Ray, sqrt: real -> real): (h: Option<IntersectionInfo>)
    requires IsSqrt(sqrt) && NormalDefined(sp, ray, sqrt)
    ensures h.None? <==> Param(sp, ray, sqrt).None?
    ensures h.Some? ==> h.value.pointOnRay == Param(sp, ray, sqrt).value && 0.0 <= h.value.pointOnRay
    ensures h.Some? ==> h.value.hitpoint == PointAt(ray, h.value.pointOnRay)
    ensures h.Some? ==> (h.value.inside <==> LL(sp, ray) < RR(sp))
    ensures h.Some? ==> h.value.normal.Scale(h.value.hitpoint.Sub(sp.pos).LengthSqr())
                        == h.value.hitpoint.Sub(sp.pos)
  {
    match Param(sp, ray, sqrt)
    case None => None
    case Some(t) =>
      var p := PointAt(ray, t);
      SubZeroIff(p, sp.pos);
      LengthSqrZeroIff(p.Sub(sp.pos));
      var u := Signum(LL(sp, ray) - RR(sp));
      Some(IntersectionInfo(p, p.Sub(sp.pos).Normalized(), t, u <= 0.0))
  }

  // ---------------------------------------------------------------- sphere: real algebra

  /** `a <= b` with both non-negative gives `a^2 <= b^2`. */
  lemma SquareMonotone(a: real, b: real)
    requires 0.0 <= a <= b
    ensures a * a <= b * b
  {
    assert a * a <= a * b;
    assert a * b <= b * b;
  }

  /** A non-negative root whose square exceeds `s^2` exceeds `|s|`. */
  lemma RootExceeds(thc: real, s: real)
    requires 0.0 <= thc && s * s < thc * thc
    ensures s < thc && -s < thc
  {
    if thc <= s {
      SquareMonotone(thc, s);
    }
    if thc <= -s {
      SquareMonotone(thc, -s);
    }
  }

  /** `a < b` with `a` non-negative gives `a^2 < b^2`. */
  lemma SquareStrictMonotone(a: real, b: real)
    requires 0.0 <= a < b
    ensures a * a < b * b
  {
    assert 0.0 <= a * (b - a);
    assert 0.0 < b * (b - a);
  }

  /** A non-negative root whose square is at most `s^2`, for `s >= 0`, is at most `s`. */
  lemma RootAtMost(thc: real, s: real)
    requires 0.0 <= thc && 0.0 <= s && thc * thc <= s * s
    ensures thc <= s
  {
    if s < thc {
      SquareStrictMonotone(s, thc);
    }
  }

  /** The half chord: when the line passes within the radius, its root is taken. */
  lemma HalfChord(s: real, ll: real, rr: real, sqrt: real -> real)
    requires IsSqrt(sqrt) && ll - s * s <= rr
    ensures 0.0 <= Sqrt(sqrt, rr - (ll - s * s))
    ensures Sqrt(sqrt, rr - (ll - s * s)) * Sqrt(sqrt, rr - (ll - s * s)) == rr - (ll - s * s)
  {
    assert IsRootOf(Sqrt(sqrt, rr - (ll - s * s)), rr - (ll - s * s));
  }

  /** The reported parameter is one of the two chord ends `s - thc`, `s + thc`. */
  lemma ParamIsChordEnd(s: real, ll: real, rr: real, sqrt: real -> real)
    requires IsSqrt(sqrt) && ParamFrom(s, ll, rr, sqrt).Some?
    ensures ll - s * s <= rr
    ensures var thc := Sqrt(sqrt, rr - (ll - s * s));
            ParamFrom(s, ll, rr, sqrt).value == (if ll < rr then s + thc else s - thc)
  {
  }

  /** A start strictly inside always hits, at the far chord end, strictly ahead. */
  lemma ParamInside(s: real, ll: real, rr: real, sqrt: real -> real)
    requires IsSqrt(sqrt) && ll < rr
    ensures ParamFrom(s, ll, rr, sqrt).Some?
    ensures 0.0 < ParamFrom(s, ll, rr, sqrt).value
    ensures s - Sqrt(sqrt, rr - (ll - s * s)) < 0.0
  {
    SquareNonNegative(s);
    HalfChord(s, ll, rr, sqrt);
    RootExceeds(Sqrt(sqrt, rr - (ll - s * s)), s);
  }

  /** The reported parameter solves `t^2 - 2 t s + ll == rr`. */
  lemma ParamSolves(s: real, ll: real, rr: real, sqrt: real -> real)
    requires IsSqrt(sqrt) && ParamFrom(s, ll, rr, sqrt).Some?
    ensures var t := ParamFrom(s, ll, rr, sqrt).value;
            t * t - 2.0 * t * s + ll == rr
  {
    var t := ParamFrom(s, ll, rr, sqrt).value;
    ParamIsChordEnd(s, ll, rr, sqrt);
    HalfChord(s, ll, rr, sqrt);
    Spheres.QuadraticRoot(t, s, Sqrt(sqrt, rr - (ll - s * s)), ll, ll - s * s, rr);
  }

  /**
   * Every strictly positive solution `u` of `u^2 - 2 u s + ll == rr` makes
   * the result `Some`, no larger than `u`: the reported parameter is the
   * nearest one ahead.
   */
  lemma ParamNearest(s: real, ll: real, rr: real, sqrt: real -> real, u: real)
    requires IsSqrt(sqrt) && 0.0 < u && u * u - 2.0 * u * s + ll == rr
    ensures ParamFrom(s, ll, rr, sqrt).Some? && ParamFrom(s, ll, rr, sqrt).value <= u
  {
    var mm := ll - s * s;
    Spheres.RootNeedsCloseLine(u, s, ll, mm, rr);
    HalfChord(s, ll, rr, sqrt);
    var thc := Sqrt(sqrt, rr - mm);
    Spheres.QuadraticRootsAreChordEnds(u, s, thc, ll, mm, rr);
    if ll < rr {
      ParamInside(s, ll, rr, sqrt);
    } else {
      SquareNonNegative(s);
      if 0.0 <= s {
        RootAtMost(thc, s);
      } else {
        OutsideBehindMisses(s, ll, rr, u);
        assert false;
      }
    }
  }

  /**
   * From outside or on the surface, with the centre behind, every point
   * strictly ahead lies strictly outside: no positive `u` solves the quadratic.
   */
  lemma OutsideBehindMisses(s: real, ll: real, rr: real, u: real)
    requires s < 0.0 && rr <= ll && 0.0 < u
    ensures u * u - 2.0 * u * s + ll > rr
  {
    SquarePositive(u, u * u);
    assert 0.0 < u * (-s);
  }

  // ---------------------------------------------------------------- sphere: geometry

  /** The squared distance of `start + dir * t` from the centre, as a quadratic in `t`. */
  lemma PointDistance(sp: Sphere, ray: Ray, t: real)
    ensures PointAt(ray, t).Sub(sp.pos).LengthSqr()
            == t * t * ray.dir.LengthSqr() - 2.0 * t * S(sp, ray) + LL(sp, ray)
  {
  }

  /** Along a unit direction the reported point lies on the sphere. */
  lemma HitOnSurface(sp: Sphere, ray: Ray, sqrt: real -> real)
    requires IsSqrt(sqrt) && ray.dir.LengthSqr() == 1.0 && Param(sp, ray, sqrt).Some?
    ensures OnSurface(sp, PointAt(ray, Param(sp, ray, sqrt).value))
  {
    var t := Param(sp, ray, sqrt).value;
    ParamSolves(S(sp, ray), LL(sp, ray), RR(sp), sqrt);
    PointDistance(sp, ray, t);
  }

  /**
   * Along a unit direction, any surface point strictly ahead of the start
   * makes the intersection report a hit no farther than it.
   */
  lemma HitIsNearest(sp: Sphere, ray: Ray, sqrt: real -> real, u: real)
    requires IsSqrt(sqrt) && ray.dir.LengthSqr() == 1.0
    requires 0.0 < u && OnSurface(sp, PointAt(ray, u))
    ensures Param(sp, ray, sqrt).Some? && Param(sp, ray, sqrt).value <= u
  {
    PointDistance(sp, ray, u);
    ParamNearest(S(sp, ray), LL(sp, ray), RR(sp), sqrt, u);
  }

  /** From strictly inside the sphere every ray hits, strictly ahead, with `inside` set. */
  lemma InsideAlwaysHits(sp: Sphere, ray: Ray, sqrt: real -> real)
    requires IsSqrt(sqrt) && LL(sp, ray) < RR(sp) && NormalDefined(sp, ray, sqrt)
    ensures Intersect(sp, ray, sqrt).Some?
    ensures 0.0 < Intersect(sp, ray, sqrt).value.pointOnRay
    ensures Intersect(sp, ray, sqrt).value.inside
  {
    ParamInside(S(sp, ray), LL(sp, ray), RR(sp), sqrt);
  }

  // ---------------------------------------------------------------- nearest hit

  /** Every sphere's normal can be built along `ray`. */
  predicate AllNormalsDefined(spheres: seq<Sphere>, ray: Ray, sqrt: real -> real)
    requires IsSqrt(sqrt)
  {
    forall i :: 0 <= i < |spheres| ==> NormalDefined(spheres[i], ray, sqrt)
  }

  /** The intersection of `ray` with each sphere, in scene order. */
  function Shots(spheres: seq<Sphere>, ray: Ray, sqrt: real -> real): (hs: seq<Option<IntersectionInfo>>)
    requires IsSqrt(sqrt) && AllNormalsDefined(spheres, ray, sqrt)
    ensures |hs| == |spheres|
    ensures forall i :: 0 <= i < |spheres| ==> hs[i] == Intersect(spheres[i], ray, sqrt)
    decreases |spheres|
  {
    if |spheres| == 0 then []
    else
      var n := |spheres| - 1;
      Shots(spheres[..n], ray, sqrt) + [Intersect(spheres[n], ray, sqrt)]
  }

  /**
   * The index the scan of lines 217-230 settles on: a hit with the smallest
   * `point_on_ray`, strictly smaller than every earlier hit and no larger
   * than every later one, so the first of equal hits wins; `None` exactly
   * when nothing is hit.
   */
  function Nearest(hits: seq<Option<IntersectionInfo>>): (r: Option<nat>)
    ensures r.None? <==> forall i :: 0 <= i < |hits| ==> hits[i].None?
    ensures r.Some? ==> r.value < |hits| && hits[r.value].Some?
    ensures r.Some? ==> forall j :: 0 <= j < r.value && hits[j].Some? ==>
                          hits[r.value].value.pointOnRay < hits[j].value.pointOnRay
    ensures r.Some? ==> forall j :: r.value < j < |hits| && hits[j].Some? ==>
                          hits[r.value].value.pointOnRay <= hits[j].value.pointOnRay
    decreases |hits|
  {
    if |hits| == 0 then None
    else
      var n := |hits| - 1;
      var r := Nearest(hits[..n]);
      if hits[n].None? then r
      else if r.None? then Some(n)
      else if hits[n].value.pointOnRay < hits[r.value].value.pointOnRay then Some(n)
      else r
  }

  /** One more step of the scan: a hit strictly nearer than the best so far replaces it. */
  lemma NearestStep(hits: seq<Option<IntersectionInfo>>, i: nat)
    requires i < |hits|
    ensures var r := Nearest(hits[..i]);
            Nearest(hits[..i + 1])
            == if hits[i].None? then r
               else if r.None? then Some(i)
               else if hits[i].value.pointOnRay < hits[r.value].value.pointOnRay then Some(i)
               else r
  {
    assert hits[..i + 1][..i] == hits[..i];
  }

  /**
   * The scan over the scene for one ray: the nearest hit and the material
   * of the same index.
   */
  method NearestHit(spheres: seq<Sphere>, materials: seq<Vec3>, ray: Ray, sqrt: real -> real)
    returns (hit: Option<IntersectionInfo>, mat: Option<Vec3>)
    requires IsSqrt(sqrt) && |spheres| <= |materials| && AllNormalsDefined(spheres, ray, sqrt)
    ensures var k := Nearest(Shots(spheres, ray, sqrt));
            && (k.None? ==> hit.None? && mat.None?)
            && (k.Some? ==> k.value < |spheres| && hit == Intersect(spheres[k.value], ray, sqrt)
                            && mat == Some(materials[k.value]))
  {
    ghost var hs := Shots(spheres, ray, sqrt);
    ghost var best: Option<nat> := None;
    hit, mat := None, None;
    var i := 0;
    while i < |spheres|
      invariant 0 <= i <= |spheres|
      invariant best == Nearest(hs[..i])
      invariant best.None? ==> hit.None? && mat.None?
      invariant best.Some? ==> best.value < i && hit == hs[best.value] && mat == Some(materials[best.value])
    {
      NearestStep(hs, i);
      var info := Intersect(spheres[i], ray, sqrt);
      assert info == hs[i];
      if info.Some? {
        match hit
        case None =>
          hit, mat := info, Some(materials[i]);
          best := Some(i);
        case Some(prev) =>
          if info.value.pointOnRay < prev.pointOnRay {
            hit, mat := info, Some(materials[i]);
            best := Some(i);
          }
      }
      i := i + 1;
    }
    assert hs[..|spheres|] == hs;
  }

  // ---------------------------------------------------------------- image buffer

  /** `to_index` of `fill_color`: byte `c` of pixel `(x, y)` in a row-major RGB buffer `w` pixels wide. */
  function Index(w: nat, x: nat, y: nat, c: nat): nat {
    y * w * 3 + x * 3 + c
  }

  /** The channel `c` of a colour: red, green, blue. */
  function Channel(color: Vec3, c: nat): real
    requires c < 3
  {
    if c == 0 then color.x else if c == 1 then color.y else color.z
  }

  /**
   * The cast `as u8` of a float: saturating at both ends and truncating in
   * between (not-a-number, which casts to 0, does not arise over the reals).
   */
  function ToByte(v: real): (b: u8)
    ensures v <= 0.0 ==> b == 0
    ensures 255.0 <= v ==> b == 255
    ensures 0.0 < v < 255.0 ==> b as real <= v < b as real + 1.0
  {
    if v <= 0.0 then 0 else if 255.0 <= v then 255 else v.Floor as u8
  }

  lemma MulMonotone(a: nat, b: nat, w: nat)
    requires a <= b
    ensures a * w <= b * w
  {
  }

  /** Inside a `w` by `h` image, every byte of every pixel is inside the buffer. */
  lemma IndexInBounds(w: nat, h: nat, x: nat, y: nat, c: nat)
    requires x < w && y < h && c < 3
    ensures Index(w, x, y, c) < w * h * 3
  {
    MulMonotone(y + 1, h, w);
    assert Index(w, x, y, c) < (y + 1) * w * 3;
  }

  lemma AllIndicesInBounds(w: nat, h: nat)
    ensures forall x: nat, y: nat, c: nat | x < w && y < h && c < 3 :: Index(w, x, y, c) < w * h * 3
  {
    forall x: nat, y: nat, c: nat | x < w && y < h && c < 3
      ensures Index(w, x, y, c) < w * h * 3
    {
      IndexInBounds(w, h, x, y, c);
    }
  }

  /** Row-major pixel numbers `y * w + x` are distinct for distinct pixels of a row width `w`. */
  lemma PixelNumberInjective(w: nat, x: nat, y: nat, x': nat, y': nat)
    requires x < w && x' < w && (x, y) != (x', y')
    ensures y * w + x != y' * w + x'
  {
    if y < y' {
      MulMonotone(y + 1, y', w);
    } else if y' < y {
      MulMonotone(y' + 1, y, w);
    }
  }

  /** The three bytes of a pixel are disjoint from those of every other pixel. */
  lemma PixelsDisjoint(w: nat, x: nat, y: nat, x': nat, y': nat, c': nat)
    requires x < w && x' < w && c' < 3 && (x, y) != (x', y')
    ensures Index(w, x', y', c') < Index(w, x, y, 0) || Index(w, x, y, 2) < Index(w, x', y', c')
  {
    PixelNumberInjective(w, x, y, x', y');
    assert Index(w, x, y, 0) == 3 * (y * w + x);
    assert Index(w, x', y', c') == 3 * (y' * w + x') + c';
  }

  lemma OtherPixelsDisjoint(w: nat, h: nat, x: nat, y: nat)
    requires x < w
    ensures forall x': nat, y': nat, c': nat | x' < w && c' < 3 && (x, y) != (x', y') ::
              Index(w, x', y', c') < Index(w, x, y, 0) || Index(w, x, y, 2) < Index(w, x', y', c')
  {
    forall x': nat, y': nat, c': nat | x' < w && c' < 3 && (x, y) != (x', y')
      ensures Index(w, x', y', c') < Index(w, x, y, 0) || Index(w, x, y, 2) < Index(w, x', y', c')
    {
      PixelsDisjoint(w, x, y, x', y', c');
    }
  }

  /**
   * `fill_color`: writes the three channels of `color`, scaled to 0-255 and
   * cast to bytes, at the pixel's three consecutive indices and nothing
   * else. The index is computed in `u32`, so it must not overflow, and it
   * must be inside the buffer.
   */
  method FillColor(image: array<u8>, pixel: (nat, nat), res: (nat, nat), color: Vec3)
    requires Index(res.0, pixel.0, pixel.1, 2) < image.Length
    requires Index(res.0, pixel.0, pixel.1, 2) < U32Limit
    modifies image
    ensures forall c: nat | c < 3 :: image[Index(res.0, pixel.0, pixel.1, c)] == ToByte(Channel(color, c) * 255.0)
    ensures forall k | 0 <= k < image.Length
                       && (k < Index(res.0, pixel.0, pixel.1, 0) || Index(res.0, pixel.0, pixel.1, 2) < k) ::
              image[k] == old(image[k])
  {
    image[Index(res.0, pixel.0, pixel.1, 0)] := ToByte(color.x * 255.0);
    image[Index(res.0, pixel.0, pixel.1, 1)] := ToByte(color.y * 255.0);
    image[Index(res.0, pixel.0, pixel.1, 2)] := ToByte(color.z * 255.0);
  }

  // ---------------------------------------------------------------- pixel loop

  /** Every pixel ray can build the normal of every sphere it hits. */
  predicate SceneDefined(cam: Camera, spheres: seq<Sphere>, sqrt: real -> real)
    requires IsSqrt(sqrt) && ValidCamera(cam)
  {
    forall x: nat, y: nat | x < cam.res.0 && y < cam.res.1 :: AllNormalsDefined(spheres, PixelRay(cam, x, y), sqrt)
  }

  /** `base_color * (-ray.dir).dot(&info.normal)`: the material scaled by the cosine towards the eye. */
  function Shade(base: Vec3, ray: Ray, info: IntersectionInfo): Vec3 {
    base.Scale(ray.dir.Neg().Dot(info.normal))
  }

  /**
   * The byte the loop leaves for channel `c` of pixel `(x, y)`: the shade of
   * the nearest hit's material, or 0 when nothing is hit or the nearest hit
   * is from inside a sphere.
   */
  function PixelByte(cam: Camera, spheres: seq<Sphere>, materials: seq<Vec3>, sqrt: real -> real,
                     x: nat, y: nat, c: nat): u8
    requires IsSqrt(sqrt) && ValidCamera(cam) && SceneDefined(cam, spheres, sqrt)
    requires |spheres| <= |materials| && x < cam.res.0 && y < cam.res.1 && c < 3
  {
    var ray := PixelRay(cam, x, y);
    var k := Nearest(Shots(spheres, ray, sqrt));
    if k.None? then 0
    else
      var info := Intersect(spheres[k.value], ray, sqrt).value;
      if info.inside then 0 else ToByte(Channel(Shade(materials[k.value], ray, info), c) * 255.0)
  }

  /**
   * The body of the inner loop, lines 212-238, for pixel `(x, y)`, whose
   * bytes are still 0: trace, pick the nearest hit, skip it when it is from
   * inside, otherwise fill the pixel.
   */
  method RenderPixel(data: array<u8>, cam: Camera, spheres: seq<Sphere>, materials: seq<Vec3>,
                     sqrt: real -> real, x: nat, y: nat)
    requires IsSqrt(sqrt) && ValidCamera(cam) && SceneDefined(cam, spheres, sqrt)
    requires |spheres| <= |materials| && x < cam.res.0 && y < cam.res.1
    requires data.Length == cam.res.0 * cam.res.1 * 3 < U32Limit
    requires forall c: nat | c < 3 :: Index(cam.res.0, x, y, c) < data.Length && data[Index(cam.res.0, x, y, c)] == 0
    modifies data
    ensures forall c: nat | c < 3 :: data[Index(cam.res.0, x, y, c)] == PixelByte(cam, spheres, materials, sqrt, x, y, c)
    ensures forall k | 0 <= k < data.Length
                       && (k < Index(cam.res.0, x, y, 0) || Index(cam.res.0, x, y, 2) < k) ::
              data[k] == old(data[k])
  {
    var ray := GenerateRay(cam, (x, y));
    var hit, mat := NearestHit(spheres, materials, ray, sqrt);
    if hit.Some? && !hit.value.inside {
      var color := Shade(mat.value, ray, hit.value);
      FillColor(data, (x, y), cam.res, color);
    }
  }

  /**
   * The pixel loop of `main`, lines 207-240: a zeroed buffer of
   * `w * h * 3` bytes (the size computed in `u32`), then every pixel column
   * by column. Every byte of every pixel ends as `PixelByte` says.
   */
  method Render(cam: Camera, spheres: seq<Sphere>, materials: seq<Vec3>, sqrt: real -> real)
    returns (data: array<u8>)
    requires IsSqrt(sqrt) && ValidCamera(cam) && SceneDefined(cam, spheres, sqrt)
    requires |spheres| <= |materials| && cam.res.0 * cam.res.1 * 3 < U32Limit
    ensures fresh(data) && data.Length == cam.res.0 * cam.res.1 * 3
    ensures forall x: nat, y: nat, c: nat | x < cam.res.0 && y < cam.res.1 && c < 3 ::
              Index(cam.res.0, x, y, c) < data.Length
              && data[Index(cam.res.0, x, y, c)] == PixelByte(cam, spheres, materials, sqrt, x, y, c)
  {
    var w, h := cam.res.0, cam.res.1;
    data := new u8[w * h * 3](_ => 0);
    AllIndicesInBounds(w, h);
    var x := 0;
    while x < w
      invariant 0 <= x <= w
      invariant forall x': nat, y': nat, c: nat | x' < w && y' < h && c < 3 ::
                  data[Index(w, x', y', c)] == (if x' < x then PixelByte(cam, spheres, materials, sqrt, x', y', c) else 0)
    {
      var y := 0;
      while y < h
        invariant 0 <= y <= h
        invariant forall x': nat, y': nat, c: nat | x' < w && y' < h && c < 3 ::
                    data[Index(w, x', y', c)]
                    == (if x' < x || (x' == x && y' < y) then PixelByte(cam, spheres, materials, sqrt, x', y', c) else 0)
      {
        RenderPixel(data, cam, spheres, materials, sqrt, x, y);
        OtherPixelsDisjoint(w, h, x, y);
        y := y + 1;
      }
      x := x + 1;
    }
  }
}
