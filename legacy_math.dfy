/**
 * The superseded single-file vector module src/math.rs. It cannot be built
 * together with src/math/mod.rs, so it is its own module here: a `Vec3` with
 * the operators of the time, a `Ray` whose direction is a plain `Vec3`, and
 * a `Hit` whose normal is a plain `Vec3`. Nothing in this module builds a
 * `Hit`: the record is kept only to mirror the one src/math.rs:130-135
 * declares. `Current` maps a vector of this
 * module to one of `Vectors`, and `AgreesWithCurrent` shows that the two
 * iterations compute the same algebra.
 *
 * This `Vec3` is a type of its own, so the small helpers about it
 * (`SubZeroIff`, `AxisLength`, the world-origin facts of `distance_to`)
 * are stated again here for it rather than shared with `Vectors` and `Rays`.
 */
module LegacyMath {
  import opened RealSqrt
  import Vectors

  datatype Vec3 = Vec3(x: real, y: real, z: real) {

    function LengthSqr(): real {
      Dot(this)
    }

    function Length(sqrt: real -> real): (r: real)
      requires IsSqrt(sqrt)
      ensures 0.0 <= r && r * r == LengthSqr()
    {
      SameLengthSqr(this);
      Vectors.LengthSqrNonNegative(Current(this));
      Sqrt(sqrt, LengthSqr())
    }

    /** `self / self.length()`: a vector of squared length one along `self`. */
    function Normalized(sqrt: real -> real): (r: Vec3)
      requires IsSqrt(sqrt) && 0.0 < Length(sqrt)
      ensures r.LengthSqr() == 1.0
      ensures r.Scale(Length(sqrt)) == this
    {
      var len := Length(sqrt);
      SameLengthSqr(this);
      Vectors.DividedByLengthIsUnit(Current(this), len);
      SameQuotient(this, len);
      DivBy(len)
    }

    function Dot(other: Vec3): real {
      x * other.x + y * other.y + z * other.z
    }

    function Neg(): Vec3 {
      Vec3(-x, -y, -z)
    }

    function Add(other: Vec3): Vec3 {
      Vec3(x + other.x, y + other.y, z + other.z)
    }

    /** `a - b`; the source writes it as `a + (-b)`, which `SubIsAddNeg` relates to this. */
    function Sub(other: Vec3): Vec3 {
      Vec3(x - other.x, y - other.y, z - other.z)
    }

    /** Component-wise product (`Mul` for `Vec3`). */
    function Mul(other: Vec3): Vec3 {
      Vec3(x * other.x, y * other.y, z * other.z)
    }

    /** `v * k` and `&v * k`. */
    function Scale(k: real): Vec3 {
      Vec3(x * k, y * k, z * k)
    }

    /** `v / k`. */
    function DivBy(k: real): Vec3
      requires k != 0.0
    {
      Vec3(x / k, y / k, z / k)
    }

    /** Component-wise quotient (`Div` for `Vec3`). */
    function Div(other: Vec3): Vec3
      requires other.x != 0.0 && other.y != 0.0 && other.z != 0.0
    {
      Vec3(x / other.x, y / other.y, z / other.z)
    }
  }

  /** `k * &v`, forwarded to `&v * k`. */
  function ScalarTimes(k: real, v: Vec3): Vec3 {
    v.Scale(k)
  }

  function Zero(): Vec3 {
    Vec3(0.0, 0.0, 0.0)
  }

  /** The same three components as a vector of the current module. */
  function Current(v: Vec3): Vectors.Vec3 {
    Vectors.Vec3(v.x, v.y, v.z)
  }

  /** The old ray: a start point and a direction nothing keeps unit. */
  datatype Ray = Ray(start: Vec3, dir: Vec3) {

    /**
     * `distance_to`, with the same projection through `start.dot(d)` as the
     * current module; the direction is never read. `p` must differ from
     * `start` because the projection divides by `|p - start|`.
     */
    function DistanceTo(p: Vec3, sqrt: real -> real): (r: real)
      requires IsSqrt(sqrt) && p != start
      ensures 0.0 <= r
    {
      var d := p.Sub(start);
      SubZeroIff(p, start);
      LengthPositive(d, sqrt);
      var projection := ScalarTimes(start.Dot(d), d).DivBy(d.Length(sqrt));
      var comparePoint := start.Add(projection);
      comparePoint.Sub(p).Length(sqrt)
    }
  }

  /** The hit record of the old module (src/math.rs:130-135); its normal is a plain `Vec3`. */
  datatype Hit = Hit(hitpoint: Vec3, normal: Vec3, pointOnRay: real, inside: bool)

  // ---------------------------------------------------------------- agreement with Vectors

  lemma SameLengthSqr(v: Vec3)
    ensures Current(v).LengthSqr() == v.LengthSqr()
  {
  }

  lemma SameQuotient(v: Vec3, k: real)
    requires k != 0.0
    ensures Current(v.DivBy(k)) == Current(v).DivBy(k)
    ensures Current(v.DivBy(k)).LengthSqr() == v.DivBy(k).LengthSqr()
    ensures Current(v.DivBy(k).Scale(k)) == Current(v).DivBy(k).Scale(k)
  {
  }

  /** Every operator of the old module computes what its successor computes. */
  lemma AgreesWithCurrent(a: Vec3, b: Vec3, k: real)
    ensures Current(a.Add(b)) == Current(a).Add(Current(b))
    ensures Current(a.Sub(b)) == Current(a).Sub(Current(b))
    ensures Current(a.Neg()) == Current(a).Neg()
    ensures Current(a.Mul(b)) == Current(a).Mul(Current(b))
    ensures Current(a.Scale(k)) == Current(a).Scale(k)
    ensures a.Dot(b) == Current(a).Dot(Current(b))
  {
  }

  // ---------------------------------------------------------------- algebra

  /** `a - b` is `a + (-b)`, the way the source writes it. */
  lemma SubIsAddNeg(a: Vec3, b: Vec3)
    ensures a.Sub(b) == a.Add(b.Neg())
  {
  }

  lemma SubZeroIff(p: Vec3, o: Vec3)
    ensures p.Sub(o) == Zero() <==> p == o
  {
  }

  lemma NegInvolutive(v: Vec3)
    ensures v.Neg().Neg() == v
  {
  }

  lemma SubUndoesAdd(a: Vec3, b: Vec3)
    ensures a.Add(b).Sub(b) == a
    ensures a.Sub(b).Add(b) == a
  {
  }

  /** `k * &v`, `&v * k` and `v * k` are one component-wise scaling. */
  lemma ScalarProductsAgree(k: real, v: Vec3)
    ensures ScalarTimes(k, v) == v.Scale(k)
    ensures v.Scale(k) == Vec3(k * v.x, k * v.y, k * v.z)
  {
  }

  /** Component-wise product and quotient are inverse to each other. */
  lemma MulDivComponentwise(a: Vec3, b: Vec3)
    requires b.x != 0.0 && b.y != 0.0 && b.z != 0.0
    ensures a.Mul(b).Div(b) == a
    ensures a.Div(b).Mul(b) == a
  {
  }

  /** A non-zero vector has positive length. */
  lemma LengthPositive(v: Vec3, sqrt: real -> real)
    requires IsSqrt(sqrt) && v != Zero()
    ensures 0.0 < v.Length(sqrt)
  {
    Vectors.LengthSqrPositive(Current(v));
    SameLengthSqr(v);
    RootPositiveIff(v.Length(sqrt), v.LengthSqr());
  }

  // ---------------------------------------------------------------- distance_to

  lemma DistanceToIgnoresDirection(s: Vec3, d1: Vec3, d2: Vec3, p: Vec3, sqrt: real -> real)
    requires IsSqrt(sqrt) && p != s
    ensures Ray(s, d1).DistanceTo(p, sqrt) == Ray(s, d2).DistanceTo(p, sqrt)
  {
  }

  /** Seen from the world origin the projection vanishes. */
  lemma ProjectionFromWorldOrigin(start: Vec3, d: Vec3, len: real)
    requires start == Zero() && len != 0.0
    ensures ScalarTimes(start.Dot(d), d).DivBy(len) == Zero()
  {
  }

  lemma FromWorldOrigin(o: Vec3, p: Vec3)
    requires o == Zero()
    ensures o.Add(Zero()).Sub(p).LengthSqr() == p.LengthSqr()
  {
    assert o.Add(Zero()).Sub(p) == p.Neg();
  }

  /** From the world origin, `distance_to` is just the distance to the origin. */
  lemma DistanceToFromWorldOrigin(ray: Ray, p: Vec3, sqrt: real -> real)
    requires IsSqrt(sqrt) && ray.start == Zero() && p != Zero()
    ensures ray.DistanceTo(p, sqrt) == p.Length(sqrt)
  {
    var d := p.Sub(ray.start);
    SubZeroIff(p, ray.start);
    LengthPositive(d, sqrt);
    ProjectionFromWorldOrigin(ray.start, d, d.Length(sqrt));
    FromWorldOrigin(ray.start, p);
  }

  /**
   * The offset `distance_to` measures, for any projection factor `a`: the
   * start plus `a * d / len`, minus `p = start + d`, is `d` scaled by
   * `a / len - 1`.
   */
  lemma CompareOffset(o: Vec3, p: Vec3, a: real, len: real)
    requires len != 0.0
    ensures o.Add(ScalarTimes(a, p.Sub(o)).DivBy(len)).Sub(p) == p.Sub(o).Scale(a / len - 1.0)
  {
    var d := p.Sub(o);
    ProjectionOffset(o.x, p.x, d.x, a, len);
    ProjectionOffset(o.y, p.y, d.y, a, len);
    ProjectionOffset(o.z, p.z, d.z, a, len);
  }

  /** Scaling by `t` multiplies the squared length by `t^2`. */
  lemma ScaledLengthSqr(v: Vec3, t: real)
    ensures v.Scale(t).LengthSqr() == t * t * v.LengthSqr()
  {
  }

  /**
   * What `distance_to` computes for every input: with `d = p - start`, the
   * square of its result is `(start.dot(d) - |d|)^2`.
   */
  lemma DistanceToSquared(ray: Ray, p: Vec3, sqrt: real -> real)
    requires IsSqrt(sqrt) && p != ray.start
    ensures var d := p.Sub(ray.start);
            ray.DistanceTo(p, sqrt) * ray.DistanceTo(p, sqrt)
            == (ray.start.Dot(d) - d.Length(sqrt)) * (ray.start.Dot(d) - d.Length(sqrt))
  {
    var o := ray.start;
    var d := p.Sub(o);
    SubZeroIff(p, o);
    LengthPositive(d, sqrt);
    var len := d.Length(sqrt);
    var c := o.Dot(d) / len - 1.0;
    CompareOffset(o, p, o.Dot(d), len);
    ScaledLengthSqr(d, c);
    QuotientSquare(o.Dot(d), len, d.LengthSqr());
  }

  /**
   * From the world origin along +x, the point `(2, 0, 0)` of the ray itself
   * is reported at distance 2.
   */
  lemma DistanceToMissesPointOnRay(ray: Ray, p: Vec3, sqrt: real -> real)
    requires IsSqrt(sqrt) && ray.start == Zero() && ray.dir == Vec3(1.0, 0.0, 0.0)
    requires p == Vec3(2.0, 0.0, 0.0)
    ensures p == ray.start.Add(ray.dir.Scale(2.0))
    ensures ray.DistanceTo(p, sqrt) == 2.0
  {
    AlongX(ray, p);
    DistanceToFromWorldOrigin(ray, p, sqrt);
    AxisLength(sqrt, 2.0);
  }

  lemma AlongX(ray: Ray, p: Vec3)
    requires ray.start == Zero() && ray.dir == Vec3(1.0, 0.0, 0.0) && p == Vec3(2.0, 0.0, 0.0)
    ensures p != Zero() && p == ray.start.Add(ray.dir.Scale(2.0))
  {
  }

  /** A vector along the x axis has the length of its component. */
  lemma AxisLength(sqrt: real -> real, a: real)
    requires IsSqrt(sqrt) && 0.0 <= a
    ensures Vec3(a, 0.0, 0.0).Length(sqrt) == a
  {
    assert Vec3(a, 0.0, 0.0).LengthSqr() == a * a;
    SqrtOfSquare(sqrt, a);
  }
}
