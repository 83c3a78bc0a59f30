/**
 * The vector algebra of the renderer (src/math/vec3.rs and src/math/norm3.rs):
 * a free vector `Vec3` and the unit normal `Norm3`, whose constructor checks
 * the squared length. Every `f32` is a `real`. The `Object3D` trait, through
 * which `dot` and `cross` accept either kind of vector, only exposes the
 * three components; here the right-hand operand is a `Vec3` and a normal is
 * passed as `n.Into()`.
 */
module Vectors {
  import opened RealSqrt

  /** A displacement, an unscaled direction or an RGB colour; no invariant. */
  datatype Vec3 = Vec3(x: real, y: real, z: real) {

    function LengthSqr(): real {
      Dot(this)
    }

    function Length(sqrt: real -> real): (r: real)
      requires IsSqrt(sqrt)
      ensures 0.0 <= r && r * r == LengthSqr()
    {
      LengthSqrNonNegative(this);
      Sqrt(sqrt, LengthSqr())
    }

    /**
     * Divides by the length and hands the result to the checking constructor
     * of `Norm3`, which aborts unless the squared length is below 1.001.
     * Over the reals the quotient is exactly unit, so the check always passes.
     */
    function Normalized(sqrt: real -> real): (n: Norm3)
      requires IsSqrt(sqrt) && 0.0 < Length(sqrt)
      ensures n.Into().LengthSqr() == 1.0
      ensures n.Into().Scale(Length(sqrt)) == this
    {
      var tmp := DivBy(Length(sqrt));
      DividedByLengthIsUnit(this, Length(sqrt));
      NewNorm3(tmp.x, tmp.y, tmp.z)
    }

    function Dot(other: Vec3): real {
      x * other.x + y * other.y + z * other.z
    }

    function Cross(other: Vec3): Vec3 {
      Vec3(y * other.z - z * other.y,
           z * other.x - x * other.z,
           x * other.y - y * other.x)
    }

    function Neg(): Vec3 {
      Vec3(-x, -y, -z)
    }

    function Add(other: Vec3): Vec3 {
      Vec3(x + other.x, y + other.y, z + other.z)
    }

    /** `a - b`; the source writes it as `a + (-b)`, which `SubIsAddNeg` relates to this. */
    function Sub(other: Vec3): Vec3 {
      Vec3(x - other.x, y - other.y, z - other.z)
    }

    /** Component-wise product (`Mul<Vec3>`). */
    function Mul(other: Vec3): Vec3 {
      Vec3(x * other.x, y * other.y, z * other.z)
    }

    /** `v * k` and `&v * k` (`Mul<f32>` for `Vec3` and for `&Vec3`). */
    function Scale(k: real): Vec3 {
      Vec3(x * k, y * k, z * k)
    }

    /** `v / k` (`Div<f32>`). */
    function DivBy(k: real): Vec3
      requires k != 0.0
    {
      Vec3(x / k, y / k, z / k)
    }

    /** Component-wise quotient (`Div<Vec3>`). */
    function Div(other: Vec3): Vec3
      requires other.x != 0.0 && other.y != 0.0 && other.z != 0.0
    {
      Vec3(x / other.x, y / other.y, z / other.z)
    }
  }

  /** `k * &v` (`Mul<&Vec3>` for `f32`), which the source forwards to `&v * k`. */
  function ScalarTimes(k: real, v: Vec3): Vec3 {
    v.Scale(k)
  }

  function Zero(): Vec3 {
    Vec3(0.0, 0.0, 0.0)
  }

  /** The test `Norm3::new` asserts: the squared length minus one is below 0.001. */
  predicate PassesUnitCheck(x: real, y: real, z: real) {
    x * x + y * y + z * z - 1.0 < 0.001
  }

  /** The three private components of a `Norm3`. */
  datatype RawNorm3 = RawNorm3(x: real, y: real, z: real) {

    predicate Valid() {
      PassesUnitCheck(x, y, z)
    }

    function Dot(other: Vec3): real {
      x * other.x + y * other.y + z * other.z
    }

    /** The cross product of a normal is a plain `Vec3`. */
    function Cross(other: Vec3): Vec3 {
      Vec3(y * other.z - z * other.y,
           z * other.x - x * other.z,
           x * other.y - y * other.x)
    }

    /** `n * k` and `&n * k`: scaling can change the length, so the result is a `Vec3`. */
    function Scale(k: real): Vec3 {
      Vec3(x * k, y * k, z * k)
    }

    /** `Into<Vec3>`. */
    function Into(): Vec3 {
      Vec3(x, y, z)
    }

    /** `Clone` goes back through the checking constructor. */
    function Clone(): (r: Norm3)
      requires Valid()
      ensures r == this
    {
      NewNorm3(x, y, z)
    }

    /** `Neg` goes back through the checking constructor, and always passes it. */
    function Neg(): (r: Norm3)
      requires Valid()
      ensures r.Into() == Into().Neg()
    {
      NegKeepsLengthSqr(Into());
      NewNorm3(-x, -y, -z)
    }
  }

  /**
   * A unit normal: a `RawNorm3` that passed the check of `Norm3::new`. A ray
   * direction or a surface normal has this type, so it carries the check.
   */
  type Norm3 = n: RawNorm3 | n.Valid() witness RawNorm3(1.0, 0.0, 0.0)

  /** `Norm3::new`: the `assert!` becomes the precondition. */
  function NewNorm3(x: real, y: real, z: real): (n: Norm3)
    requires PassesUnitCheck(x, y, z)
    ensures n.Into() == Vec3(x, y, z)
  {
    RawNorm3(x, y, z)
  }

  /** `k * &n` (`Mul<&Norm3>` for `f32`), forwarded to `&n * k`. */
  function ScalarTimesNorm(k: real, n: Norm3): Vec3 {
    n.Scale(k)
  }

  // ---------------------------------------------------------------- Vec3 facts

  lemma LengthSqrNonNegative(v: Vec3)
    ensures 0.0 <= v.LengthSqr()
  {
    SquareNonNegative(v.x);
    SquareNonNegative(v.y);
    SquareNonNegative(v.z);
  }

  /** The squared length vanishes exactly at the zero vector. */
  lemma LengthSqrZeroIff(v: Vec3)
    ensures 0.0 <= v.LengthSqr()
    ensures v.LengthSqr() == 0.0 <==> v == Zero()
  {
    LengthSqrNonNegative(v);
    if v != Zero() {
      LengthSqrPositive(v);
    }
  }

  lemma LengthSqrPositive(v: Vec3)
    requires v != Zero()
    ensures 0.0 < v.LengthSqr()
  {
    SquareNonNegative(v.x);
    SquareNonNegative(v.y);
    SquareNonNegative(v.z);
    if v.x != 0.0 {
      SquarePositive(v.x, v.x * v.x);
    } else if v.y != 0.0 {
      SquarePositive(v.y, v.y * v.y);
    } else {
      SquarePositive(v.z, v.z * v.z);
    }
  }

  /** A vector has positive length exactly when it is not the zero vector. */
  lemma LengthPositiveIff(v: Vec3, sqrt: real -> real)
    requires IsSqrt(sqrt)
    ensures 0.0 < v.Length(sqrt) <==> v != Zero()
  {
    LengthSqrZeroIff(v);
    RootPositiveIff(v.Length(sqrt), v.LengthSqr());
  }

  lemma DotSymmetric(a: Vec3, b: Vec3)
    ensures a.Dot(b) == b.Dot(a)
  {
  }

  /** The cross product is orthogonal to both operands. */
  lemma CrossOrthogonal(a: Vec3, b: Vec3)
    ensures a.Dot(a.Cross(b)) == 0.0
    ensures b.Dot(a.Cross(b)) == 0.0
  {
  }

  lemma CrossAntisymmetric(a: Vec3, b: Vec3)
    ensures a.Cross(b) == b.Cross(a).Neg()
  {
  }

  lemma NegInvolutive(v: Vec3)
    ensures v.Neg().Neg() == v
  {
  }

  /** `a - b` is `a + (-b)`, the way the source writes it. */
  lemma SubIsAddNeg(a: Vec3, b: Vec3)
    ensures a.Sub(b) == a.Add(b.Neg())
  {
  }

  /** Subtraction undoes addition and vice versa. */
  lemma SubUndoesAdd(a: Vec3, b: Vec3)
    ensures a.Add(b).Sub(b) == a
    ensures a.Sub(b).Add(b) == a
    ensures a.Sub(a) == Zero()
  {
  }

  /** `p - o` is the zero vector exactly when the two points coincide. */
  lemma SubZeroIff(p: Vec3, o: Vec3)
    ensures p.Sub(o) == Zero() <==> p == o
  {
  }

  lemma NegKeepsLengthSqr(v: Vec3)
    ensures v.Neg().LengthSqr() == v.LengthSqr()
  {
  }

  /** `k * &v`, `&v * k` and `v * k` are one component-wise scaling. */
  lemma ScalarProductsAgree(k: real, v: Vec3)
    ensures ScalarTimes(k, v) == v.Scale(k)
    ensures v.Scale(k) == Vec3(k * v.x, k * v.y, k * v.z)
  {
  }

  /** Component-wise product and quotient are inverse to each other. */
  lemma MulDivComponentwise(a: Vec3, b: Vec3)
    requires b.x != 0.0 && b.y != 0.0 && b.z != 0.0
    ensures a.Mul(b).Div(b) == a
    ensures a.Div(b).Mul(b) == a
    ensures a.Mul(b) == b.Mul(a)
  {
  }

  /** Dividing a vector by its length gives a vector of squared length one. */
  lemma DividedByLengthIsUnit(v: Vec3, len: real)
    requires len != 0.0 && len * len == v.LengthSqr()
    ensures v.DivBy(len).LengthSqr() == 1.0
    ensures PassesUnitCheck(v.DivBy(len).x, v.DivBy(len).y, v.DivBy(len).z)
    ensures v.DivBy(len).Scale(len) == v
  {
    var q := v.DivBy(len);
    DivThenMul(v.x, len);
    DivThenMul(v.y, len);
    DivThenMul(v.z, len);
    SquareCongruent(q.x * len, v.x);
    SquareCongruent(q.y * len, v.y);
    SquareCongruent(q.z * len, v.z);
    var u, m := q.LengthSqr(), len * len;
    assert u * m == (q.x * len) * (q.x * len) + (q.y * len) * (q.y * len) + (q.z * len) * (q.z * len);
    assert A: u * m == v.x * v.x + v.y * v.y + v.z * v.z;
    assert B: v.x * v.x + v.y * v.y + v.z * v.z == m;
    SquarePositive(len, m);
    CancelFactor(u, m);
  }

  /** The normalised vector points the same way as the original one. */
  lemma NormalizedPointsAlong(v: Vec3, sqrt: real -> real)
    requires IsSqrt(sqrt) && 0.0 < v.Length(sqrt)
    ensures v.Dot(v.Normalized(sqrt).Into()) == v.Length(sqrt)
    ensures 0.0 < v.Dot(v.Normalized(sqrt).Into())
  {
    var len := v.Length(sqrt);
    var n := v.Normalized(sqrt).Into();
    assert v == n.Scale(len);
    assert v.Dot(n) == n.LengthSqr() * len;
  }

  // ---------------------------------------------------------------- Norm3 facts

  /**
   * The check of `Norm3::new` is one-sided: every vector no longer than one
   * passes it, the zero vector included.
   */
  lemma UnitCheckIsOneSided(v: Vec3)
    requires v.LengthSqr() <= 1.0
    ensures PassesUnitCheck(v.x, v.y, v.z)
    ensures PassesUnitCheck(0.0, 0.0, 0.0)
  {
  }

  /** `Norm3::dot` and `Norm3::cross` agree with the `Vec3` operations on `n.Into()`. */
  lemma NormOperationsAgree(n: Norm3, o: Vec3)
    ensures n.Dot(o) == n.Into().Dot(o)
    ensures n.Cross(o) == n.Into().Cross(o)
  {
  }

  /** The cross product of a normal is orthogonal to both operands. */
  lemma NormCrossOrthogonal(n: Norm3, o: Vec3)
    ensures n.Dot(n.Cross(o)) == 0.0
    ensures o.Dot(n.Cross(o)) == 0.0
  {
    NormOperationsAgree(n, o);
    CrossOrthogonal(n.Into(), o);
  }

  /** Scaling a normal is scaling its components, on either side of the `*`. */
  lemma NormScaleAgrees(k: real, n: Norm3)
    ensures ScalarTimesNorm(k, n) == n.Scale(k)
    ensures n.Scale(k) == n.Into().Scale(k)
  {
  }

  /** `Into` keeps the three components. */
  lemma IntoKeepsComponents(n: Norm3)
    ensures n.Into().x == n.x && n.Into().y == n.y && n.Into().z == n.z
    ensures n.Into().LengthSqr() - 1.0 < 0.001
  {
  }
}
