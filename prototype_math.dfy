/**
 * The first `Vec3` of the renderer, defined inside src/main.rs (lines 5-89).
 * It differs from its successors in `normalized`, which divides by the
 * squared length instead of the length, so its result has squared length
 * `1 / |v|^2` and is a unit vector only when `v` already was one.
 * Being a type of its own, it carries its own copies of the small algebraic
 * helpers (`SubZeroIff`, `SubIsAddNeg`, ...).
 */
module PrototypeMath {
  import opened RealSqrt

  datatype Vec3 = Vec3(x: real, y: real, z: real) {

    function LengthSqr(): real {
      Dot(this)
    }

    function Length(sqrt: real -> real): (r: real)
      requires IsSqrt(sqrt)
      ensures 0.0 <= r && r * r == LengthSqr()
    {
      LengthSqrNonNegative(this);
      Sqrt(sqrt, LengthSqr())
    }

    /**
     * `self / self.length_sqr()`. Dividing by zero would give non-finite
     * components, so the squared length must not vanish.
     */
    function Normalized(): (r: Vec3)
      requires LengthSqr() != 0.0
      ensures r.Scale(LengthSqr()) == this
      ensures r.LengthSqr() * LengthSqr() == 1.0
    {
      DividedBySquareLength(this, LengthSqr());
      DivBy(LengthSqr())
    }

    function Dot(other: Vec3): real {
      x * other.x + y * other.y + z * other.z
    }

    function Neg(): Vec3 {
      Vec3(-x, -y, -z)
    }

    function Add(other: Vec3): Vec3 {
      Vec3(x + other.x, y + other.y, z + other.z)
    }

    /** `a - b`; the source writes it as `a + (-b)`, which `SubIsAddNeg` relates to this. */
    function Sub(other: Vec3): Vec3 {
      Vec3(x - other.x, y - other.y, z - other.z)
    }

    /** `v * k` (`Mul<f32>`). */
    function Scale(k: real): Vec3 {
      Vec3(x * k, y * k, z * k)
    }

    /** `v / k` (`Div<f32>`). */
    function DivBy(k: real): Vec3
      requires k != 0.0
    {
      Vec3(x / k, y / k, z / k)
    }

    /** Component-wise quotient (`Div<Vec3>`). */
    function Div(other: Vec3): Vec3
      requires other.x != 0.0 && other.y != 0.0 && other.z != 0.0
    {
      Vec3(x / other.x, y / other.y, z / other.z)
    }
  }

  lemma LengthSqrNonNegative(v: Vec3)
    ensures 0.0 <= v.LengthSqr()
  {
    SquareNonNegative(v.x);
    SquareNonNegative(v.y);
    SquareNonNegative(v.z);
  }

  function Zero(): Vec3 {
    Vec3(0.0, 0.0, 0.0)
  }

  lemma SubZeroIff(p: Vec3, o: Vec3)
    ensures p.Sub(o) == Zero() <==> p == o
  {
  }

  /** The squared length vanishes exactly at the zero vector. */
  lemma LengthSqrZeroIff(v: Vec3)
    ensures v.LengthSqr() == 0.0 <==> v == Zero()
  {
    SquareNonNegative(v.x);
    SquareNonNegative(v.y);
    SquareNonNegative(v.z);
    if v.x != 0.0 {
      SquarePositive(v.x, v.x * v.x);
    } else if v.y != 0.0 {
      SquarePositive(v.y, v.y * v.y);
    } else if v.z != 0.0 {
      SquarePositive(v.z, v.z * v.z);
    }
  }

  /** A vector whose `z` component is one has squared length at least one. */
  lemma UnitDepthLengthSqr(v: Vec3)
    requires v.z == 1.0
    ensures 1.0 <= v.LengthSqr()
  {
    SquareNonNegative(v.x);
    SquareNonNegative(v.y);
  }

  /** Dividing by the squared length `m` leaves squared length `1 / m`. */
  lemma DividedBySquareLength(v: Vec3, m: real)
    requires m != 0.0 && m == v.LengthSqr()
    ensures v.DivBy(m).Scale(m) == v
    ensures v.DivBy(m).LengthSqr() * m == 1.0
  {
    var q := v.DivBy(m);
    DivThenMul(v.x, m);
    DivThenMul(v.y, m);
    DivThenMul(v.z, m);
    SquareCongruent(q.x * m, v.x);
    SquareCongruent(q.y * m, v.y);
    SquareCongruent(q.z * m, v.z);
    var u, mm := q.LengthSqr(), m * m;
    assert u * mm == (q.x * m) * (q.x * m) + (q.y * m) * (q.y * m) + (q.z * m) * (q.z * m);
    assert u * mm == v.x * v.x + v.y * v.y + v.z * v.z;
    assert m == v.x * v.x + v.y * v.y + v.z * v.z;
    var w := u * m;
    assert w * m == u * mm;
    assert w * m == m;
    CancelFactor(w, m);
  }

  /** The result of `normalized` is a unit vector exactly when its input was one. */
  lemma NormalizedUnitIff(v: Vec3)
    requires v.LengthSqr() != 0.0
    ensures v.Normalized().LengthSqr() == 1.0 <==> v.LengthSqr() == 1.0
  {
    var m := v.LengthSqr();
    var u := v.Normalized().LengthSqr();
    assert u * m == 1.0;
    if u == 1.0 {
      assert m == 1.0;
    }
  }

  /** For `(2, 0, 0)` the result is `(0.5, 0, 0)`, of squared length 0.25. */
  lemma NormalizedNotUnit(v: Vec3)
    requires v == Vec3(2.0, 0.0, 0.0)
    ensures v.LengthSqr() == 4.0
    ensures v.Normalized() == Vec3(0.5, 0.0, 0.0)
    ensures v.Normalized().LengthSqr() == 0.25
  {
    assert v.x == 2.0 && v.y == 0.0 && v.z == 0.0;
    assert v.LengthSqr() == 4.0;
    assert v.DivBy(4.0) == Vec3(0.5, 0.0, 0.0);
  }

  lemma NegInvolutive(v: Vec3)
    ensures v.Neg().Neg() == v
  {
  }

  /** `a - b` is `a + (-b)`, the way the source writes it. */
  lemma SubIsAddNeg(a: Vec3, b: Vec3)
    ensures a.Sub(b) == a.Add(b.Neg())
  {
  }

  lemma SubUndoesAdd(a: Vec3, b: Vec3)
    ensures a.Add(b).Sub(b) == a
    ensures a.Sub(b).Add(b) == a
  {
  }

  /** Division by a scalar undoes scaling by it, and equals division by the vector `(k, k, k)`. */
  lemma ScalarDivision(v: Vec3, k: real)
    requires k != 0.0
    ensures v.Scale(k).DivBy(k) == v
    ensures v.DivBy(k) == v.Div(Vec3(k, k, k))
  {
  }
}
