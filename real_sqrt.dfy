/**
 * The square root the renderer takes from the platform's floating-point
 * library (`f32::sqrt`), and the facts about real products the geometry
 * proofs are built from. Over the reals the library root is the non-negative
 * root; it is passed to every operation that needs it, and `IsSqrt` says
 * what the operations may assume about it.
 */
module RealSqrt {

  /** `r` is the non-negative square root of `x`, when `x` has one. */
  predicate IsRootOf(r: real, x: real) {
    0.0 <= x ==> 0.0 <= r && r * r == x
  }

  /**
   * `f32::sqrt` applied to `x`. Every use goes through this function, so the
   * solver sees one term per argument whatever the context.
   */
  function Sqrt(sqrt: real -> real, x: real): real {
    sqrt(x)
  }

  /**
   * `sqrt` returns the non-negative square root of every non-negative real.
   * The arithmetic is kept behind `IsRootOf` so the quantifier itself holds none.
   */
  ghost predicate IsSqrt(sqrt: real -> real) {
    forall x: real {:trigger Sqrt(sqrt, x)} :: IsRootOf(Sqrt(sqrt, x), x)
  }

  lemma SquareNonNegative(x: real)
    ensures 0.0 <= x * x
  {
  }

  /** The square `m` of a non-zero number is positive. */
  lemma SquarePositive(x: real, m: real)
    requires x != 0.0 && m == x * x
    ensures 0.0 < m
  {
    assert m / x == x;
  }

  /** A product is zero only when a factor is. */
  lemma ZeroProduct(a: real, b: real)
    requires a * b == 0.0
    ensures a == 0.0 || b == 0.0
  {
  }

  lemma DifferenceOfSquares(r: real, s: real)
    ensures (r - s) * (r + s) == r * r - s * s
  {
  }

  /** Equal numbers have equal squares (stated for products the solver keeps apart). */
  lemma SquareCongruent(p: real, x: real)
    requires p == x
    ensures p * p == x * x
  {
  }

  /** Dividing by `d` and multiplying back is the identity. */
  lemma DivThenMul(x: real, d: real)
    requires d != 0.0
    ensures (x / d) * d == x
  {
  }

  /** A number that leaves a non-zero factor unchanged is one. */
  lemma CancelFactor(u: real, m: real)
    requires m != 0.0 && u * m == m
    ensures u == 1.0
  {
    assert (u - 1.0) * m == 0.0;
  }

  /** The non-negative square root is unique. */
  lemma RootUnique(r: real, s: real)
    requires 0.0 <= r && 0.0 <= s && r * r == s * s
    ensures r == s
  {
    DifferenceOfSquares(r, s);
    ZeroProduct(r - s, r + s);
  }

  /** A non-negative root is positive exactly when its square is. */
  lemma RootPositiveIff(r: real, x: real)
    requires 0.0 <= r && r * r == x
    ensures 0.0 < r <==> x != 0.0
  {
    if r == 0.0 {
      assert x == 0.0 * 0.0;
    } else {
      SquarePositive(r, x);
    }
  }

  /** So the library root of a square is the value squared. */
  lemma SqrtOfSquare(sqrt: real -> real, a: real)
    requires IsSqrt(sqrt) && 0.0 <= a
    ensures Sqrt(sqrt, a * a) == a
  {
    SquareNonNegative(a);
    RootUnique(Sqrt(sqrt, a * a), a);
  }

  /**
   * One component of the offset `distance_to` measures: the start `o` plus
   * the projection term `d * a / len`, minus the point `o + d`, is `d`
   * scaled by `a / len - 1`.
   */
  lemma ProjectionOffset(o: real, px: real, dx: real, a: real, len: real)
    requires len != 0.0 && dx == px - o
    ensures o + (dx * a) / len - px == dx * (a / len - 1.0)
  {
    assert (dx * a) / len == dx * (a / len);
  }

  /** Squaring `a / len - 1` against `len^2` gives `(a - len)^2`. */
  lemma QuotientSquare(a: real, len: real, lsq: real)
    requires len != 0.0 && lsq == len * len
    ensures (a / len - 1.0) * (a / len - 1.0) * lsq == (a - len) * (a - len)
  {
    var c := a / len - 1.0;
    assert c * len == a - len;
    assert c * c * lsq == (c * len) * (c * len);
  }
}
