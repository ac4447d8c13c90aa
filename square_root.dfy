/**
 * `f64::sqrt`, which the vector length, the unit vector, the sphere test and
 * gamma correction call. It has no definition here: members that need it take
 * the square-root function as a parameter and require it to obey the law below.
 * The facts about squares of reals that the proofs need sit here too.
 */
module SquareRoot {

  /** `sqrt` returns the non-negative square root of every non-negative real. */
  ghost predicate IsSqrt(sqrt: real -> real) {
    forall x: real :: 0.0 <= x ==> sqrt(x) >= 0.0 && sqrt(x) * sqrt(x) == x
  }

  /** Squaring is injective on the non-negative reals. */
  lemma SquareInjective(a: real, b: real)
    requires a >= 0.0 && b >= 0.0 && a * a == b * b
    ensures a == b
  {
    assert (a - b) * (a + b) == 0.0;
    if a + b > 0.0 {
      assert a - b == ((a - b) * (a + b)) / (a + b);
    }
  }

  /** Squaring is strictly monotone on the non-negative reals. */
  lemma SquareLtMonotone(a: real, b: real)
    requires a >= 0.0 && b >= 0.0 && a * a < b * b
    ensures a < b
  {
  }

  /** A square of at most 1 comes from a number in [-1, 1]. */
  lemma SquareAtMostOne(y: real)
    requires y * y <= 1.0
    ensures -1.0 <= y <= 1.0
  {
    var m := if y >= 0.0 then y else -y;
    assert m * m == y * y;
    if m * m < 1.0 {
      SquareLtMonotone(m, 1.0);
    } else {
      SquareInjective(m, 1.0);
    }
  }

  /** A number strictly inside `[-b, b)` squares to at most `b * b`. */
  lemma SquareBelow(x: real, b: real)
    requires 0.0 < b && -b <= x < b
    ensures x * x <= b * b
  {
    if x >= 0.0 {
      assert x * x <= b * x <= b * b;
    } else {
      assert x * x <= b * (-x) <= b * b;
    }
  }

  /** The product of two positive reals is positive. */
  lemma ProductPositive(k: real, d: real)
    requires k > 0.0 && d > 0.0
    ensures k * d > 0.0
  {
  }

  /** A non-negative real has one non-negative square root. */
  lemma SqrtUnique(sqrt: real -> real, x: real, w: real)
    requires IsSqrt(sqrt) && w >= 0.0 && w * w == x
    ensures sqrt(x) == w
  {
    SquareInjective(sqrt(x), w);
  }

  lemma SqrtPositive(sqrt: real -> real, x: real)
    requires IsSqrt(sqrt) && x > 0.0
    ensures sqrt(x) > 0.0
  {
    assert sqrt(x) * sqrt(x) == x;
  }

  lemma SqrtMonotone(sqrt: real -> real, x: real, y: real)
    requires IsSqrt(sqrt) && 0.0 <= x <= y
    ensures sqrt(x) <= sqrt(y)
  {
    if x < y {
      SquareLtMonotone(sqrt(x), sqrt(y));
    } else {
      assert sqrt(x) == sqrt(y);
    }
  }

  /** A square root lies strictly between two bounds whose squares bracket its argument. */
  lemma SqrtBetween(sqrt: real -> real, x: real, lo: real, hi: real)
    requires IsSqrt(sqrt) && 0.0 <= lo && 0.0 <= hi && lo * lo < x < hi * hi
    ensures lo < sqrt(x) < hi
  {
    assert sqrt(x) >= 0.0 && sqrt(x) * sqrt(x) == x;
    SquareLtMonotone(lo, sqrt(x));
    SquareLtMonotone(sqrt(x), hi);
  }
}
