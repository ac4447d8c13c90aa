/**
 * The `Vec3` value type of src/vec3.rs: three doubles with componentwise
 * arithmetic, dot and cross products, normalisation, reflection and the
 * random sampling helpers. Every random draw is a parameter here.
 */
module Vectors {
  import opened Wrappers
  import opened SquareRoot

  datatype Vec3 = Vec3(x: real, y: real, z: real) {

    /** Zero exactly for the zero vector, positive otherwise. */
    function LengthSquared(): (l: real)
      ensures l >= 0.0
    {
      x * x + y * y + z * z
    }

    function Length(sqrt: real -> real): (l: real)
      requires IsSqrt(sqrt)
      ensures l >= 0.0 && l * l == LengthSquared()
    {
      sqrt(LengthSquared())
    }

    /** Every component lies in Rust's half-open range `-1e-8..1e-8`. */
    predicate NearZero() {
      InRange(-NearZeroBound, NearZeroBound, x)
      && InRange(-NearZeroBound, NearZeroBound, y)
      && InRange(-NearZeroBound, NearZeroBound, z)
    }
  }

  const Zeroes: Vec3 := Vec3(0.0, 0.0, 0.0)

  /** The `1e-8` bound of `near_zero`. */
  const NearZeroBound: real := 0.00000001

  /** `(lo..hi).contains(&v)`: Rust ranges include the start and exclude the end. */
  predicate InRange(lo: real, hi: real, v: real) {
    lo <= v < hi
  }

  function Add(u: Vec3, v: Vec3): Vec3 {
    Vec3(u.x + v.x, u.y + v.y, u.z + v.z)
  }

  function Sub(u: Vec3, v: Vec3): Vec3 {
    Vec3(u.x - v.x, u.y - v.y, u.z - v.z)
  }

  function Neg(v: Vec3): Vec3 {
    Vec3(-v.x, -v.y, -v.z)
  }

  /** `Mul<Vec3> for f64`: scaling by a double. */
  function Scale(t: real, v: Vec3): Vec3 {
    Vec3(t * v.x, t * v.y, t * v.z)
  }

  /** `Mul<Vec3> for Vec3`: the componentwise product. */
  function Mul(u: Vec3, v: Vec3): Vec3 {
    Vec3(u.x * v.x, u.y * v.y, u.z * v.z)
  }

  /** `Div<f64>`, which the source writes as scaling by the reciprocal. */
  function Div(v: Vec3, t: real): Vec3
    requires t != 0.0
  {
    Scale(1.0 / t, v)
  }

  /** Dividing by `t` is undone by scaling by `t`. */
  lemma ScaleUndoesDiv(v: Vec3, t: real)
    requires t != 0.0
    ensures Scale(t, Div(v, t)) == v
  {
    var k := 1.0 / t;
    assert t * k == 1.0;
    assert t * (k * v.x) == (t * k) * v.x;
    assert t * (k * v.y) == (t * k) * v.y;
    assert t * (k * v.z) == (t * k) * v.z;
  }

  function Dot(u: Vec3, v: Vec3): real {
    u.x * v.x + u.y * v.y + u.z * v.z
  }

  function Cross(u: Vec3, v: Vec3): Vec3 {
    Vec3(u.y * v.z - u.z * v.y,
         u.z * v.x - u.x * v.z,
         u.x * v.y - u.y * v.x)
  }

  /**
   * `u` divided by its length. The zero vector has no direction; dividing by
   * its length is left to the caller to avoid.
   */
  function UnitVector(u: Vec3, sqrt: real -> real): (w: Vec3)
    requires IsSqrt(sqrt) && u.LengthSquared() > 0.0
    ensures w.LengthSquared() == 1.0
    ensures Dot(u, w) == u.Length(sqrt)
    ensures exists k: real :: k > 0.0 && w == Scale(k, u)
  {
    var len := u.Length(sqrt);
    SquareRoot.SqrtPositive(sqrt, u.LengthSquared());
    var invLength := 1.0 / len;
    var w := Vec3(u.x * invLength, u.y * invLength, u.z * invLength);
    assert w == Scale(invLength, u);
    ScaledLengthSquared(invLength, u);
    assert invLength * invLength * (len * len) == 1.0;
    DotScale(invLength, u, u);
    assert invLength * u.LengthSquared() == len;
    w
  }

  /** Mirror `v` about the plane whose normal is `n`. */
  function Reflect(v: Vec3, n: Vec3): Vec3 {
    Sub(v, Scale(2.0 * Dot(v, n), n))
  }

  /**
   * `Vec3::random_in_unit_sphere`: rejection sampling. `candidates` are the
   * successive vectors `Vec3::new_random_in_range(-1.0, 1.0)` yields; the
   * first one strictly inside the unit ball is returned, and `None` when the
   * candidates run out first (the source would keep drawing).
   */
  method RandomInUnitSphere(candidates: seq<Vec3>) returns (p: Option<Vec3>)
    ensures p.Some? ==> p.value.LengthSquared() < 1.0
    ensures p.Some? ==> exists i :: (0 <= i < |candidates| && p.value == candidates[i]
      && forall j :: 0 <= j < i ==> candidates[j].LengthSquared() >= 1.0)
    ensures p.None? <==> forall i :: 0 <= i < |candidates| ==> candidates[i].LengthSquared() >= 1.0
  {
    var i := 0;
    while i < |candidates|
      invariant 0 <= i <= |candidates|
      invariant forall j :: 0 <= j < i ==> candidates[j].LengthSquared() >= 1.0
    {
      if candidates[i].LengthSquared() < 1.0 {
        return Some(candidates[i]);
      }
      i := i + 1;
    }
    return None;
  }

  /**
   * `Vec3::random_on_hemisphere`, given the random unit vector it draws:
   * that vector or its negation, whichever is not below the surface.
   */
  function RandomOnHemisphere(normal: Vec3, onUnitSphere: Vec3): (v: Vec3)
    ensures v == onUnitSphere || v == Neg(onUnitSphere)
    ensures Dot(v, normal) >= 0.0
    ensures Dot(onUnitSphere, normal) > 0.0 ==> v == onUnitSphere
    ensures Dot(onUnitSphere, normal) <= 0.0 ==> v == Neg(onUnitSphere)
  {
    assert Dot(Neg(onUnitSphere), normal) == -Dot(onUnitSphere, normal);
    if Dot(onUnitSphere, normal) > 0.0 then onUnitSphere else Neg(onUnitSphere)
  }

  /** `AddAssign`: `v += rhs`, one component at a time, on the caller's copy. */
  method AddAssign(v: Vec3, rhs: Vec3) returns (updated: Vec3)
    ensures updated == Add(v, rhs)
    ensures Sub(updated, rhs) == v
  {
    updated := v;
    updated := updated.(x := updated.x + rhs.x);
    updated := updated.(y := updated.y + rhs.y);
    updated := updated.(z := updated.z + rhs.z);
  }

  /** Only the zero vector has length zero. */
  lemma LengthSquaredZero(v: Vec3)
    ensures v.LengthSquared() == 0.0 <==> v == Zeroes
  {
    assert v.x * v.x >= 0.0 && v.y * v.y >= 0.0 && v.z * v.z >= 0.0;
    if v.LengthSquared() == 0.0 {
      SquareRoot.SquareInjective(if v.x >= 0.0 then v.x else -v.x, 0.0);
      SquareRoot.SquareInjective(if v.y >= 0.0 then v.y else -v.y, 0.0);
      SquareRoot.SquareInjective(if v.z >= 0.0 then v.z else -v.z, 0.0);
    }
  }

  lemma DotSymmetric(u: Vec3, v: Vec3)
    ensures Dot(u, v) == Dot(v, u)
  {
  }

  lemma DotSelf(u: Vec3)
    ensures Dot(u, u) == u.LengthSquared() >= 0.0
  {
  }

  lemma DotScale(k: real, u: Vec3, v: Vec3)
    ensures Dot(Scale(k, u), v) == k * Dot(u, v)
  {
  }

  lemma ScaledLengthSquared(k: real, u: Vec3)
    ensures Scale(k, u).LengthSquared() == k * k * u.LengthSquared()
  {
  }

  /** The dot product is the sum of the componentwise product's components. */
  lemma DotSumsMul(u: Vec3, v: Vec3)
    ensures var m := Mul(u, v); Dot(u, v) == m.x + m.y + m.z
    ensures Mul(u, v) == Mul(v, u)
  {
  }

  /** A vector that is near zero is much shorter than a unit vector. */
  lemma NearZeroIsShort(v: Vec3)
    requires v.NearZero()
    ensures v.LengthSquared() < 1.0
  {
    SquareBelow(v.x, NearZeroBound);
    SquareBelow(v.y, NearZeroBound);
    SquareBelow(v.z, NearZeroBound);
  }

  /** Each component of a unit vector lies in [-1, 1]. */
  lemma UnitComponents(n: Vec3)
    requires n.LengthSquared() == 1.0
    ensures -1.0 <= n.x <= 1.0 && -1.0 <= n.y <= 1.0 && -1.0 <= n.z <= 1.0
  {
    assert n.x * n.x >= 0.0 && n.y * n.y >= 0.0 && n.z * n.z >= 0.0;
    SquareAtMostOne(n.x);
    SquareAtMostOne(n.y);
    SquareAtMostOne(n.z);
  }

  /** A unit vector that is a positive multiple of another unit vector is that vector. */
  lemma UnitVectorOfUnit(u: Vec3, sqrt: real -> real)
    requires IsSqrt(sqrt) && u.LengthSquared() == 1.0
    ensures UnitVector(u, sqrt) == u
  {
    var w := UnitVector(u, sqrt);
    var k :| k > 0.0 && w == Scale(k, u);
    ScaledLengthSquared(k, u);
    SquareInjective(k, 1.0);
  }

  lemma CrossOrthogonal(u: Vec3, v: Vec3)
    ensures Dot(Cross(u, v), u) == 0.0 && Dot(Cross(u, v), v) == 0.0
  {
  }

  /** About a unit normal, reflection negates the normal component. */
  lemma ReflectNegatesNormalComponent(v: Vec3, n: Vec3)
    requires Dot(n, n) == 1.0
    ensures Dot(Reflect(v, n), n) == -Dot(v, n)
  {
    var d := Dot(v, n);
    DotScale(2.0 * d, n, n);
  }

  /** About a unit normal, reflection keeps the length. */
  lemma ReflectPreservesLength(v: Vec3, n: Vec3)
    requires Dot(n, n) == 1.0
    ensures Reflect(v, n).LengthSquared() == v.LengthSquared()
  {
    var d := Dot(v, n);
    var k := 2.0 * d;
    var w := Scale(k, n);
    assert Reflect(v, n) == Sub(v, w);
    assert Sub(v, w).LengthSquared() == v.LengthSquared() - 2.0 * Dot(v, w) + w.LengthSquared();
    DotSymmetric(w, v);
    DotScale(k, n, v);
    DotSymmetric(n, v);
    ScaledLengthSquared(k, n);
    assert Dot(v, w) == k * d;
    assert w.LengthSquared() == k * k;
  }

  /** About a unit normal, reflecting twice gives the vector back. */
  lemma ReflectInvolutive(v: Vec3, n: Vec3)
    requires Dot(n, n) == 1.0
    ensures Reflect(Reflect(v, n), n) == v
  {
    ReflectNegatesNormalComponent(v, n);
  }

  lemma AddSubInverse(u: Vec3, v: Vec3)
    ensures Sub(Add(u, v), v) == u && Add(Sub(u, v), v) == u
  {
  }

  lemma NegIsAdditiveInverse(v: Vec3)
    ensures Add(v, Neg(v)) == Zeroes && Neg(Neg(v)) == v
  {
  }

  /** The range is half-open: -1e-8 is near zero, 1e-8 is not, and neither is +-1e8. */
  lemma NearZeroBoundaries()
    ensures Vec3(-NearZeroBound, -NearZeroBound, -NearZeroBound).NearZero()
    ensures !Vec3(NearZeroBound, 0.0, 0.0).NearZero()
    ensures !Vec3(-100000000.0, -100000000.0, -100000000.0).NearZero()
    ensures !Vec3(100000000.0, 100000000.0, 100000000.0).NearZero()
    ensures Zeroes.NearZero()
  {
  }
}
