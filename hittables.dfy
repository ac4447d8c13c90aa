/**
 * Hit records and the sphere intersection test. A ray `orig + t*dir` meets
 * the sphere `|p - center|^2 == radius^2` where the reduced quadratic
 * `a*t^2 - 2*h*t + c == 0` holds, with `a = |dir|^2`, `h = dir . oc`,
 * `c = |oc|^2 - radius^2` and `oc = center - orig`.
 */
module Hittables {
  import opened Wrappers
  import opened SquareRoot
  import opened Vectors
  import opened Intervals
  import opened Rays

  /** Where a ray met a surface: the point, the normal `(p - center) / radius` and the ray parameter. */
  datatype HitRecord = HitRecord(p: Vec3, normal: Vec3, t: real)

  function NewHitRecord(p: Vec3, normal: Vec3, t: real): (rec: HitRecord)
    ensures rec.p == p && rec.normal == normal && rec.t == t
  {
    HitRecord(p, normal, t)
  }

  /** The range test of the hit function: `t <= tmin || tmax <= t`. */
  predicate OutsideRange(t: real, tmin: Extended, tmax: Extended) {
    Finite(t).Le(tmin) || tmax.Le(Finite(t))
  }

  // ---- Root selection over plain reals ----

  /** The discriminant `h*h - a*c` of the reduced quadratic `a*t^2 - 2*h*t + c`. */
  function Discriminant(a: real, h: real, c: real): real {
    h * h - a * c
  }

  /** The smaller root `(h - sqrt(disc)) / a`. */
  function NearRoot(a: real, h: real, c: real, sqrt: real -> real): real
    requires IsSqrt(sqrt) && a > 0.0 && Discriminant(a, h, c) >= 0.0
  {
    (h - sqrt(Discriminant(a, h, c))) / a
  }

  /** The larger root `(h + sqrt(disc)) / a`. */
  function FarRoot(a: real, h: real, c: real, sqrt: real -> real): real
    requires IsSqrt(sqrt) && a > 0.0 && Discriminant(a, h, c) >= 0.0
  {
    (h + sqrt(Discriminant(a, h, c))) / a
  }

  /**
   * The root selection of the hit test: no root when the discriminant is
   * negative; otherwise the nearer root if it is strictly inside
   * (tmin, tmax), else the farther root if that one is, else none.
   */
  function SelectRoot(a: real, h: real, c: real, tmin: Extended, tmax: Extended, sqrt: real -> real)
    : (root: Option<real>)
    requires IsSqrt(sqrt) && a > 0.0
    ensures Discriminant(a, h, c) < 0.0 ==> root.None?
    ensures root.Some? ==> Interval(tmin, tmax).Surrounds(root.value)
    ensures Discriminant(a, h, c) >= 0.0 && Interval(tmin, tmax).Surrounds(NearRoot(a, h, c, sqrt)) ==>
              root == Some(NearRoot(a, h, c, sqrt))
    ensures root.Some? && !Interval(tmin, tmax).Surrounds(NearRoot(a, h, c, sqrt)) ==>
              root.value == FarRoot(a, h, c, sqrt)
    ensures root.Some? ==>
              (Discriminant(a, h, c) >= 0.0 &&
               (root.value == NearRoot(a, h, c, sqrt) || root.value == FarRoot(a, h, c, sqrt)))
    ensures root.None? <==>
              (Discriminant(a, h, c) < 0.0 ||
               (!Interval(tmin, tmax).Surrounds(NearRoot(a, h, c, sqrt)) &&
                !Interval(tmin, tmax).Surrounds(FarRoot(a, h, c, sqrt))))
  {
    if Discriminant(a, h, c) < 0.0 then None
    else
      var root := if OutsideRange(NearRoot(a, h, c, sqrt), tmin, tmax) then FarRoot(a, h, c, sqrt)
                  else NearRoot(a, h, c, sqrt);
      if OutsideRange(root, tmin, tmax) then None else Some(root)
  }

  /** The hit function's range test is exactly the negation of `Interval::surrounds`. */
  lemma OutsideRangeIsNotSurrounds(t: real, tmin: Extended, tmax: Extended)
    ensures OutsideRange(t, tmin, tmax) <==> !Interval(tmin, tmax).Surrounds(t)
  {
  }

  /** A root of the reduced quadratic makes the discriminant a perfect square. */
  lemma DiscriminantAtRoot(a: real, h: real, c: real, t: real)
    requires a * t * t - 2.0 * h * t + c == 0.0
    ensures Discriminant(a, h, c) == (a * t - h) * (a * t - h)
  {
  }

  /** Both roots solve the reduced quadratic. */
  lemma RootSolves(a: real, h: real, c: real, s: real, t: real)
    requires a != 0.0 && s * s == h * h - a * c
    requires t == (h - s) / a || t == (h + s) / a
    ensures a * t * t - 2.0 * h * t + c == 0.0
  {
    var e := a * t;
    assert e == h - s || e == h + s;
    var q := a * t * t - 2.0 * h * t + c;
    assert a * q == e * e - 2.0 * h * e + a * c;
    assert q == (a * q) / a;
  }

  /** The two roots are the only solutions of the reduced quadratic. */
  lemma OnlyRoots(a: real, h: real, c: real, s: real, t: real)
    requires a > 0.0 && s >= 0.0 && s * s == h * h - a * c
    requires a * t * t - 2.0 * h * t + c == 0.0
    ensures t == (h - s) / a || t == (h + s) / a
  {
    DiscriminantAtRoot(a, h, c, t);
    var e := a * t - h;
    var m := if e >= 0.0 then e else -e;
    assert m * m == e * e;
    SquareInjective(m, s);
    assert a * t == h + s || a * t == h - s;
  }

  lemma RootsOrdered(a: real, h: real, s: real)
    requires a > 0.0 && s >= 0.0
    ensures (h - s) / a <= (h + s) / a
  {
  }

  /** A selected root solves the reduced quadratic. */
  lemma SelectedRootSolves(a: real, h: real, c: real, tmin: Extended, tmax: Extended, sqrt: real -> real)
    requires IsSqrt(sqrt) && a > 0.0 && SelectRoot(a, h, c, tmin, tmax, sqrt).Some?
    ensures var t := SelectRoot(a, h, c, tmin, tmax, sqrt).value; a * t * t - 2.0 * h * t + c == 0.0
  {
    RootSolves(a, h, c, sqrt(Discriminant(a, h, c)), SelectRoot(a, h, c, tmin, tmax, sqrt).value);
  }

  /**
   * Root selection finds the nearest solution inside the range: whenever
   * some t strictly inside (tmin, tmax) solves the quadratic, a root is
   * selected and it is at most t.
   */
  lemma SelectRootIsNearest(a: real, h: real, c: real, tmin: Extended, tmax: Extended,
                            sqrt: real -> real, t: real)
    requires IsSqrt(sqrt) && a > 0.0
    requires a * t * t - 2.0 * h * t + c == 0.0 && Interval(tmin, tmax).Surrounds(t)
    ensures SelectRoot(a, h, c, tmin, tmax, sqrt).Some?
    ensures SelectRoot(a, h, c, tmin, tmax, sqrt).value <= t
  {
    DiscriminantAtRoot(a, h, c, t);
    var e := a * t - h;
    var d := sqrt(Discriminant(a, h, c));
    OnlyRoots(a, h, c, d, t);
    RootsOrdered(a, h, d);
  }

  // ---- The sphere ----

  datatype Sphere = Sphere(center: Vec3, radius: real) {

    /** The vector from the ray's origin to the centre. */
    function ToCenter(r: Ray): Vec3 {
      Sub(center, r.Origin())
    }

    function A(r: Ray): real {
      r.Direction().LengthSquared()
    }

    function H(r: Ray): real {
      Dot(r.Direction(), ToCenter(r))
    }

    function C(r: Ray): real {
      ToCenter(r).LengthSquared() - radius * radius
    }

    /** The point lies on the sphere's surface. */
    predicate OnSurface(p: Vec3) {
      Sub(p, center).LengthSquared() == radius * radius
    }

    /**
     * The hit test: the root selected for the ray's quadratic, with the
     * point it reaches and the outward normal scaled by `1 / radius`.
     */
    function Hit(r: Ray, tmin: Extended, tmax: Extended, sqrt: real -> real): (hit: Option<HitRecord>)
      requires IsSqrt(sqrt) && A(r) > 0.0 && radius != 0.0
      ensures Discriminant(A(r), H(r), C(r)) < 0.0 ==> hit.None?
      ensures hit.Some? ==> Interval(tmin, tmax).Surrounds(hit.value.t)
      ensures Discriminant(A(r), H(r), C(r)) >= 0.0 &&
              Interval(tmin, tmax).Surrounds(NearRoot(A(r), H(r), C(r), sqrt)) ==>
                (hit.Some? && hit.value.t == NearRoot(A(r), H(r), C(r), sqrt))
      ensures hit.Some? && !Interval(tmin, tmax).Surrounds(NearRoot(A(r), H(r), C(r), sqrt)) ==>
                hit.value.t == FarRoot(A(r), H(r), C(r), sqrt)
      ensures hit.None? <==>
                (Discriminant(A(r), H(r), C(r)) < 0.0 ||
                 (!Interval(tmin, tmax).Surrounds(NearRoot(A(r), H(r), C(r), sqrt)) &&
                  !Interval(tmin, tmax).Surrounds(FarRoot(A(r), H(r), C(r), sqrt))))
      ensures hit.Some? ==>
                (hit.value.p == r.PointAt(hit.value.t) &&
                 hit.value.normal == Div(Sub(hit.value.p, center), radius))
    {
      match SelectRoot(A(r), H(r), C(r), tmin, tmax, sqrt)
      case None => None
      case Some(root) =>
        var p := r.PointAt(root);
        Some(NewHitRecord(p, Div(Sub(p, center), radius), root))
    }
  }

  function NewSphere(center: Vec3, radius: real): (s: Sphere)
    ensures s.center == center && s.radius == radius
  {
    Sphere(center, radius)
  }

  // ---- From the quadratic to the sphere ----

  /** One coordinate of the distance from the centre, expanded in t. */
  lemma CoordinateSquare(o: real, d: real, c: real, t: real)
    ensures ((o + t * d) - c) * ((o + t * d) - c) == d * d * t * t - 2.0 * (d * (c - o)) * t + (c - o) * (c - o)
  {
  }

  /** The squared distance from the centre along the ray is the quadratic in t. */
  lemma DistanceAlongRay(s: Sphere, r: Ray, t: real)
    ensures Sub(r.PointAt(t), s.center).LengthSquared() - s.radius * s.radius
            == s.A(r) * t * t - 2.0 * s.H(r) * t + s.C(r)
  {
    var o, d, c := r.Origin(), r.Direction(), s.center;
    CoordinateSquare(o.x, d.x, c.x, t);
    CoordinateSquare(o.y, d.y, c.y, t);
    CoordinateSquare(o.z, d.z, c.z, t);
    SumOfThree(d.x * d.x, d.y * d.y, d.z * d.z, d.x * (c.x - o.x), d.y * (c.y - o.y), d.z * (c.z - o.z), t);
  }

  lemma SumOfThree(p: real, q: real, u: real, e: real, f: real, g: real, t: real)
    ensures (p + q + u) * t * t - 2.0 * (e + f + g) * t == (p * t * t - 2.0 * e * t) + (q * t * t - 2.0 * f * t) + (u * t * t - 2.0 * g * t)
  {
  }

  /** A point of the ray is on the sphere exactly when t solves the reduced quadratic. */
  lemma OnSurfaceIffQuadratic(s: Sphere, r: Ray, t: real)
    ensures s.OnSurface(r.PointAt(t)) <==> s.A(r) * t * t - 2.0 * s.H(r) * t + s.C(r) == 0.0
  {
    DistanceAlongRay(s, r, t);
    var q := s.A(r) * t * t - 2.0 * s.H(r) * t + s.C(r);
    if q == 0.0 {
      assert s.OnSurface(r.PointAt(t));
    } else {
      assert !s.OnSurface(r.PointAt(t));
    }
  }


  /** A reported hit point lies on the sphere. */
  lemma HitIsOnSurface(s: Sphere, r: Ray, tmin: Extended, tmax: Extended, sqrt: real -> real)
    requires IsSqrt(sqrt) && s.A(r) > 0.0 && s.radius != 0.0
    requires s.Hit(r, tmin, tmax, sqrt).Some?
    ensures s.OnSurface(s.Hit(r, tmin, tmax, sqrt).value.p)
  {
    SelectedRootSolves(s.A(r), s.H(r), s.C(r), tmin, tmax, sqrt);
    OnSurfaceIffQuadratic(s, r, s.Hit(r, tmin, tmax, sqrt).value.t);
  }

  /** A reported hit carries a unit normal. */
  lemma HitNormalIsUnit(s: Sphere, r: Ray, tmin: Extended, tmax: Extended, sqrt: real -> real)
    requires IsSqrt(sqrt) && s.A(r) > 0.0 && s.radius != 0.0
    requires s.Hit(r, tmin, tmax, sqrt).Some?
    ensures s.Hit(r, tmin, tmax, sqrt).value.normal.LengthSquared() == 1.0
  {
    var rec := s.Hit(r, tmin, tmax, sqrt).value;
    HitIsOnSurface(s, r, tmin, tmax, sqrt);
    var q := Sub(rec.p, s.center);
    var k := 1.0 / s.radius;
    assert rec.normal == Scale(k, q);
    ScaledLengthSquared(k, q);
    UnitFactor(k, s.radius, q.LengthSquared());
  }

  lemma UnitFactor(k: real, rad: real, l: real)
    requires rad != 0.0 && k == 1.0 / rad && l == rad * rad
    ensures k * k * l == 1.0
  {
    assert k * rad == 1.0;
    assert k * k * l == (k * rad) * (k * rad);
  }

  /**
   * The hit is the nearest intersection inside the range: whenever some t
   * strictly inside (tmin, tmax) puts the ray on the sphere, there is a hit
   * and its parameter is at most t. In particular no hit means the ray meets
   * the sphere nowhere inside the range.
   */
  lemma HitIsNearest(s: Sphere, r: Ray, tmin: Extended, tmax: Extended, sqrt: real -> real, t: real)
    requires IsSqrt(sqrt) && s.A(r) > 0.0 && s.radius != 0.0
    requires Interval(tmin, tmax).Surrounds(t) && s.OnSurface(r.PointAt(t))
    ensures s.Hit(r, tmin, tmax, sqrt).Some?
    ensures s.Hit(r, tmin, tmax, sqrt).value.t <= t
  {
    OnSurfaceIffQuadratic(s, r, t);
    SelectRootIsNearest(s.A(r), s.H(r), s.C(r), tmin, tmax, sqrt, t);
  }

  /**
   * A ray from the origin along -z towards a sphere centred at distance
   * `dist` hits the near side first, at `t == dist - radius`.
   */
  lemma HeadOnHitsNearSide(dist: real, radius: real, sqrt: real -> real)
    requires IsSqrt(sqrt) && 0.0 < radius < dist
    ensures var hit := Sphere(Vec3(0.0, 0.0, -dist), radius)
                         .Hit(Ray(Vec3(0.0, 0.0, 0.0), Vec3(0.0, 0.0, -1.0)), Finite(0.0), PosInf, sqrt);
            hit.Some? && hit.value.t == dist - radius && hit.value.normal == Vec3(0.0, 0.0, 1.0)
  {
    var s := Sphere(Vec3(0.0, 0.0, -dist), radius);
    var r := Ray(Vec3(0.0, 0.0, 0.0), Vec3(0.0, 0.0, -1.0));
    assert Discriminant(s.A(r), s.H(r), s.C(r)) == radius * radius;
    SqrtUnique(sqrt, radius * radius, radius);
    assert NearRoot(s.A(r), s.H(r), s.C(r), sqrt) == dist - radius;
  }
}
