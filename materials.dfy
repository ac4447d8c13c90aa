/**
 * Surface materials: given an incoming ray and where it hit, a material
 * either absorbs the ray (`None`) or scatters it, returning an attenuation
 * colour and the outgoing ray. The random unit vector each material draws
 * is a parameter.
 */
module Materials {
  import opened Wrappers
  import opened SquareRoot
  import opened Vectors
  import opened Rays
  import opened Hittables
  import Colors

  /** The default `scatter` of the material protocol absorbs every ray. */
  function DefaultScatter(rIn: Ray, rec: HitRecord): (s: Option<(Colors.Color, Ray)>)
    ensures s.None?
  {
    None
  }

  /** A diffuse material. */
  datatype Lambertian = Lambertian(albedo: Colors.Color) {

    /**
     * Scatters about the normal: towards `normal + randomUnit`, falling back
     * to the normal itself when that sum is near zero.
     */
    function Scatter(rIn: Ray, rec: HitRecord, randomUnit: Vec3): (s: Option<(Colors.Color, Ray)>)
      ensures s.Some? && s.value.0 == albedo && s.value.1.Origin() == rec.p
      ensures Add(rec.normal, randomUnit).NearZero() ==> s.value.1.Direction() == rec.normal
      ensures !Add(rec.normal, randomUnit).NearZero() ==>
                s.value.1.Direction() == Add(rec.normal, randomUnit)
    {
      var direction := Add(rec.normal, randomUnit);
      var direction := if direction.NearZero() then rec.normal else direction;
      Some((albedo, New(rec.p, direction)))
    }
  }

  function NewLambertian(albedo: Colors.Color): (m: Lambertian)
    ensures m.albedo == albedo
  {
    Lambertian(albedo)
  }

  /** A reflective material whose reflection is blurred by `fuzz`. */
  datatype Metal = Metal(albedo: Colors.Color, fuzz: real) {

    /** The mirror direction normalised, then perturbed by `fuzz * randomUnit`. */
    function FuzzedDirection(rIn: Ray, rec: HitRecord, randomUnit: Vec3, sqrt: real -> real): Vec3
      requires IsSqrt(sqrt) && Reflect(rIn.Direction(), rec.normal).LengthSquared() > 0.0
    {
      Add(UnitVector(Reflect(rIn.Direction(), rec.normal), sqrt), Scale(fuzz, randomUnit))
    }

    /** Scatters along the fuzzed reflection unless it points into the surface. */
    function Scatter(rIn: Ray, rec: HitRecord, randomUnit: Vec3, sqrt: real -> real)
      : (s: Option<(Colors.Color, Ray)>)
      requires IsSqrt(sqrt) && Reflect(rIn.Direction(), rec.normal).LengthSquared() > 0.0
      ensures s.Some? <==> Dot(FuzzedDirection(rIn, rec, randomUnit, sqrt), rec.normal) > 0.0
      ensures s.Some? ==>
                (s.value.0 == albedo && s.value.1.Origin() == rec.p &&
                 s.value.1.Direction() == FuzzedDirection(rIn, rec, randomUnit, sqrt))
      ensures s.Some? ==> Dot(s.value.1.Direction(), rec.normal) > 0.0
    {
      var reflected := FuzzedDirection(rIn, rec, randomUnit, sqrt);
      var fuzzedReflection := New(rec.p, reflected);
      if Dot(fuzzedReflection.Direction(), rec.normal) > 0.0 then
        Some((albedo, fuzzedReflection))
      else
        None
    }
  }

  /** `Metal::new` caps the fuzz at 1 from above only. */
  function NewMetal(albedo: Colors.Color, fuzz: real): (m: Metal)
    ensures m.albedo == albedo
    ensures m.fuzz <= 1.0 && m.fuzz <= fuzz
    ensures m.fuzz == fuzz || m.fuzz == 1.0
  {
    var fuzzFactor := if fuzz < 1.0 then fuzz else 1.0;
    Metal(albedo, fuzzFactor)
  }

  /** Building a metal from an already capped fuzz changes nothing. */
  lemma NewMetalIdempotent(albedo: Colors.Color, fuzz: real)
    ensures NewMetal(albedo, NewMetal(albedo, fuzz).fuzz) == NewMetal(albedo, fuzz)
  {
  }

  /** Fuzz in [0, 1] is kept as given; there is no lower bound, so negative fuzz is kept too. */
  lemma NewMetalKeepsSmallFuzz(albedo: Colors.Color, fuzz: real)
    requires fuzz < 1.0
    ensures NewMetal(albedo, fuzz).fuzz == fuzz
  {
  }

  lemma NewMetalCapsLargeFuzz(albedo: Colors.Color, fuzz: real)
    requires fuzz >= 1.0
    ensures NewMetal(albedo, fuzz).fuzz == 1.0
  {
  }

  // ---- Degenerate directions ----

  /** A Lambertian surface never scatters along a near-zero direction when its normal is not near zero. */
  lemma LambertianDirectionNotDegenerate(m: Lambertian, rIn: Ray, rec: HitRecord, randomUnit: Vec3)
    requires !rec.normal.NearZero()
    ensures !m.Scatter(rIn, rec, randomUnit).value.1.Direction().NearZero()
  {
  }

  /** With the unit normals a sphere reports, the scattered direction is never degenerate. */
  lemma LambertianOnUnitNormal(m: Lambertian, rIn: Ray, rec: HitRecord, randomUnit: Vec3)
    requires rec.normal.LengthSquared() == 1.0
    ensures !m.Scatter(rIn, rec, randomUnit).value.1.Direction().NearZero()
  {
    if rec.normal.NearZero() {
      NearZeroIsShort(rec.normal);
    }
    LambertianDirectionNotDegenerate(m, rIn, rec, randomUnit);
  }

  /** An exactly opposite random vector makes the sum zero, and the normal is used instead. */
  lemma LambertianFallsBackToNormal(m: Lambertian, rIn: Ray, rec: HitRecord)
    ensures m.Scatter(rIn, rec, Neg(rec.normal)).value.1.Direction() == rec.normal
  {
    NegIsAdditiveInverse(rec.normal);
  }

  // ---- The mirror case ----

  /**
   * A perfect mirror (fuzz 0) with a unit normal scatters exactly the rays
   * that arrive against the normal, and the scattered direction is a unit
   * vector.
   */
  lemma MirrorScattersIncomingRays(m: Metal, rIn: Ray, rec: HitRecord, randomUnit: Vec3, sqrt: real -> real)
    requires IsSqrt(sqrt) && m.fuzz == 0.0 && Dot(rec.normal, rec.normal) == 1.0
    requires Reflect(rIn.Direction(), rec.normal).LengthSquared() > 0.0
    ensures m.Scatter(rIn, rec, randomUnit, sqrt).Some? <==> Dot(rIn.Direction(), rec.normal) < 0.0
    ensures m.Scatter(rIn, rec, randomUnit, sqrt).Some? ==>
              m.Scatter(rIn, rec, randomUnit, sqrt).value.1.Direction().LengthSquared() == 1.0
  {
    var d, n := rIn.Direction(), rec.normal;
    var reflected := Reflect(d, n);
    var unit := UnitVector(reflected, sqrt);
    var k :| k > 0.0 && unit == Scale(k, reflected);
    assert Scale(m.fuzz, randomUnit) == Zeroes;
    assert m.FuzzedDirection(rIn, rec, randomUnit, sqrt) == unit;
    ReflectNegatesNormalComponent(d, n);
    DotScale(k, reflected, n);
    var g := Dot(reflected, n);
    assert Dot(unit, n) == k * g;
    if g > 0.0 {
      ProductPositive(k, g);
    } else if g < 0.0 {
      ProductPositive(k, -g);
      assert k * g == -(k * (-g));
    }
  }

  /** Scattering off a metal is defined whenever the incoming direction is nonzero and the normal is a unit vector. */
  lemma MetalScatterDefined(rIn: Ray, rec: HitRecord)
    requires Dot(rec.normal, rec.normal) == 1.0 && rIn.Direction().LengthSquared() > 0.0
    ensures Reflect(rIn.Direction(), rec.normal).LengthSquared() > 0.0
  {
    ReflectPreservesLength(rIn.Direction(), rec.normal);
  }
}
