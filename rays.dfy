/** The `Ray` of src/ray.rs: the parametric line `origin + t * direction`. */
module Rays {
  import opened Vectors

  datatype Ray = Ray(orig: Vec3, dir: Vec3) {

    function Origin(): Vec3 { orig }

    function Direction(): Vec3 { dir }

    /** The point at parameter `t` along the ray. */
    function PointAt(t: real): Vec3 {
      Add(orig, Scale(t, dir))
    }
  }

  /** `Ray::new`: the accessors give back what was stored. */
  function New(origin: Vec3, direction: Vec3): (r: Ray)
    ensures r.Origin() == origin && r.Direction() == direction
  {
    Ray(origin, direction)
  }

  lemma PointAtZeroIsOrigin(r: Ray)
    ensures r.PointAt(0.0) == r.Origin()
  {
  }

  /** The documentation example: from the origin along (1, 2, 3), t = 2 gives (2, 4, 6). */
  lemma PointAtDocExample()
    ensures New(Zeroes, Vec3(1.0, 2.0, 3.0)).PointAt(2.0) == Vec3(2.0, 4.0, 6.0)
  {
  }

  /** Moving `t` further along the ray from parameter `s` adds `t * direction`. */
  lemma PointAtAffine(r: Ray, s: real, t: real)
    ensures r.PointAt(s + t) == Add(r.PointAt(s), Scale(t, r.Direction()))
  {
  }

  /** The point at `t` minus the origin is `t * direction`. */
  lemma PointAtOffset(r: Ray, t: real)
    ensures Sub(r.PointAt(t), r.Origin()) == Scale(t, r.Direction())
  {
  }
}
