/**
 * The camera: viewport geometry derived from the image size, jittered rays
 * through each pixel, the colour of a ray (surface normal shading or the sky
 * gradient), and `render`, which averages samples per pixel and writes the
 * bytes of every pixel into the image buffer.
 */
module Cameras {
  import opened Wrappers
  import opened SquareRoot
  import opened Vectors
  import opened Intervals
  import opened Rays
  import opened Hittables
  import Colors

  /**
   * The scene's hit function: the nearest hit of a ray within an interval
   * of the ray parameter, if any.
   */
  type World = (Ray, Interval) -> Option<HitRecord>

  /**
   * The two `gen_range(-0.5..0.5)` draws made for sample `s` of pixel
   * `(u, v)`.
   */
  type Jitter = (nat, nat, nat) -> (real, real)

  datatype Camera = Camera(
    center: Vec3,
    pixel00Loc: Vec3,
    pixelDeltaU: Vec3,
    pixelDeltaV: Vec3,
    samplesPerPixel: nat,
    pixelSamplesScale: real)

  /**
   * The viewport lies in a plane of constant z in front of the camera, so
   * every ray the camera generates has a nonzero direction.
   */
  predicate FacesViewport(cam: Camera) {
    cam.pixelDeltaU.z == 0.0 && cam.pixelDeltaV.z == 0.0 && cam.pixel00Loc.z != cam.center.z
  }

  /**
   * `Camera::new`: a viewport of height 2 at focal length 1, as wide as the
   * image's aspect ratio demands, split into `imageWidth` by `imageHeight`
   * square pixels whose centres are inset by half a pixel from the edges.
   */
  function New(imageWidth: real, imageHeight: real): (cam: Camera)
    requires imageWidth != 0.0 && imageHeight != 0.0
    ensures cam.center == Vec3(0.0, 0.0, 0.0)
    ensures cam.samplesPerPixel == 10 && cam.pixelSamplesScale == 0.1
    ensures FacesViewport(cam)
  {
    var center := Vec3(0.0, 0.0, 0.0);
    var viewportHeight := 2.0;
    var viewportWidth := viewportHeight * (imageWidth / imageHeight);
    var viewportU := Vec3(viewportWidth, 0.0, 0.0);
    var viewportV := Vec3(0.0, -viewportHeight, 0.0);
    var pixelDeltaU := Div(viewportU, imageWidth);
    var pixelDeltaV := Div(viewportV, imageHeight);
    var viewportUpperLeft :=
      // the viewport plane lies at focal length 1 along -z
      Sub(Sub(Sub(center, Vec3(0.0, 0.0, 1.0)), Div(viewportU, 2.0)), Div(viewportV, 2.0));
    var pixel00Loc := Add(viewportUpperLeft, Scale(0.5, Add(pixelDeltaU, pixelDeltaV)));
    Camera(center, pixel00Loc, pixelDeltaU, pixelDeltaV, 10, 0.1)
  }

  /**
   * The viewport geometry of `New` in closed form: pixels are `2 / H` wide
   * and high, stepping right and down, and the first pixel centre is the
   * upper-left corner `(-W/H, 1, -1)` inset by half a pixel each way.
   */
  lemma NewGeometry(imageWidth: real, imageHeight: real)
    requires imageWidth != 0.0 && imageHeight != 0.0
    ensures var cam := New(imageWidth, imageHeight);
            cam.pixelDeltaU == Vec3(2.0 / imageHeight, 0.0, 0.0) &&
            cam.pixelDeltaV == Vec3(0.0, -2.0 / imageHeight, 0.0) &&
            cam.pixel00Loc == Vec3(-imageWidth / imageHeight + 1.0 / imageHeight,
                                   1.0 - 1.0 / imageHeight,
                                   -1.0)
  {
    var cam := New(imageWidth, imageHeight);
    WidthOverWidth(imageWidth, imageHeight);
    assert cam.pixelDeltaU.x == 2.0 / imageHeight;
    HalfOf(imageHeight);
    assert cam.pixelDeltaV.y == -2.0 / imageHeight;
  }

  lemma WidthOverWidth(w: real, h: real)
    requires w != 0.0 && h != 0.0
    ensures (1.0 / w) * (2.0 * (w / h)) == 2.0 / h
  {
    var q := w / h;
    assert q * h == w;
    assert (1.0 / w) * w == 1.0;
    assert (2.0 / h) * h == 2.0;
    assert ((1.0 / w) * (2.0 * q)) * h == 2.0 * ((1.0 / w) * (q * h));
  }

  lemma HalfOf(h: real)
    requires h != 0.0
    ensures (1.0 / h) * (-2.0) == -2.0 / h
    ensures 0.5 * (2.0 / h) == 1.0 / h
  {
  }

  /**
   * `sample_square`: the offset of a sample from the pixel centre, from two
   * draws of `gen_range(-0.5..0.5)`; it lies in the pixel's unit square
   * with the right and bottom edges excluded.
   */
  function SampleSquare(draws: (real, real)): (offset: Vec3)
    ensures offset.z == 0.0
    ensures InRange(-0.5, 0.5, draws.0) && InRange(-0.5, 0.5, draws.1) ==>
              InRange(-0.5, 0.5, offset.x) && InRange(-0.5, 0.5, offset.y)
  {
    Vec3(draws.0, draws.1, 0.0)
  }

  /** The viewport point at pixel coordinates `(u, v)`, pixel centres at whole numbers. */
  function ViewportPoint(cam: Camera, u: real, v: real): Vec3 {
    Add(Add(cam.pixel00Loc, Scale(u, cam.pixelDeltaU)), Scale(v, cam.pixelDeltaV))
  }

  /**
   * `get_ray`: from the camera centre through the sample point, the pixel
   * `(u, v)` displaced by `offset` pixels.
   */
  function GetRay(cam: Camera, u: real, v: real, offset: Vec3): (r: Ray)
    ensures r.Origin() == cam.center
    ensures r.PointAt(1.0) == ViewportPoint(cam, u + offset.x, v + offset.y)
  {
    var pixelSample := Add(Add(cam.pixel00Loc, Scale(u + offset.x, cam.pixelDeltaU)),
                           Scale(v + offset.y, cam.pixelDeltaV));
    var rayDirection := Sub(pixelSample, cam.center);
    Rays.New(cam.center, rayDirection)
  }

  /** Every ray a viewport-facing camera generates has a nonzero direction. */
  lemma GetRayDirectionNonzero(cam: Camera, u: real, v: real, offset: Vec3)
    requires FacesViewport(cam)
    ensures GetRay(cam, u, v, offset).Direction().LengthSquared() > 0.0
  {
    var d := GetRay(cam, u, v, offset).Direction();
    assert d.z == cam.pixel00Loc.z - cam.center.z;
    if d.LengthSquared() == 0.0 {
      LengthSquaredZero(d);
    }
  }

  /** The white and sky-blue ends of the background gradient. */
  const White: Colors.Color := Colors.New(1.0, 1.0, 1.0)
  const SkyBlue: Colors.Color := Colors.New(0.5, 0.7, 1.0)

  /** The hit interval of `ray_color`: every t from 0 upwards. */
  const Forward: Interval := Intervals.New(Finite(0.0), PosInf)

  /**
   * `ray_color`: a hit is shaded by its normal mapped from [-1, 1] to
   * [0, 1] per channel; a miss blends white into sky blue as the ray's unit
   * direction goes from straight down to straight up.
   */
  function RayColor(r: Ray, world: World, sqrt: real -> real): (c: Colors.Color)
    requires IsSqrt(sqrt)
    requires world(r, Forward).None? ==> r.Direction().LengthSquared() > 0.0
    ensures world(r, Forward).Some? ==>
              var n := world(r, Forward).value.normal;
              c.R() == (n.x + 1.0) / 2.0 && c.G() == (n.y + 1.0) / 2.0 && c.B() == (n.z + 1.0) / 2.0
    ensures world(r, Forward).None? ==>
              var a := (UnitVector(r.Direction(), sqrt).y + 1.0) / 2.0;
              c.R() == 1.0 - a / 2.0 && c.G() == 1.0 - 0.3 * a && c.B() == 1.0
  {
    match world(r, Forward)
    case Some(hitRecord) =>
      Colors.Scale(0.5, Colors.New(hitRecord.normal.x + 1.0, hitRecord.normal.y + 1.0, hitRecord.normal.z + 1.0))
    case None =>
      var unitDirection := UnitVector(r.Direction(), sqrt);
      var a := 0.5 * (unitDirection.y + 1.0);
      Colors.Add(Colors.Scale(1.0 - a, White), Colors.Scale(a, SkyBlue))
  }

  /** Every channel lies in [0, 1]. */
  predicate InUnitRange(c: Colors.Color) {
    0.0 <= c.R() <= 1.0 && 0.0 <= c.G() <= 1.0 && 0.0 <= c.B() <= 1.0
  }

  /**
   * With unit normals from the world, every colour `ray_color` produces has
   * its channels in [0, 1]; on a miss red lies in [0.5, 1], green in
   * [0.7, 1] and blue is 1.
   */
  lemma RayColorInUnitRange(r: Ray, world: World, sqrt: real -> real)
    requires IsSqrt(sqrt)
    requires world(r, Forward).None? ==> r.Direction().LengthSquared() > 0.0
    requires world(r, Forward).Some? ==> world(r, Forward).value.normal.LengthSquared() == 1.0
    ensures InUnitRange(RayColor(r, world, sqrt))
    ensures world(r, Forward).None? ==>
              0.5 <= RayColor(r, world, sqrt).R() && 0.7 <= RayColor(r, world, sqrt).G()
  {
    match world(r, Forward)
    case Some(hitRecord) =>
      UnitComponents(hitRecord.normal);
    case None =>
      UnitComponents(UnitVector(r.Direction(), sqrt));
  }

  /** A ray straight up that misses gets pure sky blue; one straight down gets white. */
  lemma BackgroundExtremes(world: World, sqrt: real -> real)
    requires IsSqrt(sqrt)
    ensures world(Ray(Vec3(0.0, 0.0, 0.0), Vec3(0.0, 1.0, 0.0)), Forward).None? ==>
              RayColor(Ray(Vec3(0.0, 0.0, 0.0), Vec3(0.0, 1.0, 0.0)), world, sqrt) == SkyBlue
    ensures world(Ray(Vec3(0.0, 0.0, 0.0), Vec3(0.0, -1.0, 0.0)), Forward).None? ==>
              RayColor(Ray(Vec3(0.0, 0.0, 0.0), Vec3(0.0, -1.0, 0.0)), world, sqrt) == White
  {
    UnitVectorOfUnit(Vec3(0.0, 1.0, 0.0), sqrt);
    UnitVectorOfUnit(Vec3(0.0, -1.0, 0.0), sqrt);
  }

  // ---- Sampling ----

  /**
   * The colour of sample `s` of pixel `(u, v)`: `ray_color` of the ray
   * `get_ray` builds from that sample's jitter.
   */
  function SampleColor(cam: Camera, world: World, jitter: Jitter, sqrt: real -> real,
                       u: nat, v: nat, s: nat): Colors.Color
    requires IsSqrt(sqrt) && FacesViewport(cam)
  {
    var r := GetRay(cam, u as real, v as real, SampleSquare(jitter(u, v, s)));
    GetRayDirectionNonzero(cam, u as real, v as real, SampleSquare(jitter(u, v, s)));
    RayColor(r, world, sqrt)
  }

  /** The sum of the first `k` samples of pixel `(u, v)`, added in order to black. */
  function SampleSum(cam: Camera, world: World, jitter: Jitter, sqrt: real -> real,
                     u: nat, v: nat, k: nat): Colors.Color
    requires IsSqrt(sqrt) && FacesViewport(cam)
  {
    if k == 0 then Colors.NewZeroes()
    else Colors.Add(SampleSum(cam, world, jitter, sqrt, u, v, k - 1),
                    SampleColor(cam, world, jitter, sqrt, u, v, k - 1))
  }

  /**
   * The colour `render` stores for pixel `(u, v)`: the inclusive range
   * `0..=samples_per_pixel` takes `samples_per_pixel + 1` samples, whose sum
   * is then scaled by `pixel_samples_scale`.
   */
  function PixelColor(cam: Camera, world: World, jitter: Jitter, sqrt: real -> real,
                      u: nat, v: nat): Colors.Color
    requires IsSqrt(sqrt) && FacesViewport(cam)
  {
    Colors.Scale(cam.pixelSamplesScale, SampleSum(cam, world, jitter, sqrt, u, v, cam.samplesPerPixel + 1))
  }

  /** The inner loop of `render`: accumulates the samples of one pixel. */
  method AccumulateSamples(cam: Camera, world: World, jitter: Jitter, sqrt: real -> real,
                           u: nat, v: nat) returns (pixelColor: Colors.Color)
    requires IsSqrt(sqrt) && FacesViewport(cam)
    ensures pixelColor == SampleSum(cam, world, jitter, sqrt, u, v, cam.samplesPerPixel + 1)
  {
    pixelColor := Colors.NewZeroes();
    var sample := 0;
    while sample <= cam.samplesPerPixel
      invariant 0 <= sample <= cam.samplesPerPixel + 1
      invariant pixelColor == SampleSum(cam, world, jitter, sqrt, u, v, sample)
    {
      pixelColor := Colors.Add(pixelColor, SampleColor(cam, world, jitter, sqrt, u, v, sample));
      sample := sample + 1;
    }
  }

  /** Fills row `v` of the buffer, column by column, and leaves the other rows alone. */
  method RenderRow(cam: Camera, img: array2<seq<Colors.byte>>, world: World, jitter: Jitter,
                   sqrt: real -> real, v: nat)
    requires IsSqrt(sqrt) && FacesViewport(cam) && v < img.Length1
    modifies img
    ensures forall u :: 0 <= u < img.Length0 ==>
              img[u, v] == PixelColor(cam, world, jitter, sqrt, u, v).OutputColor(sqrt)
    ensures forall u, v' :: 0 <= u < img.Length0 && 0 <= v' < img.Length1 && v' != v ==>
              img[u, v'] == old(img[u, v'])
  {
    var u := 0;
    while u < img.Length0
      invariant 0 <= u <= img.Length0
      invariant forall u' :: 0 <= u' < u ==>
                  img[u', v] == PixelColor(cam, world, jitter, sqrt, u', v).OutputColor(sqrt)
      invariant forall u', v' :: 0 <= u' < img.Length0 && 0 <= v' < img.Length1 && v' != v ==>
                  img[u', v'] == old(img[u', v'])
    {
      var pixelColor := AccumulateSamples(cam, world, jitter, sqrt, u, v);
      pixelColor := Colors.Scale(cam.pixelSamplesScale, pixelColor);
      assert pixelColor == PixelColor(cam, world, jitter, sqrt, u, v);
      img[u, v] := pixelColor.OutputColor(sqrt);
      u := u + 1;
    }
  }

  /**
   * `render`: visits every pixel of the buffer in row order and stores the
   * bytes of its scaled sample sum; `img[u, v]` is column `u` of row `v`.
   */
  method Render(cam: Camera, img: array2<seq<Colors.byte>>, world: World, jitter: Jitter,
                sqrt: real -> real)
    requires IsSqrt(sqrt) && FacesViewport(cam)
    modifies img
    ensures forall u, v :: 0 <= u < img.Length0 && 0 <= v < img.Length1 ==>
              img[u, v] == PixelColor(cam, world, jitter, sqrt, u, v).OutputColor(sqrt)
  {
    var v := 0;
    while v < img.Length1
      invariant 0 <= v <= img.Length1
      invariant forall u', v' :: 0 <= u' < img.Length0 && 0 <= v' < v ==>
                  img[u', v'] == PixelColor(cam, world, jitter, sqrt, u', v').OutputColor(sqrt)
    {
      RenderRow(cam, img, world, jitter, sqrt, v);
      v := v + 1;
    }
  }

  // ---- Properties of the sampling ----

  /** Summing `k` samples that all have colour `c` gives `k * c`. */
  lemma {:induction false} ConstantSampleSum(cam: Camera, world: World, jitter: Jitter, sqrt: real -> real,
                                              u: nat, v: nat, k: nat, c: Colors.Color)
    requires IsSqrt(sqrt) && FacesViewport(cam)
    requires forall s: nat :: s < k ==> SampleColor(cam, world, jitter, sqrt, u, v, s) == c
    ensures SampleSum(cam, world, jitter, sqrt, u, v, k) == Colors.Scale(k as real, c)
  {
    if k == 0 {
      assert Colors.Scale(0.0, c).rgb == Zeroes;
    } else {
      ConstantSampleSum(cam, world, jitter, sqrt, u, v, k - 1, c);
      Colors.AddScaled((k - 1) as real, c);
    }
  }

  /**
   * A pixel whose samples all have colour `c` is stored as
   * `(samples_per_pixel + 1) * pixel_samples_scale * c`; for a camera from
   * `New` that is `1.1 * c`, not `c`, because of the inclusive sample range.
   */
  lemma ConstantPixelColor(cam: Camera, world: World, jitter: Jitter, sqrt: real -> real,
                           u: nat, v: nat, c: Colors.Color)
    requires IsSqrt(sqrt) && FacesViewport(cam)
    requires forall s: nat :: s <= cam.samplesPerPixel ==> SampleColor(cam, world, jitter, sqrt, u, v, s) == c
    ensures PixelColor(cam, world, jitter, sqrt, u, v)
              == Colors.Scale(cam.pixelSamplesScale, Colors.Scale((cam.samplesPerPixel + 1) as real, c))
    ensures cam.samplesPerPixel == 10 && cam.pixelSamplesScale == 0.1 ==>
              PixelColor(cam, world, jitter, sqrt, u, v) == Colors.Scale(1.1, c)
  {
    ConstantSampleSum(cam, world, jitter, sqrt, u, v, cam.samplesPerPixel + 1, c);
  }

  // ---- Properties of the viewport ----

  /** Pixels are square: one step right is as long as one step down. */
  lemma PixelsAreSquare(imageWidth: real, imageHeight: real)
    requires imageWidth != 0.0 && imageHeight != 0.0
    ensures New(imageWidth, imageHeight).pixelDeltaU.x == -New(imageWidth, imageHeight).pixelDeltaV.y
    ensures New(imageWidth, imageHeight).pixelDeltaU.LengthSquared()
            == New(imageWidth, imageHeight).pixelDeltaV.LengthSquared()
  {
    NewGeometry(imageWidth, imageHeight);
    var d := 2.0 / imageHeight;
    assert (-d) * (-d) == d * d;
  }

  /**
   * The pixel centres are laid out symmetrically about the view axis:
   * pixel `(u, v)` mirrors pixel `(W - 1 - u, H - 1 - v)`.
   */
  lemma PixelCentresSymmetric(imageWidth: real, imageHeight: real, u: real, v: real)
    requires imageWidth != 0.0 && imageHeight != 0.0
    ensures var cam := New(imageWidth, imageHeight);
            var p := ViewportPoint(cam, u, v);
            var q := ViewportPoint(cam, imageWidth - 1.0 - u, imageHeight - 1.0 - v);
            p.x == -q.x && p.y == -q.y && p.z == q.z == -1.0
  {
    var k := 1.0 / imageHeight;
    var w := imageWidth / imageHeight;
    assert w == imageWidth * k;
    assert imageHeight * k == 1.0;
  }

  /**
   * A jittered sample of pixel `(u, v)` lands inside that pixel's cell of the
   * viewport, whose left and top edges are included.
   */
  lemma SampleInsidePixel(imageWidth: real, imageHeight: real, u: real, v: real, draws: (real, real))
    requires imageWidth != 0.0 && imageHeight > 0.0
    requires InRange(-0.5, 0.5, draws.0) && InRange(-0.5, 0.5, draws.1)
    ensures var cam := New(imageWidth, imageHeight);
            var p := GetRay(cam, u, v, SampleSquare(draws)).PointAt(1.0);
            var corner := ViewportPoint(cam, u - 0.5, v - 0.5);
            var k := 2.0 / imageHeight;
            corner.x <= p.x < corner.x + k && corner.y - k < p.y <= corner.y && p.z == -1.0
  {
    var k := 2.0 / imageHeight;
    assert k > 0.0;
    var ox, oy := draws.0, draws.1;
    ScaleStep(u - 0.5, u + ox, k);
    ScaleStep(v - 0.5, v + oy, k);
  }

  lemma ScaleStep(lo: real, x: real, k: real)
    requires k > 0.0 && lo <= x < lo + 1.0
    ensures lo * k <= x * k < lo * k + k
  {
    assert x * k - lo * k == (x - lo) * k;
    assert (lo + 1.0) * k - x * k == (lo + 1.0 - x) * k;
  }
}
