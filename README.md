# rtiow in Dafny

A model of the core of `rtiow`, a small Rust ray tracer that follows the
"Ray Tracing in One Weekend" tutorial. The model covers:

- intervals of the ray parameter, with infinite bounds;
- `Vec3` algebra and the random-vector helpers;
- colours and their gamma-corrected 8-bit output;
- rays and the sphere intersection test;
- the Lambertian and metal materials;
- the camera: viewport geometry, jittered rays, `ray_color` and `render`.

Doubles are modelled as Dafny `real`. An interval bound is an extended real
(`NegInf | Finite | PosInf`), so `Interval::EMPTY` and `Interval::UNIVERSE`
keep their infinities.

The square root is a parameter `sqrt: real -> real` of every member that
needs it. Those members require `IsSqrt(sqrt)`: for `x >= 0`,
`sqrt(x) >= 0` and `sqrt(x) * sqrt(x) == x`.

Each random draw is a parameter:

- `random_in_unit_sphere` takes the sequence of candidate vectors.
- `random_on_hemisphere` and the materials take the unit vector.
- The camera takes a jitter oracle that gives the two `gen_range(-0.5..0.5)` draws of sample `s` of pixel `(u, v)`.

The scene is an abstract hit function `(Ray, Interval) -> Option<HitRecord>`.

Modules, one per file:

| file | module | models |
|---|---|---|
| `wrappers.dfy` | `Wrappers` | `Option` |
| `square_root.dfy` | `SquareRoot` | the square-root hypothesis and its consequences |
| `intervals.dfy` | `Intervals` | `src/interval.rs` |
| `vectors.dfy` | `Vectors` | `src/vec3.rs` |
| `colors.dfy` | `Colors` | `src/vec3/color.rs` |
| `rays.dfy` | `Rays` | `src/ray.rs` |
| `hittables.dfy` | `Hittables` | `src/hittable.rs` |
| `materials.dfy` | `Materials` | `src/material.rs` |
| `cameras.dfy` | `Cameras` | `src/camera.rs` |

Most of the source is pure: expressions, early returns and one reassigned
`let mut`. Those parts are Dafny functions, each with lemmas about it.

Three parts update state, and they are methods:

- `AddAssign` updates the three components one at a time.
- `random_in_unit_sphere` is a rejection loop.
- `render` is a loop over the pixels with an inner loop that accumulates samples.

`render` writes into a two-dimensional array of byte triples, and it is
proved to store the output bytes of `PixelColor(u, v)`, `PixelColor(u, v).OutputColor(sqrt)`, in every pixel.

`Sphere::hit` computes `a`, `h` and `c`, then selects a root.
`SelectRoot` models that selection over plain reals. The sphere lemmas
connect a point on the surface to a root of `a*t^2 - 2*h*t + c`. The main
results:

- A hit lies on the sphere and carries a unit normal.
- The hit is the nearest surface point strictly inside `(tmin, tmax)`.

## Model

| member | source | states |
|---|---|---|
| Intervals.New | src/interval.rs:9-17 | the interval keeps both bounds as given |
| Intervals.NewEmpty | src/interval.rs:19-24 | `new_empty` is the interval `[+inf, -inf]`, equal to `EMPTY` |
| Intervals.Minus | src/interval.rs:27-29 | subtraction of extended reals: the real difference for finite bounds, NaN (`None`) exactly for two equal infinities, non-negative exactly when `b <= a` |
| Intervals.Interval.Size | src/interval.rs:27-29 | `size` is `max - min`, and it is non-negative exactly when `min <= max` |
| Intervals.ContainsFinite | src/interval.rs:31-33 | `contains(x)` iff `min <= x <= max` |
| Intervals.SurroundsFinite | src/interval.rs:35-37 | `surrounds(x)` iff `min < x < max` |
| Intervals.Interval.Contains | src/interval.rs:31-33 | `min <= x && x <= max` over extended bounds; properties in ContainsFinite, EndpointsContainedNotSurrounded, ClampFixesContained |
| Intervals.Interval.Surrounds | src/interval.rs:35-37 | `min < x && x < max` over extended bounds; properties in SurroundsFinite, SurroundsImpliesContains, Hittables.OutsideRangeIsNotSurrounds |
| Intervals.Empty | src/interval.rs:50 | `EMPTY`, the interval `[+inf, -inf]`; properties in NewEmpty and EmptyContainsNothing |
| Intervals.Universe | src/interval.rs:51-54 | `UNIVERSE`, the interval `[-inf, +inf]`; properties in UniverseContainsEverything |
| Intervals.EndpointsContainedNotSurrounded | src/interval.rs:31-37 | the finite endpoints of a non-empty interval are contained but not surrounded |
| Intervals.SurroundsImpliesContains | src/interval.rs:31-37 | `surrounds(x)` implies `contains(x)` |
| Intervals.EmptyContainsNothing | src/interval.rs:19-24 | `EMPTY` contains and surrounds no finite x; its size is `-inf` |
| Intervals.UniverseContainsEverything | src/interval.rs:50-54 | `UNIVERSE` contains and surrounds every finite x; its size is `+inf` |
| Intervals.Interval.Clamp | src/interval.rs:39-47 | `clamp` returns `min`, `max` or x, and a finite value on a finite interval |
| Intervals.ClampWithin | src/interval.rs:39-47 | when `min <= max`, `clamp(x)` lies in `[min, max]` |
| Intervals.ClampFixesContained | src/interval.rs:39-47 | `clamp(x) == x` whenever `contains(x)` |
| Intervals.ClampIdempotent | src/interval.rs:39-47 | on a non-empty interval, clamping twice equals clamping once |
| Intervals.ClampNotIdempotentWhenEmpty | src/interval.rs:39-47 | on `[2, 1]`, 0 clamps to 2 and 2 clamps to 1, so idempotence needs `min <= max` |
| Intervals.ClampMonotone | src/interval.rs:39-47 | on a non-empty interval, `clamp` is monotone |
| Rays.New | src/ray.rs:13-27 | `origin()` and `direction()` return exactly what `Ray::new` was given |
| Rays.Ray.Origin | src/ray.rs:21-23 | the stored origin; property in Rays.New |
| Rays.Ray.Direction | src/ray.rs:25-27 | the stored direction; property in Rays.New |
| Rays.Ray.PointAt | src/ray.rs:41-43 | `orig + t * dir`; properties in PointAtZeroIsOrigin, PointAtDocExample, PointAtAffine, PointAtOffset |
| Rays.PointAtZeroIsOrigin | src/ray.rs:41-43 | `point_at(0)` is the origin |
| Rays.PointAtDocExample | src/ray.rs:33-43 | origin 0, direction (1,2,3) and t = 2 give (2,4,6) |
| Rays.PointAtAffine | src/ray.rs:41-43 | `point_at(s + t) == point_at(s) + t * dir` |
| Rays.PointAtOffset | src/ray.rs:41-43 | `point_at(t) - origin == t * dir` |
| Vectors.Vec3.LengthSquared | src/vec3.rs:49-51 | the squared length is non-negative |
| Vectors.LengthSquaredZero | src/vec3.rs:49-51 | the squared length is zero exactly for the zero vector |
| Vectors.Vec3.Length | src/vec3.rs:53-55 | the length is non-negative and squares to `length_squared` |
| Vectors.Vec3.NearZero | src/vec3.rs:57-62 | every component in the half-open range `-1e-8..1e-8` (Vectors.InRange); properties in NearZeroBoundaries and NearZeroIsShort |
| Vectors.Add | src/vec3.rs:125-136 | componentwise sum; properties in AddSubInverse and AddAssign |
| Vectors.Sub | src/vec3.rs:182-192 | componentwise difference; properties in AddSubInverse |
| Vectors.Neg | src/vec3.rs:170-180 | componentwise negation; properties in NegIsAdditiveInverse |
| Vectors.Scale | src/vec3.rs:146-156 | `Mul<Vec3> for f64`, each component times t; properties in DotScale and ScaledLengthSquared |
| Vectors.Mul | src/vec3.rs:158-168 | `Mul<Vec3> for Vec3`, the componentwise product; properties in DotSumsMul |
| Vectors.Div | src/vec3.rs:194-200 | `(1 / t) * v`; properties in ScaleUndoesDiv |
| Vectors.Dot | src/vec3.rs:65-67 | `u.x*v.x + u.y*v.y + u.z*v.z`; properties in DotSymmetric, DotSelf, DotScale, DotSumsMul |
| Vectors.Cross | src/vec3.rs:69-75 | the cross product; properties in CrossOrthogonal |
| Vectors.Reflect | src/vec3.rs:107-112 | `v - 2 (v . n) n`; properties in ReflectNegatesNormalComponent, ReflectPreservesLength, ReflectInvolutive |
| Vectors.NearZeroBoundaries | src/vec3.rs:57-62 | `near_zero` uses the half-open range `[-1e-8, 1e-8)`: `-1e-8` is near zero, `1e-8` and `±1e8` are not |
| Vectors.DotSymmetric | src/vec3.rs:65-67 | `dot(u, v) == dot(v, u)` |
| Vectors.DotSelf | src/vec3.rs:49-67 | `dot(u, u) == length_squared(u) >= 0` |
| Vectors.DotScale | src/vec3.rs:146-156 | `dot(k * u, v) == k * dot(u, v)` |
| Vectors.ScaledLengthSquared | src/vec3.rs:146-156 | `length_squared(k * u) == k^2 * length_squared(u)` |
| Vectors.DotSumsMul | src/vec3.rs:158-168 | the componentwise product is commutative, and its components sum to the dot product |
| Vectors.CrossOrthogonal | src/vec3.rs:69-75 | `cross(u, v)` is orthogonal to both u and v |
| Vectors.UnitVector | src/vec3.rs:77-80 | the result has length 1, is a positive multiple of the input, and its dot with the input is the input's length |
| Vectors.RandomInUnitSphere | src/vec3.rs:82-92 | the result is the first candidate with `length_squared < 1`; no result means no candidate qualified |
| Vectors.RandomOnHemisphere | src/vec3.rs:98-105 | the result is the sampled vector or its negation, the sample itself when its dot with the normal is positive, and its dot with the normal is `>= 0` |
| Vectors.ReflectNegatesNormalComponent | src/vec3.rs:107-112 | with a unit normal, `dot(reflect(v, n), n) == -dot(v, n)` |
| Vectors.ReflectPreservesLength | src/vec3.rs:107-112 | with a unit normal, reflection keeps `length_squared` |
| Vectors.ReflectInvolutive | src/vec3.rs:107-112 | with a unit normal, reflecting twice gives the vector back |
| Vectors.AddSubInverse | src/vec3.rs:125-192 | `(u + v) - v == u` and `(u - v) + v == u` |
| Vectors.NegIsAdditiveInverse | src/vec3.rs:170-180 | `v + (-v)` is zero and `-(-v) == v` |
| Vectors.AddAssign | src/vec3.rs:138-144 | after `v += rhs`, v is `v + rhs` componentwise, and subtracting `rhs` gives the old v back |
| Vectors.ScaleUndoesDiv | src/vec3.rs:194-200 | `v / t` is `(1/t) * v`, which scaling by t undoes |
| Colors.New | src/vec3/color.rs:14-33 | the getters `r`, `g` and `b` return the three values given to `Color::new` |
| Colors.NewZeroes | src/vec3/color.rs:18-20 | all three channels are 0 |
| Colors.Color.R | src/vec3/color.rs:23-25 | the first component; property in Colors.New |
| Colors.Color.G | src/vec3/color.rs:27-29 | the second component; property in Colors.New |
| Colors.Color.B | src/vec3/color.rs:31-33 | the third component; property in Colors.New |
| Colors.Intensity | src/vec3/color.rs:45 | `INTENSITY`, the interval `[0, 0.999]`; properties in ClampedGamma and ChannelByteIsFloor |
| Colors.ChannelByte | src/vec3/color.rs:38-40 | one channel of `output_color`: `(INTENSITY.clamp(linear_to_gamma(c)) * 256) as u8`; properties in ChannelByteIsFloor, ChannelByteMonotone, FullIntensityIs255 |
| Colors.Scale | src/vec3/color.rs:58-64 | `Mul<Color> for f64`, scaling the wrapped vector; properties in AddScaled and ScaleScale |
| Colors.Add | src/vec3/color.rs:66-72 | `Add for Color`, adding the wrapped vectors; properties in AddScaled and AddZeroes |
| Colors.Color.OutputColor | src/vec3/color.rs:36-42 | three bytes, one per channel, each the channel's quantised value |
| Colors.LinearToGamma | src/vec3/color.rs:48-54 | 0 for inputs `<= 0`, otherwise the square root; the result is `>= 0` |
| Colors.AsU8 | src/vec3/color.rs:38-40 | `as u8`: the floor of values in `[0, 256)`, and saturation at both ends |
| Colors.ClampedGamma | src/vec3/color.rs:38-45 | every channel is clamped into `INTENSITY = [0, 0.999]` before scaling |
| Colors.ChannelByteIsFloor | src/vec3/color.rs:38-45 | each byte is `floor(256 * clamp(gamma(c)))` and at most 255, so the cast never saturates |
| Colors.GammaMonotone | src/vec3/color.rs:48-54 | `linear_to_gamma` is monotone |
| Colors.ChannelByteMonotone | src/vec3/color.rs:36-54 | each output byte is monotone non-decreasing in its channel |
| Colors.OutputOfBlack | src/vec3/color.rs:36-54 | `output_color` of (0,0,0) is [0,0,0] |
| Colors.FullIntensityIs255 | src/vec3/color.rs:36-54 | a channel at 1 or above comes out as 255 |
| Colors.OutputOfTenthsIsGammaCorrected | src/vec3/color.rs:94-105 | (0.1, 0.2, 0.3) comes out as [80, 114, 140], not the [25, 51, 76] the unit test expects |
| Colors.AddScaled | src/vec3/color.rs:58-72 | `k * c + c == (k + 1) * c` |
| Colors.ScaleScale | src/vec3/color.rs:58-64 | `s * (t * c) == (s * t) * c` |
| Colors.AddZeroes | src/vec3/color.rs:66-72 | black is the identity of colour addition |
| Hittables.NewHitRecord | src/hittable.rs:12-14 | `HitRecord::new` stores p, normal and t unchanged |
| Hittables.NewSphere | src/hittable.rs:29-31 | `Sphere::new` stores centre and radius unchanged |
| Hittables.Sphere.ToCenter | src/hittable.rs:36 | `oc = center - origin` |
| Hittables.Sphere.A | src/hittable.rs:37 | `a = length_squared(dir)`; used by DistanceAlongRay and Sphere.Hit |
| Hittables.Sphere.H | src/hittable.rs:38 | `h = dot(dir, oc)`; used by DistanceAlongRay and Sphere.Hit |
| Hittables.Sphere.C | src/hittable.rs:39 | `c = length_squared(oc) - radius^2`; used by DistanceAlongRay and Sphere.Hit |
| Hittables.Discriminant | src/hittable.rs:40 | `h*h - a*c`; properties in DiscriminantAtRoot |
| Hittables.NearRoot | src/hittable.rs:46-49 | `(h - sqrt(disc)) / a`; properties in RootSolves, OnlyRoots, RootsOrdered, SelectRoot |
| Hittables.FarRoot | src/hittable.rs:46-51 | `(h + sqrt(disc)) / a`; properties in RootSolves, OnlyRoots, RootsOrdered, SelectRoot |
| Hittables.OutsideRange | src/hittable.rs:50-52 | `root <= tmin \|\| tmax <= root`; property in OutsideRangeIsNotSurrounds |
| Hittables.OutsideRangeIsNotSurrounds | src/hittable.rs:50-52 | the test `root <= tmin \|\| tmax <= root` is exactly `!Interval{tmin, tmax}.surrounds(root)` |
| Hittables.SelectRoot | src/hittable.rs:40-55 | negative discriminant gives no root; a selected root is strictly inside `(tmin, tmax)`; the smaller root is chosen when it is inside; the larger root only when the smaller is not; no root exactly when the discriminant is negative or neither root is inside |
| Hittables.DiscriminantAtRoot | src/hittable.rs:40 | a root t of `a*t^2 - 2*h*t + c` makes the discriminant `(a*t - h)^2` |
| Hittables.RootSolves | src/hittable.rs:46-51 | `(h ∓ sqrt(disc)) / a` both solve the reduced quadratic |
| Hittables.OnlyRoots | src/hittable.rs:46-51 | every solution of the reduced quadratic is one of the two roots |
| Hittables.RootsOrdered | src/hittable.rs:49-51 | the root tried first is the smaller one |
| Hittables.SelectedRootSolves | src/hittable.rs:40-55 | a selected root solves the quadratic |
| Hittables.SelectRootIsNearest | src/hittable.rs:40-55 | if some t strictly inside `(tmin, tmax)` solves the quadratic, a root is selected and it is at most t |
| Hittables.Sphere.Hit | src/hittable.rs:35-62 | the negative-discriminant `None`, the strict range, the preference for the smaller root, the fallback to the larger and when the result is `None`, all over the ray's `a`, `h` and `c`; `p == point_at(t)` and `normal == (p - center) / radius` |
| Hittables.DistanceAlongRay | src/hittable.rs:36-39 | `\|point_at(t) - center\|^2 - radius^2 == a*t^2 - 2*h*t + c` |
| Hittables.OnSurfaceIffQuadratic | src/hittable.rs:36-40 | `point_at(t)` is on the sphere iff t solves the reduced quadratic |
| Hittables.HitIsOnSurface | src/hittable.rs:35-62 | a returned hit point lies on the sphere |
| Hittables.HitNormalIsUnit | src/hittable.rs:57-61 | with `a > 0` and `radius != 0`, a returned normal has `length_squared == 1` |
| Hittables.HitIsNearest | src/hittable.rs:35-62 | if the ray meets the sphere at some t strictly inside `(tmin, tmax)`, there is a hit and its t is at most that t |
| Hittables.HeadOnHitsNearSide | src/hittable.rs:35-62 | a ray from the origin along -z hits a sphere centred at distance d with radius r at `t == d - r`, with normal (0, 0, 1) |
| Materials.DefaultScatter | src/material.rs:8-11 | the default `scatter` returns `None` |
| Materials.NewLambertian | src/material.rs:19-21 | the albedo is stored unchanged |
| Materials.Lambertian.Scatter | src/material.rs:30-40 | always `Some`, with attenuation albedo and origin `hit_record.p`; direction `normal` when `normal + rand` is near zero, else `normal + rand` |
| Vectors.NearZeroIsShort | src/vec3.rs:57-62 | a near-zero vector has `length_squared < 1` |
| Materials.LambertianDirectionNotDegenerate | src/material.rs:31-37 | when the normal is not near zero, the scattered direction is not near zero |
| Materials.LambertianOnUnitNormal | src/material.rs:31-37 | with a unit normal, the scattered direction is never near zero |
| Materials.LambertianFallsBackToNormal | src/material.rs:31-37 | the random vector `-normal` makes the sum zero, and the normal is used |
| Materials.NewMetal | src/material.rs:50-56 | fuzz is stored as `min(fuzz, 1)`: unchanged below 1, else 1, with no lower clamp |
| Materials.NewMetalIdempotent | src/material.rs:50-56 | building a metal from an already capped fuzz changes nothing |
| Materials.NewMetalKeepsSmallFuzz | src/material.rs:50-56 | a fuzz below 1, negative included, is kept |
| Materials.NewMetalCapsLargeFuzz | src/material.rs:50-56 | a fuzz of 1 or more becomes 1 |
| Materials.Metal.FuzzedDirection | src/material.rs:62-63 | `unit_vector(reflect(d, n)) + fuzz * rand`; properties in Metal.Scatter and MirrorScattersIncomingRays |
| Materials.Metal.Scatter | src/material.rs:61-71 | `Some` iff `dot(unit(reflect(d, n)) + fuzz * rand, n) > 0`; a `Some` has attenuation albedo, origin `hit_record.p` and that direction |
| Materials.MirrorScattersIncomingRays | src/material.rs:61-71 | with fuzz 0 and a unit normal, a ray scatters iff it arrives against the normal, and the scattered direction is a unit vector |
| Materials.MetalScatterDefined | src/material.rs:62-63 | with a unit normal and a nonzero incoming direction, the reflection is nonzero, so `unit_vector` is defined |
| Cameras.New | src/camera.rs:22-58 | `center` is 0, `samples_per_pixel` 10, `pixel_samples_scale` 0.1, and the viewport lies in a plane of constant z other than the camera's |
| Cameras.NewGeometry | src/camera.rs:26-48 | `pixel_delta_u = (2/H, 0, 0)`, `pixel_delta_v = (0, -2/H, 0)` and `pixel00_loc = (-W/H + 1/H, 1 - 1/H, -1)`: the upper-left corner inset by half a pixel |
| Cameras.PixelsAreSquare | src/camera.rs:29-39 | one pixel step right is as long as one step down |
| Cameras.PixelCentresSymmetric | src/camera.rs:42-48 | pixel `(u, v)` mirrors pixel `(W-1-u, H-1-v)` through the view axis |
| Cameras.SampleSquare | src/camera.rs:94-97 | the offset has z = 0, and x and y in `[-0.5, 0.5)` when the draws are |
| Cameras.GetRay | src/camera.rs:81-89 | the ray starts at `center`, and at t = 1 it reaches `pixel00 + (u+ox)*du + (v+oy)*dv` |
| Cameras.GetRayDirectionNonzero | src/camera.rs:81-89 | every generated ray of a viewport-facing camera has a nonzero direction |
| Cameras.SampleInsidePixel | src/camera.rs:81-97 | a jittered sample lands in its pixel's cell of the viewport, left and top edges included |
| Cameras.RayColor | src/camera.rs:100-117 | a hit maps each normal component n to `(n + 1) / 2`; a miss gives red `1 - a/2`, green `1 - 0.3a` and blue 1, with `a = (unit_dir.y + 1) / 2` |
| Cameras.RayColorInUnitRange | src/camera.rs:100-117 | with unit normals, every channel is in [0, 1]; on a miss red is at least 0.5 and green at least 0.7 |
| Vectors.UnitVectorOfUnit | src/vec3.rs:77-80 | `unit_vector` leaves a unit vector unchanged |
| Cameras.BackgroundExtremes | src/camera.rs:110-115 | a miss straight up is sky blue (0.5, 0.7, 1); straight down is white |
| Cameras.SampleColor | src/camera.rs:68-70 | `ray_color` of the ray `get_ray` builds from sample s's jitter; properties in ConstantSampleSum and ConstantPixelColor |
| Cameras.SampleSum | src/camera.rs:66-71 | the sum of the first k samples added to black in order; the loop of AccumulateSamples is proved equal to it |
| Cameras.PixelColor | src/camera.rs:66-72 | `pixel_samples_scale` times the sum of `samples_per_pixel + 1` samples; Render stores its output bytes, and ConstantPixelColor evaluates it |
| Cameras.AccumulateSamples | src/camera.rs:66-71 | the accumulator ends as the sum of samples `0..=samples_per_pixel`, that is `samples_per_pixel + 1` of them |
| Cameras.RenderRow | src/camera.rs:61-77 | every pixel of the row holds the bytes of its scaled sample sum; other rows are unchanged |
| Cameras.Render | src/camera.rs:61-77 | every pixel holds the bytes of its sample sum scaled by `pixel_samples_scale` |
| Cameras.ConstantSampleSum | src/camera.rs:66-71 | k samples that all have colour c sum to `k * c` |
| Cameras.ConstantPixelColor | src/camera.rs:66-72 | constant samples c give `scale * (spp + 1) * c`, which is `1.1 * c` for a camera from `new` |

## Left out

- IEEE-754 behaviour: rounding, NaN, signed zeros and overflow. Doubles are reals, and only the infinities of interval bounds are kept.
- The square root is a parameter constrained by `IsSqrt`, not computed, because Dafny's reals have no square root.
- `thread_rng`, `Vec3::new_random` and `Vec3::new_random_in_range` (src/vec3.rs:29-46) and `random_unit_vector` (src/vec3.rs:94-96): their draws are parameters of the members that use them.
- Vectors.RandomInUnitSphere: takes a finite sequence of candidates and returns `None` when none of them lies inside the unit ball. The source loop draws until one does, and it has no termination argument.
- Vectors.AddAssign: takes and returns a value instead of updating through `&mut self`. `Vec3` is a `Copy` value with a unique mutable borrow, so nothing else observes the update.
- Vectors.UnitVector: requires a nonzero input. The source divides by the zero length and produces infinities or NaN.
- Hittables.Sphere.Hit: requires `a > 0` and `radius != 0`. The source divides by both and yields NaN or infinities otherwise.
- Materials.Metal.Scatter: requires the reflected direction to be nonzero, which `unit_vector` needs. With a unit normal, `MetalScatterDefined` shows that any nonzero incoming direction meets this requirement.
- Cameras.New: requires a nonzero image width and height, which the source divides by.
- Cameras.RayColor: requires a nonzero direction for a ray that misses, which `unit_vector` needs. `GetRayDirectionNonzero` shows that every camera ray meets this requirement.
- Cameras.Render: requires a camera whose viewport faces it (`FacesViewport`), which every camera from `New` does.
- Cameras.Render: the pixel loop is written as rows, then columns, with a method per row. This is the order of `enumerate_pixels_mut`.
- Cameras.Render: the `image` buffer is a two-dimensional array of byte triples. Its `&mut self` receiver is not changed by the source and is passed by value.
- Cameras.Render: the jitter oracle is indexed by pixel and sample number, so each draw is fixed by where it is made.
- `HittableList` is not part of this model: its source is not available. The world is an abstract hit function.
- The call `world.hit(r, Interval)` does not match `Hittable::hit(r, tmin, tmax)`. The world takes the interval directly.
- `refract` (src/vec3.rs:114-120) has no caller and takes the square root of a possibly negative value.
- There is no dielectric material, `front_face` or material field in a hit record, and no recursion depth in `ray_color`.
- Image output and the binaries: `main.rs`, `lib.rs` and the `image` crate's `save`.
- The unit test at src/vec3/color.rs:94-105 expects [25, 51, 76], which leaves out the gamma step. The model follows the code; see `OutputOfTenthsIsGammaCorrected`.
- A fully saturated channel comes out as 255 (`floor(0.999 * 256)`), as the code computes.
