# A verified model of the core of "Ray Tracing in One Weekend"

This project models the renderer of `CodingCellist/ray-tracing-in-a-weekend`, a
C++ path tracer. The core it follows:

- **Vectors** (`vec3.dfy`, module `Vectors`). The `Vec3` algebra: operators, dot
  and cross products, `unit_vector`, `near_zero`, `reflect` and `refract`. The
  three rejection-sampling helpers. The in-place compound assignments `+=`, `*=`
  and `/=`, on a class `MutableVec3` whose coordinates live in an array.
- **Rays** (`ray.dfy`). A ray and its point `at(t)`.
- **The intersection protocol** (`hittable.dfy`). The query interval
  `[t_min, t_max]`, whose upper end may be infinite. The hit record is a class
  `HitRecord` that the intersection tests write field by field, and
  `set_face_normal` is its method.
- **Spheres** (`sphere.dfy`). `Sphere::hit` appears twice:
  - as the function `Intersect`, which gives the hit it reports;
  - as the method `HitSphere`, which writes the caller's record.
- **The scene list** (`hittable_list.dfy`). `Hittable_List` as a class with
  `add`, `clear`, both constructors, and the `hit` loop that narrows
  `closest_so_far`. The loop is proved equal to `ClosestHit`: the nearest of the
  members' own answers, where the last member wins a tie.
- **Materials** (`material.dfy`). Lambertian, metal and dielectric scattering,
  the fuzz clamp and Schlick's reflectance.
- **The camera** (`camera.dfy`). The thin-lens camera and `get_ray`.
- **The renderer** (`main.dfy`). `ray_colour` as a recursive function. The
  per-pixel sampling loop and the scanline loops as methods, each proved equal
  to a specification function over the image.

Three things from outside the program are not modelled as computations:

- **Floating point.** It is modelled as exact real arithmetic.
- **`sqrt`.** Every function that needs it receives it as a parameter.
  Properties that depend on its value assume `Reals.IsSqrt`: the parameter is
  the non-negative square root of every non-negative real.
- **Random numbers.** Every random draw is an explicit input:
  - a rejection loop takes its finite stream of candidates;
  - a scatter takes a `ScatterDraw`;
  - `ray_colour` takes one draw per remaining depth;
  - each sample of a pixel takes a `SampleDraw`.

## Model

| member | source | states |
|---|---|---|
| Vectors.Neg | rtiaw-src/Vec3.hpp:29-32 | unary minus gives the additive inverse: `v + (-v) == 0` |
| Vectors.Sub | rtiaw-src/Vec3.hpp:115-120 | subtraction undoes addition: `(u - v) + v == u` |
| Vectors.DivUndoesScale | rtiaw-src/Vec3.hpp:143-146 | for a non-zero `t`, dividing by `t` (computed as `(1/t) * v`) and multiplying by `t` undo each other, in both orders |
| Vectors.LengthSquared | rtiaw-src/Vec3.hpp:65-67 | `length_squared` is `dot(v, v)`, is never negative, and is zero exactly for the zero vector |
| Vectors.Cross | rtiaw-src/Vec3.hpp:155-161 | the cross product is orthogonal to both arguments |
| Vectors.DotSymmetric | rtiaw-src/Vec3.hpp:149-153 | `dot` is symmetric |
| Vectors.DotScale | rtiaw-src/Vec3.hpp:149-153 | scaling an argument of `dot` scales the product |
| Vectors.ScaledLengthSquared | rtiaw-src/Vec3.hpp:130-136 | scaling by `t` multiplies the squared length by `t * t` |
| Vectors.ZeroIsNearZero | rtiaw-src/Vec3.hpp:83-86 | the zero vector is near zero |
| Vectors.NearZeroIsShort | rtiaw-src/Vec3.hpp:83-86 | a near-zero vector has squared length below `3e-16` |
| Vectors.UnitIsNotNearZero | rtiaw-src/Vec3.hpp:83-86 | no unit vector is near zero |
| Vectors.UnitVectorIsUnit | rtiaw-src/Vec3.hpp:164-166 | for a non-zero `v`, `unit_vector(v)` has length 1, and `v.length()` times it gives back `v` |
| Vectors.UnitVectorKeepsSign | rtiaw-src/Vec3.hpp:164-166 | normalising keeps the sign of a negative dot product with another vector |
| Vectors.Reflect | rtiaw-src/Vec3.hpp:217-219 | for a unit normal, the normal component of the reflection is the negated normal component of `v` |
| Vectors.ReflectTwice | rtiaw-src/Vec3.hpp:217-219 | reflecting twice in the same unit normal gives back the vector |
| Vectors.ReflectLeavesSurface | rtiaw-src/Vec3.hpp:217-219 | a vector arriving against a unit normal leaves on the normal's side |
| Vectors.RefractedPerp | rtiaw-src/Vec3.hpp:222-226 | when the cosine is not capped, `r_out_perp` is the tangential part of `uv` times the index ratio, and it is orthogonal to the normal |
| Vectors.RefractSnell | rtiaw-src/Vec3.hpp:222-231 | Snell's law: the refracted direction's tangential part is the incoming tangential part times the ratio, its normal component is never positive, and it has unit length whenever that tangential part is at most unit length (no total internal reflection) |
| Vectors.OrthogonalSum | rtiaw-src/Vec3.hpp:228-230 | adding `-s n` to a vector orthogonal to a unit normal `n` adds `s^2` to its squared length |
| Vectors.RandomInUnitSphere | rtiaw-src/Vec3.hpp:169-178 | returns the first candidate of the stream strictly inside the unit ball, after rejecting every earlier one; reports exhaustion when none is inside |
| Vectors.RandomInUnitDisk | rtiaw-src/Vec3.hpp:199-210 | the same for the unit disk in the plane `z = 0` |
| Vectors.RandomInHemisphere | rtiaw-src/Vec3.hpp:186-196 | returns the drawn point or its negation, whichever is on the normal's side: the point when its dot product with the normal is positive, its negation otherwise (including a dot product of exactly 0) |
| Vectors.MutableVec3.constructor | rtiaw-src/Vec3.hpp:12-13 | a fresh vector holding the given coordinates |
| Vectors.MutableVec3.AddAssign | rtiaw-src/Vec3.hpp:42-47 | `+=` replaces the value by its sum with `v` |
| Vectors.MutableVec3.MulAssign | rtiaw-src/Vec3.hpp:49-54 | `*=` scales the value by `t` |
| Vectors.MutableVec3.DivAssign | rtiaw-src/Vec3.hpp:56-58 | `/=` is `*= 1/t`; for a non-zero `t`, multiplying the new value by `t` gives back the old one |
| Rays.At | rtiaw-src/Ray.hpp:24-26 | the offset of `at(t)` from the origin is `t` times the direction |
| Rays.AtZero | rtiaw-src/Ray.hpp:24-26 | `at(0)` is the origin |
| Rays.AtAffine | rtiaw-src/Ray.hpp:24-26 | `at(s + t)` is `at(s)` moved by `t` times the direction |
| Hittables.FaceNormal | rtiaw-src/Hittable.hpp:21-26 | it is the front face exactly when the ray travels against the outward normal; the stored normal is the outward one, or its negation, chosen to point against the ray, with the same length |
| Hittables.HitRecord.constructor | rtiaw-src/Hittable.hpp:9-19 | a record holding the given hit |
| Hittables.HitRecord.SetFaceNormal | rtiaw-src/Hittable.hpp:21-26 | writes `front_face` and `normal` as `FaceNormal` gives them and leaves `p`, `t` and the material alone |
| Hittables.HitRecord.CopyFrom | Hittable_List.hpp:50 | `rec = temp_rec` copies every field |
| Spheres.Intersect | rtiaw-src/Sphere.hpp:23-57 | gives no hit for a negative discriminant; otherwise gives the near root if it is in the closed interval, else the far root if that is, else no hit. A hit lies at `at(t)`, carries the sphere's material and the `set_face_normal` facing of the outward normal, and its normal points against the ray |
| Spheres.HitSphere | rtiaw-src/Sphere.hpp:23-57 | returns true exactly when `Intersect` finds a hit, and then writes that hit into `rec`; on a miss `rec` is unchanged |
| Spheres.HitIsOnSphere | rtiaw-src/Sphere.hpp:24-46 | for a non-zero direction, the reported point lies on the sphere: its squared distance from the centre is `radius^2` |
| Spheres.RootsSolveQuadratic | rtiaw-src/Sphere.hpp:39-46 | both roots of the half-b formula solve the sphere equation |
| Spheres.SphereEquation | rtiaw-src/Sphere.hpp:24-31 | the squared distance of `at(t)` from the centre, minus `radius^2`, is the quadratic with coefficients `a`, `2 half_b` and `c` |
| Spheres.HitNormalIsUnit | rtiaw-src/Sphere.hpp:49-52 | for a non-zero radius and direction, the outward normal `(p - center) / radius` and the stored normal have unit length |
| Spheres.NegativeRadiusPointsInward | rtiaw-src/Sphere.hpp:51 | for a negative radius, the "outward" normal points towards the centre |
| Spheres.NearBeforeFar | rtiaw-src/Sphere.hpp:39-42 | the root tried first is never beyond the second |
| Spheres.NarrowedQuery | rtiaw-src/Sphere.hpp:38-46 | lowering the upper end to some `b` keeps the hit exactly when its `t` is at most `b` |
| HittableLists.Keep | Hittable_List.hpp:47-51 | one scan step: a member's hit replaces the best so far when there is none or it is at most as far, so on a tie the later member's hit wins; a miss or a strictly farther hit keeps the best; the result is never farther than either |
| HittableLists.Nearest | Hittable_List.hpp:46-52 | the scan's result, when there is one, is one of the members' answers |
| HittableLists.ClosestHit | Hittable_List.hpp:41-55 | the list's answer lies in the query interval |
| HittableLists.HittableList.constructor | Hittable_List.hpp:15 | the default list is empty |
| HittableLists.HittableList.Single | Hittable_List.hpp:16-18 | the one-object constructor holds just that object |
| HittableLists.HittableList.Clear | Hittable_List.hpp:22-24 | `clear` empties the list |
| HittableLists.HittableList.Add | Hittable_List.hpp:27-29 | `add` appends at the end and keeps the existing members |
| HittableLists.HittableList.Hit | Hittable_List.hpp:41-55 | the loop that narrows `closest_so_far` returns true exactly when `ClosestHit` finds a hit, then leaves that hit in `rec`; otherwise `rec` is unchanged |
| HittableLists.ScanStep | Hittable_List.hpp:47-51 | querying a member over `[t_min, closest_so_far]` updates the best hit exactly as `Keep` does with the member's answer to the full query |
| HittableLists.ScanPrefix | Hittable_List.hpp:46-52 | each member extends the scan by one `Keep`, and the best hit so far stays in range |
| HittableLists.NearestMisses | Hittable_List.hpp:41-55 | the scan finds nothing exactly when every answer is a miss |
| HittableLists.NearestIsLastNearest | Hittable_List.hpp:46-52 | the scan finds the last of the nearest answers: no answer is nearer, and every later hit is strictly farther |
| HittableLists.ClosestHitMisses | Hittable_List.hpp:41-55 | the list misses exactly when every member misses on its own; the empty list never hits |
| HittableLists.ClosestHitIsNearest | Hittable_List.hpp:41-55 | a reported hit is member `k`'s own hit; no member is nearer, and every later member that hits is strictly farther |
| HittableLists.ClosestSoFarNeverIncreases | Hittable_List.hpp:44-51 | `closest_so_far` never grows as the scan proceeds |
| HittableLists.LaterTieWins | Hittable_List.hpp:47 | of two spheres of the same shape, the later one's material is reported |
| Materials.MakeMetal | rtiaw-src/Material.hpp:46 | the fuzz is clamped to at most 1 and kept when below 1 |
| Materials.Reflectance | rtiaw-src/Material.hpp:107-112 | Schlick's reflectance is `r0` at normal incidence and 1 at grazing incidence, and a probability for a cosine in `[0,1]` and a non-negative index |
| Materials.ReflectanceAtNormalIsProbability | rtiaw-src/Material.hpp:109-110 | `r0 = ((1 - n) / (1 + n))^2` lies in `[0,1]` for a non-negative index |
| Materials.Blend | rtiaw-src/Material.hpp:111 | `r0 + (1 - r0) p` stays in `[0,1]` |
| Scattering.LambertianScatter | rtiaw-src/Material.hpp:20-37 | always scatters from the hit point with the albedo as attenuation; the direction is never near zero unless it is exactly the normal |
| Scattering.MetalScatter | rtiaw-src/Material.hpp:48-58 | the fuzzed mirror reflection of the unit direction, attenuated by the albedo; it scatters exactly when the ray leaves on the normal's side |
| Scattering.PerfectMirrorScatters | rtiaw-src/Material.hpp:48-58 | a fuzz-0 metal hit from the front reflects exactly and always scatters |
| Scattering.CosTheta | rtiaw-src/Material.hpp:79 | the capped cosine is at most 1 |
| Scattering.DielectricScatter | rtiaw-src/Material.hpp:70-100 | always scatters from the hit point with white attenuation; reflects under total internal reflection or when the draw is below Schlick's reflectance, and refracts otherwise |
| Scattering.TotalInternalReflection | rtiaw-src/Material.hpp:84-92 | under total internal reflection the dielectric reflects whatever the draw |
| Scattering.Scatter | rtiaw-src/Material.hpp:10-12 | the scattered ray leaves from the hit point; the attenuation is the material's albedo, or white for a dielectric; only a metal can absorb |
| Cameras.MakeCamera | rtiaw-src/Camera.hpp:10-42 | `w` is the unit vector from `lookAt` to `lookFrom`, `u` is the unit `vup x w`, and `v = w x u`; the origin is `lookFrom` and the lens radius is half the aperture |
| Cameras.FramedCamera | rtiaw-src/Camera.hpp:23-41 | the spans are `focus_dist` times the viewport width along `u` and the viewport height along `v`, and the width is the aspect ratio times the height |
| Cameras.FrameIsOrthonormal | rtiaw-src/Camera.hpp:26-28 | for `lookFrom != lookAt` and a `vup` not parallel to the view direction, `u`, `v` and `w` have unit length and are pairwise orthogonal |
| Cameras.CrossLength | rtiaw-src/Vec3.hpp:155-161 | Lagrange's identity for the cross product: its squared length is `|a|^2 |b|^2 - (a . b)^2` |
| Cameras.CameraRaysLeaveFromLens | rtiaw-src/Camera.hpp:46-55 | for a camera the constructor builds, as in `FrameIsOrthonormal`, and a unit-disk sample, every ray leaves within `aperture / 2` of `lookFrom` |
| Cameras.VerticalAxisIsOrthogonal | rtiaw-src/Camera.hpp:26-28 | `v` is orthogonal to `u` and `w` |
| Cameras.ViewportCentre | rtiaw-src/Camera.hpp:37-38 | the viewport's centre is `focus_dist` straight ahead along `-w` |
| Cameras.GetRay | rtiaw-src/Camera.hpp:46-55 | the ray leaves from the origin plus the lens offset and passes through the viewport point at `(s, t)`, whatever the lens sample |
| Cameras.CentralRay | rtiaw-src/Camera.hpp:46-55 | `get_ray(0.5, 0.5)` with the lens centre leaves from `lookFrom` along `-focus_dist * w` |
| Cameras.PinholeRaysLeaveFromLookFrom | rtiaw-src/Camera.hpp:46-55 | with zero aperture every ray leaves from `lookFrom` |
| Cameras.RayLeavesFromLens | rtiaw-src/Camera.hpp:48-52 | for an orthonormal frame and a disk sample, the ray leaves within the lens radius of the origin |
| Render.Background | rtiaw-src/main.cpp:33-35 | the sky blends white into `(0.5, 0.7, 1.0)` by `t`, channel by channel, and its blue channel is always 1 |
| Render.SkyBlendIsFraction | rtiaw-src/main.cpp:33-34 | the blend factor `0.5 * (unit.y + 1)` lies in `[0,1]` |
| Render.BackgroundIsGradient | rtiaw-src/main.cpp:33-35 | every background colour lies between `(0.5, 0.7, 1.0)` and white |
| Render.RayColour | rtiaw-src/main.cpp:12-36 | black once the depth is used up |
| Render.HitColour | rtiaw-src/main.cpp:25-30 | black when the material does not scatter |
| Render.Bounces | rtiaw-src/main.cpp:12-36 | the number of scatters along a path is at most the depth |
| Render.HitBounces | rtiaw-src/main.cpp:25-30 | the same for a path that hit something |
| Render.DepthLimitAbsorbs | rtiaw-src/main.cpp:15-18 | a path that scatters as often as the depth allows is absorbed: its colour is black |
| Render.UnseenWorldShowsSky | rtiaw-src/main.cpp:21-35 | a ray that no sphere hits sees the background; so does every ray of an empty world |
| Render.OnlyOwnDrawsMatter | rtiaw-src/main.cpp:12-36 | a ray's colour depends only on the draws of its own bounces |
| Render.HitMaterialIsFromWorld | rtiaw-src/main.cpp:21 | the material of the reported hit belongs to a sphere of the world |
| Render.AttenuationIsAlbedo | rtiaw-src/main.cpp:27 | a material whose albedo is in `[0,1]` attenuates by a colour in `[0,1]` |
| Render.ColourInUnitCube | rtiaw-src/main.cpp:12-36 | when every albedo is in `[0,1]`, every channel of every ray's colour is in `[0,1]` |
| Render.BoundedColour | rtiaw-src/main.cpp:12-36 | the same, by induction on the depth, given that every background colour is in the unit cube |
| Render.SampleRayThroughViewport | rtiaw-src/main.cpp:163-166 | a sample's ray leaves from the lens and passes through the viewport point at its jittered coordinates |
| Render.JitteredCoordinate | rtiaw-src/main.cpp:163-164 | `(i + du) / (n - 1)` is at least 0; it is below 1 for every index but the last, and the last one's samples go past 1 |
| Render.SettingsOfMain | rtiaw-src/main.cpp:130-134 | the image settings are 1200 by 800 pixels, 500 samples per pixel and a depth of 50 |
| Render.SampleSum | rtiaw-src/main.cpp:159-169 | the accumulation starts from black |
| Render.RenderPixel | rtiaw-src/main.cpp:159-169 | `pixel_colour` is the sum of the colours of the `samples_per_pixel` samples, each counted once |
| Render.SampleSumBound | rtiaw-src/main.cpp:159-169 | the sum of `n` colours of the unit cube has every channel in `[0, n]` |
| Render.PixelSumBound | rtiaw-src/main.cpp:159-169 | when every albedo is in `[0,1]`, each channel of a pixel's sum of `n` samples is in `[0, n]` |
| Render.Scanline | rtiaw-src/main.cpp:157-171 | a row has `img_width` pixels, and pixel `i` is the pixel colour at `(i, j)` |
| Render.Frame | rtiaw-src/main.cpp:154-172 | the image has `img_height` rows, from the top row `j = img_height - 1` down to `j = 0` |
| Render.RenderRow | rtiaw-src/main.cpp:157-171 | the `i` loop produces exactly the row `Scanline` describes |
| Render.RenderImage | rtiaw-src/main.cpp:154-172 | the `j` loop that counts down produces exactly `Frame` |

## Left out

- Floating point: doubles are exact reals. No rounding, overflow, infinities or NaN.
- Division by zero: it is `Reals.Quot`, which returns 0 where IEEE gives an infinity or a NaN.
  - This matters for a zero radius, a zero direction and `img_width == 1`.
  - Most properties that involve such a division assume a non-zero divisor.
  - Some properties also cover a ray with a zero direction, and they hold there only because `Quot` collapses that division. `unit_vector` of the zero vector is then the zero vector, and the sky blend is 0.5, where the source computes NaN. These properties are:
    - Render.SkyBlendIsFraction
    - Render.BackgroundIsGradient
    - Render.ColourInUnitCube
    - Render.BoundedColour
    - Render.PixelSumBound
- `sqrt`, `tan` and `pow`:
  - `sqrt` is a parameter, and `Reals.IsSqrt` states what is assumed of it;
  - `tan(degrees_to_radians(vfov) / 2)` is the camera parameter `h`, so `degrees_to_radians` is not modelled;
  - `pow(x, 5)` is written out as a product.
- Randomness: `random_double` and `Vec3::random` are not modelled. What they return is an input:
  - a candidate stream for the rejection loops;
  - a `ScatterDraw` per bounce;
  - a `SampleDraw` per sample.
- `random_unit_vector` is the `unit_vector` of the point `random_in_unit_sphere` draws. The Lambertian rule takes that point from its `ScatterDraw`.
- Vectors.RandomInUnitSphere, Vectors.RandomInUnitDisk: the source's loops never give up. A finite candidate stream can run out, and the model then returns `None`.
- I/O:
  - the PPM header;
  - `write_colour`, which averages, gamma-corrects, clamps and prints;
  - the progress messages on the error stream.

  `Colour.hpp` is not part of this model. Render.RenderImage returns the rows it would have written.
- Scene construction: `dev_scene` and `random_scene` are not modelled; the world is a parameter.
  - The camera settings of `main` are the arguments of Cameras.MakeCamera.
  - The image settings are `Render.Settings` (Render.SettingsOfMain).
- List members: only spheres. `Hittable` is an abstract base with spheres and lists as its only implementations, and the program never nests a list inside a list.
- Pointers: `shared_ptr` aliasing of materials is not modelled. A material is a value, and two spheres that share a material hold equal values.
- HittableLists.HittableList.Hit requires `Reals.IsSqrt`. Narrowing the query relies on the near root being the smaller one, so the proof needs a non-negative square root.
- Render.RayColour and the render loops: the colour is specified by the recursion itself. Its meaning is given by the lemmas about it:
  - the depth limit;
  - an empty or missed world;
  - the bound on the channels;
  - dependence on its own draws only.
- Closed interval: the code accepts a root when it equals `t_min` or `t_max`, so the interval is closed. The model follows the code; an open interval would differ.
  - A consequence: when two list members hit at the same `t`, the later one wins (HittableLists.LaterTieWins). So the order of members can change the reported material.
- The root-level copies of the headers and of `main.cpp` are an older snapshot and are not part of this model. `Hittable_List.hpp` exists only there, and it is modelled from there.
