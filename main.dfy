/** The renderer of `main.cpp`: `ray_colour`, which follows a ray through
    the world bounce by bounce, and the loops that sum `samples_per_pixel`
    jittered rays into each pixel.  The random numbers a ray consumes are
    supplied by the caller: `draws(d)` is what the scatter at remaining depth
    `d` draws, and a `SampleDraw` is what one sample of a pixel draws. */
module Render {
  import opened Reals
  import opened Options
  import opened Vectors
  import opened Rays
  import opened Materials
  import opened Hittables
  import opened Spheres
  import opened HittableLists
  import opened Scattering
  import opened Cameras

  /** Hits closer than this are ignored, so that a scattered ray does not
      hit the surface it leaves. */
  const TMin: real := 0.001

  /** The colour at the top of the sky gradient. */
  const SkyBlue: Colour := Vec3(0.5, 0.7, 1.0)

  /** The blend factor of the background: `0.5 * (unit.y + 1)`. */
  function SkyBlend(sqrt: real -> real, r: Ray): real
  {
    0.5 * (UnitVector(sqrt, r.dir).y + 1.0)
  }

  /** The background seen by a ray that hits nothing: white blended towards
      `SkyBlue` by `SkyBlend`.  Its blue channel is always full. */
  function Background(sqrt: real -> real, r: Ray): (c: Colour)
    ensures c.z == 1.0
    ensures var t := SkyBlend(sqrt, r); c.x == 1.0 - 0.5 * t && c.y == 1.0 - 0.3 * t
  {
    var t := SkyBlend(sqrt, r);
    Add(Scale(1.0 - t, White), Scale(t, SkyBlue))
  }

  /** `ray_colour`: black once the depth is used up; otherwise the nearest
      hit over `[TMin, infinity)` is shaded by `HitColour`, and a ray that
      hits nothing sees the background. */
  function RayColour(sqrt: real -> real, r: Ray, world: seq<Sphere>, depth: int, draws: nat -> ScatterDraw): (c: Colour)
    ensures depth <= 0 ==> c == Zero
    decreases depth, 1
  {
    if depth <= 0 then Zero
    else match ClosestHit(sqrt, world, r, TMin, Infinite)
      case None => Background(sqrt, r)
      case Some(rec) => HitColour(sqrt, r, rec, world, depth, draws)
  }

  /** The colour of a ray that hit `rec`: if the material scatters it, the
      attenuation times the colour of the scattered ray one level deeper;
      otherwise the ray is absorbed and black. */
  function HitColour(sqrt: real -> real, r: Ray, rec: Hit, world: seq<Sphere>, depth: int, draws: nat -> ScatterDraw): (c: Colour)
    requires 0 < depth
    ensures !Scatter(sqrt, r, rec, draws(depth)).scatters ==> c == Zero
    decreases depth, 0
  {
    var s := Scatter(sqrt, r, rec, draws(depth));
    if s.scatters then Mul(s.attenuation, RayColour(sqrt, s.scattered, world, depth - 1, draws))
    else Zero
  }

  /** The number of times the path of `r` scatters before it escapes to the
      background, is absorbed or runs out of depth: at most `depth`. */
  function Bounces(sqrt: real -> real, r: Ray, world: seq<Sphere>, depth: int, draws: nat -> ScatterDraw): (n: nat)
    ensures depth <= 0 ==> n == 0
    ensures 0 < depth ==> n <= depth
    decreases depth, 1
  {
    if depth <= 0 then 0
    else match ClosestHit(sqrt, world, r, TMin, Infinite)
      case None => 0
      case Some(rec) => HitBounces(sqrt, r, rec, world, depth, draws)
  }

  /** The bounces of a path whose ray hit `rec`. */
  function HitBounces(sqrt: real -> real, r: Ray, rec: Hit, world: seq<Sphere>, depth: int, draws: nat -> ScatterDraw): (n: nat)
    requires 0 < depth
    ensures n <= depth
    decreases depth, 0
  {
    var s := Scatter(sqrt, r, rec, draws(depth));
    if s.scatters then 1 + Bounces(sqrt, s.scattered, world, depth - 1, draws) else 0
  }

  /** A path that scatters as often as the depth allows ends absorbed:
      the whole ray is black. */
  lemma {:induction false} DepthLimitAbsorbs(sqrt: real -> real, r: Ray, world: seq<Sphere>, depth: int, draws: nat -> ScatterDraw)
    requires Bounces(sqrt, r, world, depth, draws) == depth
    ensures RayColour(sqrt, r, world, depth, draws) == Zero
    decreases depth, 1
  {
    if depth > 0 {
      BounceStep(sqrt, r, world, depth, draws);
      ColourStep(sqrt, r, world, depth, draws);
      DepthLimitAbsorbsAtHit(sqrt, r, ClosestHit(sqrt, world, r, TMin, Infinite).value, world, depth, draws);
    }
  }

  /** The same for a path whose ray hit `rec`. */
  lemma {:induction false} DepthLimitAbsorbsAtHit(sqrt: real -> real, r: Ray, rec: Hit, world: seq<Sphere>, depth: int, draws: nat -> ScatterDraw)
    requires 0 < depth
    requires HitBounces(sqrt, r, rec, world, depth, draws) == depth
    ensures HitColour(sqrt, r, rec, world, depth, draws) == Zero
    decreases depth, 0
  {
    var s := Scatter(sqrt, r, rec, draws(depth));
    DepthLimitAbsorbs(sqrt, s.scattered, world, depth - 1, draws);
    AbsorbedByZero(s.attenuation, RayColour(sqrt, s.scattered, world, depth - 1, draws));
  }

  /** A proof helper: the unfolding of `Bounces` by one level, stated once
      so that the inductive lemmas need not unfold the definition themselves. */
  lemma BounceStep(sqrt: real -> real, r: Ray, world: seq<Sphere>, depth: int, draws: nat -> ScatterDraw)
    requires 0 < depth
    ensures var h := ClosestHit(sqrt, world, r, TMin, Infinite);
      var n := Bounces(sqrt, r, world, depth, draws);
      (h.None? ==> n == 0) &&
      (h.Some? ==> n == HitBounces(sqrt, r, h.value, world, depth, draws))
  {
  }

  /** A proof helper: the unfolding of `RayColour` by one level (the
      background on a miss, `HitColour` on a hit), stated once so that the
      inductive lemmas need not unfold the definition themselves. */
  lemma ColourStep(sqrt: real -> real, r: Ray, world: seq<Sphere>, depth: int, draws: nat -> ScatterDraw)
    requires 0 < depth
    ensures var h := ClosestHit(sqrt, world, r, TMin, Infinite);
      var c := RayColour(sqrt, r, world, depth, draws);
      (h.None? ==> c == Background(sqrt, r)) &&
      (h.Some? ==> c == HitColour(sqrt, r, h.value, world, depth, draws))
  {
  }

  lemma AbsorbedByZero(a: Colour, c: Colour)
    requires c == Zero
    ensures Mul(a, c) == Zero
  {
  }

  /** A ray that no sphere of the world hits on its own over
      `[TMin, infinity)` sees the background; in particular every ray of an
      empty world does. */
  lemma UnseenWorldShowsSky(sqrt: real -> real, r: Ray, world: seq<Sphere>, depth: int, draws: nat -> ScatterDraw)
    requires 0 < depth
    requires forall k :: 0 <= k < |world| ==> Intersect(sqrt, world[k], r, TMin, Infinite).None?
    ensures RayColour(sqrt, r, world, depth, draws) == Background(sqrt, r)
  {
    ClosestHitMisses(sqrt, world, r, TMin, Infinite);
  }

  /** The colour of a ray uses only the draws of its own bounces, those at
      remaining depth `1` to `depth`. */
  lemma {:induction false} OnlyOwnDrawsMatter(sqrt: real -> real, r: Ray, world: seq<Sphere>, depth: int,
                                              draws: nat -> ScatterDraw, others: nat -> ScatterDraw)
    requires forall d: nat :: 1 <= d <= depth ==> draws(d) == others(d)
    ensures RayColour(sqrt, r, world, depth, draws) == RayColour(sqrt, r, world, depth, others)
    decreases depth, 1
  {
    if depth > 0 {
      ColourStep(sqrt, r, world, depth, draws);
      ColourStep(sqrt, r, world, depth, others);
      var h := ClosestHit(sqrt, world, r, TMin, Infinite);
      if h.Some? {
        OnlyOwnDrawsMatterAtHit(sqrt, r, h.value, world, depth, draws, others);
      }
    }
  }

  /** The same for a ray that hit `rec`. */
  lemma {:induction false} OnlyOwnDrawsMatterAtHit(sqrt: real -> real, r: Ray, rec: Hit, world: seq<Sphere>, depth: int,
                                                   draws: nat -> ScatterDraw, others: nat -> ScatterDraw)
    requires 0 < depth
    requires forall d: nat :: 1 <= d <= depth ==> draws(d) == others(d)
    ensures HitColour(sqrt, r, rec, world, depth, draws) == HitColour(sqrt, r, rec, world, depth, others)
    decreases depth, 0
  {
    assert draws(depth) == others(depth);
    var s := Scatter(sqrt, r, rec, draws(depth));
    OnlyOwnDrawsMatter(sqrt, s.scattered, world, depth - 1, draws, others);
  }

  predicate InUnitCube(c: Colour)
  {
    0.0 <= c.x <= 1.0 && 0.0 <= c.y <= 1.0 && 0.0 <= c.z <= 1.0
  }

  /** Every channel of the material's albedo is in [0,1] (a dielectric
      attenuates by white). */
  predicate HasUnitAlbedo(m: Material)
  {
    match m
    case Lambertian(albedo) => InUnitCube(albedo)
    case Metal(albedo, _) => InUnitCube(albedo)
    case Dielectric(_) => true
  }

  /** The unit direction's `y` is in [-1,1], so the blend factor is in [0,1].
      For the zero direction this rests on `Quot`: the model's unit vector is
      zero and the factor 0.5, where the source computes NaN. */
  lemma SkyBlendIsFraction(sqrt: real -> real, r: Ray)
    requires IsSqrt(sqrt)
    ensures 0.0 <= SkyBlend(sqrt, r) <= 1.0
  {
    UnitVectorIsShort(sqrt, r.dir);
    UnitCoordinate(UnitVector(sqrt, r.dir));
  }

  /** A unit vector has length 1, except that of the zero vector, which the
      model makes zero through `Quot` (the source computes NaN). */
  lemma UnitVectorIsShort(sqrt: real -> real, v: Vec3)
    requires IsSqrt(sqrt)
    ensures LengthSquared(UnitVector(sqrt, v)) <= 1.0
  {
    if v == Zero {
      SqrtPositive(sqrt, 0.0);
      assert Length(sqrt, v) == 0.0;
      assert UnitVector(sqrt, v) == Scale(0.0, Zero);
    } else {
      UnitVectorIsUnit(sqrt, v);
    }
  }

  /** Each coordinate of a vector of length at most 1 is in [-1,1]. */
  lemma UnitCoordinate(v: Vec3)
    requires LengthSquared(v) <= 1.0
    ensures -1.0 <= v.y <= 1.0
  {
    var x, y, z := v.x, v.y, v.z;
    SquareZero(x);
    SquareZero(z);
    assert y * y <= 1.0;
    if y > 1.0 { MulPos(y - 1.0, y + 1.0, y * y - 1.0); }
    if y < -1.0 { MulPos(-1.0 - y, 1.0 - y, y * y - 1.0); }
  }

  /** The background lies between white and `SkyBlue`, channel by channel. */
  lemma BackgroundIsGradient(sqrt: real -> real, r: Ray)
    requires IsSqrt(sqrt)
    ensures var c := Background(sqrt, r);
      SkyBlue.x <= c.x <= 1.0 && SkyBlue.y <= c.y <= 1.0 && c.z == 1.0
  {
    SkyBlendIsFraction(sqrt, r);
  }

  /** With every albedo of the world in [0,1], every channel of every ray's
      colour is in [0,1]: attenuations never amplify and the background is
      at most white. */
  lemma ColourInUnitCube(sqrt: real -> real, r: Ray, world: seq<Sphere>, depth: int, draws: nat -> ScatterDraw)
    requires IsSqrt(sqrt)
    requires forall k :: 0 <= k < |world| ==> HasUnitAlbedo(world[k].mat)
    ensures InUnitCube(RayColour(sqrt, r, world, depth, draws))
  {
    forall ray: Ray
      ensures InUnitCube(Background(sqrt, ray))
    {
      BackgroundIsGradient(sqrt, ray);
    }
    BoundedColour(sqrt, r, world, depth, draws);
  }

  /** Every background colour is in the unit cube. */
  ghost predicate SkyInUnitCube(sqrt: real -> real)
  {
    forall ray: Ray :: InUnitCube(Background(sqrt, ray))
  }

  /** `ColourInUnitCube`, by induction on the depth. */
  lemma {:induction false} BoundedColour(sqrt: real -> real, r: Ray, world: seq<Sphere>, depth: int, draws: nat -> ScatterDraw)
    requires SkyInUnitCube(sqrt)
    requires forall k :: 0 <= k < |world| ==> HasUnitAlbedo(world[k].mat)
    ensures InUnitCube(RayColour(sqrt, r, world, depth, draws))
    decreases depth, 1
  {
    if depth > 0 {
      ColourStep(sqrt, r, world, depth, draws);
      var h := ClosestHit(sqrt, world, r, TMin, Infinite);
      if h.Some? {
        HitMaterialIsFromWorld(sqrt, r, world);
        var k :| 0 <= k < |world| && h.value.mat == world[k].mat;
        BoundedHitColour(sqrt, r, h.value, world, depth, draws);
      }
    }
  }

  /** The same for a ray that hit a material whose albedo is in [0,1]. */
  lemma {:induction false} BoundedHitColour(sqrt: real -> real, r: Ray, rec: Hit, world: seq<Sphere>, depth: int, draws: nat -> ScatterDraw)
    requires SkyInUnitCube(sqrt) && 0 < depth
    requires HasUnitAlbedo(rec.mat)
    requires forall k :: 0 <= k < |world| ==> HasUnitAlbedo(world[k].mat)
    ensures InUnitCube(HitColour(sqrt, r, rec, world, depth, draws))
    decreases depth, 0
  {
    var s := Scatter(sqrt, r, rec, draws(depth));
    if s.scatters {
      AttenuationIsAlbedo(sqrt, r, rec, draws(depth));
      BoundedColour(sqrt, s.scattered, world, depth - 1, draws);
      AttenuatedInUnitCube(s.attenuation, RayColour(sqrt, s.scattered, world, depth - 1, draws));
    }
  }

  /** A material with its albedo in [0,1] attenuates by a colour in [0,1]. */
  lemma AttenuationIsAlbedo(sqrt: real -> real, r: Ray, rec: Hit, draw: ScatterDraw)
    requires HasUnitAlbedo(rec.mat)
    ensures InUnitCube(Scatter(sqrt, r, rec, draw).attenuation)
  {
  }

  /** The material of the hit the world reports is the material of one of
      its spheres. */
  lemma HitMaterialIsFromWorld(sqrt: real -> real, r: Ray, world: seq<Sphere>)
    ensures var h := ClosestHit(sqrt, world, r, TMin, Infinite);
      h.Some? ==> exists k :: 0 <= k < |world| && h.value.mat == world[k].mat
  {
    var h := ClosestHit(sqrt, world, r, TMin, Infinite);
    if h.Some? {
      ClosestHitIsNearest(sqrt, world, r, TMin, Infinite);
      var k :| 0 <= k < |world| && IsNearestAt(Answers(sqrt, world, r, TMin, Infinite), k, h.value);
      assert Intersect(sqrt, world[k], r, TMin, Infinite) == Some(h.value);
    }
  }

  /** The channelwise product of two colours in the unit cube stays in it. */
  lemma AttenuatedInUnitCube(a: Colour, c: Colour)
    requires InUnitCube(a) && InUnitCube(c)
    ensures InUnitCube(Mul(a, c))
  {
    UnitProduct(a.x, c.x);
    UnitProduct(a.y, c.y);
    UnitProduct(a.z, c.z);
  }

  /** The image settings of `main`: size, samples per pixel and the bounce
      limit handed to `ray_colour`. */
  datatype Image = Image(width: int, height: int, samplesPerPixel: int, maxDepth: int)

  const AspectRatio: real := 3.0 / 2.0
  const ImageWidth: int := 1200

  /** The settings `main` renders with; the height is the width over the
      aspect ratio, truncated. */
  const Settings: Image := Image(ImageWidth, (ImageWidth as real / AspectRatio).Floor, 500, 50)

  /** `main` renders a 1200 by 800 image with 500 samples per pixel and at
      most 50 bounces per path. */
  lemma SettingsOfMain()
    ensures Settings == Image(1200, 800, 500, 50)
  {
    assert ImageWidth as real / AspectRatio == 800.0;
  }

  /** What one sample of a pixel draws: the two jitters of the viewport
      coordinates, the point of the unit disk for the lens, and the scatter
      draws of its path. */
  datatype SampleDraw = SampleDraw(du: real, dv: real, disk: Vec3, bounces: nat -> ScatterDraw)

  /** The ray of one sample of pixel `(i, j)`: through viewport coordinates
      `((i + du) / (width - 1), (j + dv) / (height - 1))`. */
  function SampleRay(cam: Camera, img: Image, i: int, j: int, d: SampleDraw): Ray
  {
    var u := Quot(i as real + d.du, (img.width - 1) as real);
    var v := Quot(j as real + d.dv, (img.height - 1) as real);
    GetRay(cam, u, v, d.disk)
  }

  /** A sample's ray leaves from the lens and passes through the viewport
      point of its jittered coordinates. */
  lemma SampleRayThroughViewport(cam: Camera, img: Image, i: int, j: int, d: SampleDraw)
    ensures var ray := SampleRay(cam, img, i, j, d);
      ray.orig == Add(cam.origin, LensOffset(cam, d.disk)) &&
      Add(ray.orig, ray.dir) ==
        ViewportPoint(cam, Quot(i as real + d.du, (img.width - 1) as real), Quot(j as real + d.dv, (img.height - 1) as real))
  {
  }

  /** A jittered coordinate `(i + du) / (n - 1)` with `du` in [0,1) lies in
      [0,1) for every index but the last, `n - 1`, whose samples reach past
      the far edge of the viewport. */
  lemma JitteredCoordinate(i: int, du: real, n: int)
    requires 2 <= n && 0 <= i < n && 0.0 <= du < 1.0
    ensures var u := Quot(i as real + du, (n - 1) as real);
      0.0 <= u && (i < n - 1 ==> u < 1.0) && (i == n - 1 && 0.0 < du ==> 1.0 < u)
  {
    var u := Quot(i as real + du, (n - 1) as real);
    var m := (n - 1) as real;
    assert u * m == i as real + du;
    if u < 0.0 { MulPos(-u, m, -(u * m)); }
    if i < n - 1 && u >= 1.0 { MulMono(1.0, u, m); }
    if i == n - 1 && 0.0 < du && u <= 1.0 { MulMono(u, 1.0, m); }
  }

  /** The colour one sample adds to its pixel. */
  function Contribution(sqrt: real -> real, cam: Camera, world: seq<Sphere>, img: Image, i: int, j: int, d: SampleDraw): Colour
  {
    RayColour(sqrt, SampleRay(cam, img, i, j, d), world, img.maxDepth, d.bounces)
  }

  /** The colours of the samples of pixel `(i, j)`, by sample number. */
  function SampleColours(sqrt: real -> real, cam: Camera, world: seq<Sphere>, img: Image, i: int, j: int,
                         draws: nat -> SampleDraw): nat -> Colour
  {
    (k: nat) => Contribution(sqrt, cam, world, img, i, j, draws(k))
  }

  /** The sum of the first `n` colours, accumulated from black. */
  function SampleSum(colours: nat -> Colour, n: nat): (c: Colour)
    ensures n == 0 ==> c == Zero
  {
    if n == 0 then Zero else Add(SampleSum(colours, n - 1), colours(n - 1))
  }

  /** The sum of the first `n` samples of pixel `(i, j)`. */
  function PixelSum(sqrt: real -> real, cam: Camera, world: seq<Sphere>, img: Image, i: int, j: int,
                    draws: nat -> SampleDraw, n: nat): Colour
  {
    SampleSum(SampleColours(sqrt, cam, world, img, i, j, draws), n)
  }

  /** A count that a `for` loop from 0 to `n` runs: `n`, or none when `n`
      is negative. */
  function Count(n: int): nat
  {
    if n < 0 then 0 else n
  }

  /** The anti-aliasing loop of one pixel: `pixel_colour` starts black and
      `+=` adds the colour of each of the `samples_per_pixel` samples once. */
  method RenderPixel(sqrt: real -> real, cam: Camera, world: seq<Sphere>, img: Image, i: int, j: int,
                     draws: nat -> SampleDraw) returns (pixel: Colour)
    ensures pixel == PixelSum(sqrt, cam, world, img, i, j, draws, Count(img.samplesPerPixel))
  {
    ghost var colours := SampleColours(sqrt, cam, world, img, i, j, draws);
    var pixelColour := new MutableVec3(Zero);
    for s := 0 to Count(img.samplesPerPixel)
      invariant pixelColour.Valid() && fresh(pixelColour.e)
      invariant pixelColour.Value() == SampleSum(colours, s)
    {
      var c := Contribution(sqrt, cam, world, img, i, j, draws(s));
      pixelColour.AddAssign(c);
    }
    pixel := pixelColour.Value();
  }

  /** Each channel of the sum of `n` colours of the unit cube is in [0, n]. */
  lemma {:induction false} SampleSumBound(colours: nat -> Colour, n: nat)
    requires forall k :: 0 <= k < n ==> InUnitCube(colours(k))
    ensures var c := SampleSum(colours, n);
      0.0 <= c.x <= n as real && 0.0 <= c.y <= n as real && 0.0 <= c.z <= n as real
  {
    if n > 0 {
      SampleSumBound(colours, n - 1);
      AddedInUnitCube(SampleSum(colours, n - 1), colours(n - 1), (n - 1) as real);
    }
  }

  /** With every albedo of the world in [0,1], each channel of the sum of
      `n` samples of a pixel lies in [0, n]. */
  lemma PixelSumBound(sqrt: real -> real, cam: Camera, world: seq<Sphere>, img: Image, i: int, j: int,
                      draws: nat -> SampleDraw, n: nat)
    requires IsSqrt(sqrt)
    requires forall k :: 0 <= k < |world| ==> HasUnitAlbedo(world[k].mat)
    ensures var c := PixelSum(sqrt, cam, world, img, i, j, draws, n);
      0.0 <= c.x <= n as real && 0.0 <= c.y <= n as real && 0.0 <= c.z <= n as real
  {
    var colours := SampleColours(sqrt, cam, world, img, i, j, draws);
    forall k | 0 <= k < n
      ensures InUnitCube(colours(k))
    {
      var d := draws(k);
      ColourInUnitCube(sqrt, SampleRay(cam, img, i, j, d), world, img.maxDepth, d.bounces);
    }
    SampleSumBound(colours, n);
  }

  /** Adding a colour of the unit cube to one whose channels are in [0, m]
      gives channels in [0, m + 1]. */
  lemma AddedInUnitCube(sum: Colour, c: Colour, m: real)
    requires 0.0 <= sum.x <= m && 0.0 <= sum.y <= m && 0.0 <= sum.z <= m
    requires InUnitCube(c)
    ensures var t := Add(sum, c);
      0.0 <= t.x <= m + 1.0 && 0.0 <= t.y <= m + 1.0 && 0.0 <= t.z <= m + 1.0
  {
  }

  /** The colour of the pixel in column `i` of the row `j` rows from the
      bottom. */
  function PixelColour(sqrt: real -> real, cam: Camera, world: seq<Sphere>, img: Image,
                       draws: (int, int) -> (nat -> SampleDraw), i: int, j: int): Colour
  {
    PixelSum(sqrt, cam, world, img, i, j, draws(i, j), Count(img.samplesPerPixel))
  }

  /** One row of the image: the pixels of row `j`, left to right. */
  function Scanline(sqrt: real -> real, cam: Camera, world: seq<Sphere>, img: Image,
                    draws: (int, int) -> (nat -> SampleDraw), j: int): (line: seq<Colour>)
    ensures |line| == Count(img.width)
    ensures forall i :: 0 <= i < |line| ==> line[i] == PixelColour(sqrt, cam, world, img, draws, i, j)
  {
    seq(Count(img.width), i => PixelColour(sqrt, cam, world, img, draws, i, j))
  }

  /** The image in the order it is written out: the top row
      (`j = height - 1`) first, down to the bottom row (`j = 0`). */
  function Frame(sqrt: real -> real, cam: Camera, world: seq<Sphere>, img: Image,
                 draws: (int, int) -> (nat -> SampleDraw)): (image: seq<seq<Colour>>)
    ensures |image| == Count(img.height)
    ensures forall row :: 0 <= row < |image| ==>
      image[row] == Scanline(sqrt, cam, world, img, draws, img.height - 1 - row)
  {
    seq(Count(img.height), row => Scanline(sqrt, cam, world, img, draws, img.height - 1 - row))
  }

  /** The rendering loops of `main`: `j` runs from `height - 1` down to 0
      and, in each row, `i` from 0 to `width - 1`; every pixel is the sum of
      its samples, and the pixels come out as `Frame` lists them. */
  method RenderImage(sqrt: real -> real, cam: Camera, world: seq<Sphere>, img: Image,
                     draws: (int, int) -> (nat -> SampleDraw)) returns (image: seq<seq<Colour>>)
    ensures image == Frame(sqrt, cam, world, img, draws)
  {
    ghost var frame := Frame(sqrt, cam, world, img, draws);
    image := [];
    var j := img.height - 1;
    while j >= 0
      invariant |image| == img.height - 1 - j <= |frame|
      invariant image == frame[..|image|]
    {
      var line := RenderRow(sqrt, cam, world, img, draws, j);
      assert frame[..|image| + 1] == frame[..|image|] + [frame[|image|]];
      image := image + [line];
      j := j - 1;
    }
    assert image == frame;
  }

  /** The inner loop: the pixels of row `j`, from `i = 0` to `width - 1`. */
  method RenderRow(sqrt: real -> real, cam: Camera, world: seq<Sphere>, img: Image,
                   draws: (int, int) -> (nat -> SampleDraw), j: int) returns (line: seq<Colour>)
    ensures line == Scanline(sqrt, cam, world, img, draws, j)
  {
    ghost var scan := Scanline(sqrt, cam, world, img, draws, j);
    line := [];
    var i := 0;
    while i < img.width
      invariant i == |line| <= |scan|
      invariant line == scan[..i]
    {
      var pixel := RenderPixel(sqrt, cam, world, img, i, j, draws(i, j));
      assert scan[..i + 1] == scan[..i] + [scan[i]];
      line := line + [pixel];
      i := i + 1;
    }
    assert line == scan;
  }
}
