/** `Camera`: a thin-lens camera.  The constructor derives an orthonormal
    frame `(u, v, w)` and the viewport from the view parameters; `get_ray`
    shoots a ray from a point of the lens through a point of the viewport.
    The vertical field of view enters only through `tan(theta / 2)`, which
    is the parameter `h`; the point of the unit disk that `get_ray` draws is
    the parameter `disk`. */
module Cameras {
  import opened Reals
  import opened Vectors
  import opened Rays

  datatype Camera = Camera(
    origin: Point3,
    lowerLeftCorner: Point3,
    horizontal: Vec3,
    vertical: Vec3,
    u: Vec3, v: Vec3, w: Vec3,
    lensRadius: real)

  /** The viewport is `2 h` high and `aspectRatio` times as wide. */
  function ViewportHeight(h: real): real
  {
    2.0 * h
  }

  function ViewportWidth(h: real, aspectRatio: real): real
  {
    aspectRatio * ViewportHeight(h)
  }

  /** The constructor `Camera(lookFrom, lookAt, vup, vfov, aspect_ratio,
      aperture, focus_dist)`: `w` points from `lookAt` back to `lookFrom`,
      `u` is horizontal (`vup x w`) and `v` is `w x u`; the rest of the
      camera follows from this frame by `FramedCamera`. */
  function MakeCamera(sqrt: real -> real, lookFrom: Point3, lookAt: Point3, vup: Vec3,
                      h: real, aspectRatio: real, aperture: real, focusDist: real): (cam: Camera)
    ensures cam.origin == lookFrom
    ensures cam.lensRadius == aperture / 2.0
    ensures cam.w == UnitVector(sqrt, Sub(lookFrom, lookAt))
    ensures cam.u == UnitVector(sqrt, Cross(vup, cam.w))
    ensures cam.v == Cross(cam.w, cam.u)
    ensures cam == FramedCamera(lookFrom, cam.u, cam.v, cam.w, h, aspectRatio, aperture, focusDist)
  {
    var w := UnitVector(sqrt, Sub(lookFrom, lookAt));
    var u := UnitVector(sqrt, Cross(vup, w));
    var v := Cross(w, u);
    FramedCamera(lookFrom, u, v, w, h, aspectRatio, aperture, focusDist)
  }

  /** The camera at `origin` with frame `(u, v, w)`: the viewport, placed at
      the focus distance along `-w`, spans `focus_dist * viewport_width`
      along `u` and `focus_dist * viewport_height` along `v`; the lens radius
      is half the aperture. */
  function FramedCamera(origin: Point3, u: Vec3, v: Vec3, w: Vec3,
                        h: real, aspectRatio: real, aperture: real, focusDist: real): (cam: Camera)
    ensures cam.origin == origin && cam.u == u && cam.v == v && cam.w == w
    ensures cam.lensRadius == aperture / 2.0
    ensures cam.horizontal == Scale(focusDist * ViewportWidth(h, aspectRatio), u)
    ensures cam.vertical == Scale(focusDist * ViewportHeight(h), v)
    ensures ViewportWidth(h, aspectRatio) == aspectRatio * ViewportHeight(h)
  {
    var viewportHeight := ViewportHeight(h);
    var viewportWidth := ViewportWidth(h, aspectRatio);
    var horizontal := Scale(focusDist * viewportWidth, u);
    var vertical := Scale(focusDist * viewportHeight, v);
    var lowerLeftCorner := Sub(Sub(Sub(origin, Div(horizontal, 2.0)), Div(vertical, 2.0)), Scale(focusDist, w));
    Camera(origin, lowerLeftCorner, horizontal, vertical, u, v, w, aperture / 2.0)
  }

  /** `v = w x u` is orthogonal to both other axes of the frame. */
  lemma VerticalAxisIsOrthogonal(sqrt: real -> real, lookFrom: Point3, lookAt: Point3, vup: Vec3,
                                 h: real, aspectRatio: real, aperture: real, focusDist: real)
    ensures var cam := MakeCamera(sqrt, lookFrom, lookAt, vup, h, aspectRatio, aperture, focusDist);
      Dot(cam.v, cam.w) == 0.0 && Dot(cam.v, cam.u) == 0.0
  {
  }

  /** For distinct `lookFrom` and `lookAt` and a `vup` that is not parallel
      to the view direction, the frame `(u, v, w)` is orthonormal. */
  lemma FrameIsOrthonormal(sqrt: real -> real, lookFrom: Point3, lookAt: Point3, vup: Vec3,
                           h: real, aspectRatio: real, aperture: real, focusDist: real)
    requires IsSqrt(sqrt) && lookFrom != lookAt
    requires Cross(vup, UnitVector(sqrt, Sub(lookFrom, lookAt))) != Zero
    ensures var cam := MakeCamera(sqrt, lookFrom, lookAt, vup, h, aspectRatio, aperture, focusDist);
      LengthSquared(cam.u) == 1.0 && LengthSquared(cam.v) == 1.0 && LengthSquared(cam.w) == 1.0 &&
      Dot(cam.u, cam.v) == 0.0 && Dot(cam.v, cam.w) == 0.0 && Dot(cam.w, cam.u) == 0.0
  {
    var cam := MakeCamera(sqrt, lookFrom, lookAt, vup, h, aspectRatio, aperture, focusDist);
    var d := Sub(lookFrom, lookAt);
    assert Add(d, lookAt) == lookFrom && Add(Zero, lookAt) == lookAt;
    UnitVectorIsUnit(sqrt, d);
    var c := Cross(vup, cam.w);
    UnitVectorIsUnit(sqrt, c);
    DotScale(Quot(1.0, Length(sqrt, c)), c, cam.w);
    DotSymmetric(cam.w, cam.u);
    DotSymmetric(cam.u, cam.v);
    DotSymmetric(cam.v, cam.w);
    CrossLength(cam.w, cam.u);
  }

  /** Lagrange's identity: `|a x b|^2 == |a|^2 |b|^2 - (a . b)^2`. */
  lemma CrossLength(a: Vec3, b: Vec3)
    ensures LengthSquared(Cross(a, b)) == LengthSquared(a) * LengthSquared(b) - Dot(a, b) * Dot(a, b)
  {
  }

  /** Every ray of a camera the constructor builds leaves from within the
      lens: its origin is at most `aperture / 2` from `lookFrom`. */
  lemma CameraRaysLeaveFromLens(sqrt: real -> real, lookFrom: Point3, lookAt: Point3, vup: Vec3,
                                h: real, aspectRatio: real, aperture: real, focusDist: real,
                                s: real, t: real, disk: Vec3)
    requires IsSqrt(sqrt) && lookFrom != lookAt
    requires Cross(vup, UnitVector(sqrt, Sub(lookFrom, lookAt))) != Zero
    requires disk.z == 0.0 && disk.x * disk.x + disk.y * disk.y < 1.0
    ensures var ray := GetRay(MakeCamera(sqrt, lookFrom, lookAt, vup, h, aspectRatio, aperture, focusDist), s, t, disk);
      LengthSquared(Sub(ray.orig, lookFrom)) <= (aperture / 2.0) * (aperture / 2.0)
  {
    var cam := MakeCamera(sqrt, lookFrom, lookAt, vup, h, aspectRatio, aperture, focusDist);
    FrameIsOrthonormal(sqrt, lookFrom, lookAt, vup, h, aspectRatio, aperture, focusDist);
    RayLeavesFromLens(cam, disk);
    var offset := LensOffset(cam, disk);
    assert Sub(Add(lookFrom, offset), lookFrom) == offset;
  }

  /** The point of the viewport at fractions `(s, t)` of its spans. */
  function ViewportPoint(cam: Camera, s: real, t: real): Point3
  {
    Add(Add(cam.lowerLeftCorner, Scale(s, cam.horizontal)), Scale(t, cam.vertical))
  }

  /** The lens offset `u * rd.x + v * rd.y` of `rd = lens_radius * disk`. */
  function LensOffset(cam: Camera, disk: Vec3): Vec3
  {
    var rd := Scale(cam.lensRadius, disk);
    Add(Scale(rd.x, cam.u), Scale(rd.y, cam.v))
  }

  /** `get_ray(s, t)`: leaves the lens at `origin` plus the lens offset and
      passes through the viewport point at `(s, t)`, whatever the lens
      sample. */
  function GetRay(cam: Camera, s: real, t: real, disk: Vec3): (ray: Ray)
    ensures ray.orig == Add(cam.origin, LensOffset(cam, disk))
    ensures Add(ray.orig, ray.dir) == ViewportPoint(cam, s, t)
  {
    var offset := LensOffset(cam, disk);
    Ray(Add(cam.origin, offset),
        Sub(Sub(Add(Add(cam.lowerLeftCorner, Scale(s, cam.horizontal)), Scale(t, cam.vertical)), cam.origin), offset))
  }

  /** The lower left corner sits half a span below and to the left of the
      point at the focus distance straight ahead, so the centre of the
      viewport is that point. */
  lemma ViewportCentre(origin: Point3, u: Vec3, v: Vec3, w: Vec3,
                       h: real, aspectRatio: real, aperture: real, focusDist: real)
    ensures var cam := FramedCamera(origin, u, v, w, h, aspectRatio, aperture, focusDist);
      ViewportPoint(cam, 0.5, 0.5) == Sub(origin, Scale(focusDist, w))
  {
    var cam := FramedCamera(origin, u, v, w, h, aspectRatio, aperture, focusDist);
    HalfSpans(origin, cam.horizontal, cam.vertical, Scale(focusDist, w));
  }

  lemma HalfSpans(o: Point3, hor: Vec3, ver: Vec3, f: Vec3)
    ensures Add(Add(Sub(Sub(Sub(o, Div(hor, 2.0)), Div(ver, 2.0)), f), Scale(0.5, hor)), Scale(0.5, ver)) == Sub(o, f)
  {
    assert Quot(1.0, 2.0) == 0.5;
  }

  /** Through the centre of the viewport, with the lens sample at the lens
      centre, `get_ray(0.5, 0.5)` leaves from `lookFrom` and points straight
      ahead: its direction is `-focus_dist * w`. */
  lemma CentralRay(sqrt: real -> real, lookFrom: Point3, lookAt: Point3, vup: Vec3,
                   h: real, aspectRatio: real, aperture: real, focusDist: real)
    ensures var cam := MakeCamera(sqrt, lookFrom, lookAt, vup, h, aspectRatio, aperture, focusDist);
      var ray := GetRay(cam, 0.5, 0.5, Zero);
      ray.orig == lookFrom && ray.dir == Scale(-focusDist, cam.w)
  {
    var cam := MakeCamera(sqrt, lookFrom, lookAt, vup, h, aspectRatio, aperture, focusDist);
    ViewportCentre(lookFrom, cam.u, cam.v, cam.w, h, aspectRatio, aperture, focusDist);
    CentralRayOf(cam, focusDist);
  }

  lemma CentralRayOf(cam: Camera, focusDist: real)
    requires ViewportPoint(cam, 0.5, 0.5) == Sub(cam.origin, Scale(focusDist, cam.w))
    ensures var ray := GetRay(cam, 0.5, 0.5, Zero);
      ray.orig == cam.origin && ray.dir == Scale(-focusDist, cam.w)
  {
    assert LensOffset(cam, Zero) == Zero;
  }

  /** With a zero aperture the camera is a pinhole: every ray leaves from
      `lookFrom`, whatever the lens sample. */
  lemma PinholeRaysLeaveFromLookFrom(sqrt: real -> real, lookFrom: Point3, lookAt: Point3, vup: Vec3,
                                     h: real, aspectRatio: real, focusDist: real, s: real, t: real, disk: Vec3)
    ensures GetRay(MakeCamera(sqrt, lookFrom, lookAt, vup, h, aspectRatio, 0.0, focusDist), s, t, disk).orig == lookFrom
  {
    var cam := MakeCamera(sqrt, lookFrom, lookAt, vup, h, aspectRatio, 0.0, focusDist);
    PointLens(cam, s, t, disk);
  }

  lemma PointLens(cam: Camera, s: real, t: real, disk: Vec3)
    requires cam.lensRadius == 0.0
    ensures GetRay(cam, s, t, disk).orig == cam.origin
  {
    assert Scale(cam.lensRadius, disk) == Zero;
    assert LensOffset(cam, disk) == Zero;
  }

  /** For a lens sample in the unit disk the ray leaves within the lens:
      with an orthonormal frame the offset from `origin` is at most the lens
      radius. */
  lemma RayLeavesFromLens(cam: Camera, disk: Vec3)
    requires LengthSquared(cam.u) == 1.0 && LengthSquared(cam.v) == 1.0 && Dot(cam.u, cam.v) == 0.0
    requires disk.z == 0.0 && disk.x * disk.x + disk.y * disk.y < 1.0
    ensures LengthSquared(LensOffset(cam, disk)) <= cam.lensRadius * cam.lensRadius
  {
    OffsetLength(cam, disk);
    DiskIsShort(disk);
    ScaledIsShort(cam.lensRadius, disk);
  }

  /** A point of the unit disk scaled by `r` lies within `r` of the origin. */
  lemma ScaledIsShort(r: real, disk: Vec3)
    requires LengthSquared(disk) < 1.0
    ensures LengthSquared(Scale(r, disk)) <= r * r
  {
    var d := LengthSquared(disk);
    calc {
      LengthSquared(Scale(r, disk));
    == { ScaledLengthSquared(r, disk); }
      (r * r) * d;
    <= { ShrunkBy(d, r); }
      r * r;
    }
  }

  /** In an orthonormal frame the lens offset is as long as `rd`. */
  lemma OffsetLength(cam: Camera, disk: Vec3)
    requires LengthSquared(cam.u) == 1.0 && LengthSquared(cam.v) == 1.0 && Dot(cam.u, cam.v) == 0.0
    requires disk.z == 0.0
    ensures LengthSquared(LensOffset(cam, disk)) == LengthSquared(Scale(cam.lensRadius, disk))
  {
    var rd := Scale(cam.lensRadius, disk);
    OrthonormalCombination(rd.x, rd.y, cam.u, cam.v);
    assert rd.z == 0.0;
  }

  lemma DiskIsShort(disk: Vec3)
    requires disk.z == 0.0 && disk.x * disk.x + disk.y * disk.y < 1.0
    ensures LengthSquared(disk) < 1.0
  {
    assert disk.z * disk.z == 0.0;
  }

  /** `(r r) d <= r r` for `d <= 1`. */
  lemma ShrunkBy(d: real, r: real)
    requires d <= 1.0
    ensures (r * r) * d <= r * r
  {
    var l2 := r * r;
    SquareZero(r);
    MulMono(d, 1.0, l2);
    assert l2 * d == d * l2;
  }

  /** `|a u + b v|^2 == a^2 + b^2` for orthonormal `u` and `v`. */
  lemma OrthonormalCombination(a: real, b: real, u: Vec3, v: Vec3)
    requires LengthSquared(u) == 1.0 && LengthSquared(v) == 1.0 && Dot(u, v) == 0.0
    ensures LengthSquared(Add(Scale(a, u), Scale(b, v))) == a * a + b * b
  {
    ScaledLengthSquared(a, u);
    ScaledLengthSquared(b, v);
    DotScale(a, u, Scale(b, v));
    DotScale(b, v, u);
    DotSymmetric(Scale(b, v), u);
    SumLengthSquared(Scale(a, u), Scale(b, v));
  }
}
