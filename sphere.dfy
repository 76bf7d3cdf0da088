/** `Sphere::hit`: the ray-sphere intersection in half-b form.  The
    function `Intersect` is the value the test reports; the method
    `HitSphere` is the test itself, writing a caller's hit record field by
    field and leaving it alone on a miss. */
module Spheres {
  import opened Reals
  import opened Options
  import opened Vectors
  import opened Rays
  import opened Materials
  import opened Hittables

  datatype Sphere = Sphere(center: Point3, radius: real, mat: Material)

  /** `a`: the squared length of the direction, the leading coefficient. */
  function A(r: Ray): real
  {
    LengthSquared(r.dir)
  }

  /** `half_b`: half the linear coefficient. */
  function HalfB(s: Sphere, r: Ray): real
  {
    Dot(Sub(r.orig, s.center), r.dir)
  }

  /** `c`: the constant coefficient. */
  function C(s: Sphere, r: Ray): real
  {
    LengthSquared(Sub(r.orig, s.center)) - s.radius * s.radius
  }

  function Discriminant(s: Sphere, r: Ray): real
  {
    HalfB(s, r) * HalfB(s, r) - A(r) * C(s, r)
  }

  /** `(-half_b - sqrt_d) / a`, the root tried first. */
  function NearRoot(sqrt: real -> real, s: Sphere, r: Ray): real
  {
    Quot(-HalfB(s, r) - sqrt(Discriminant(s, r)), A(r))
  }

  /** `(-half_b + sqrt_d) / a`, the root tried second. */
  function FarRoot(sqrt: real -> real, s: Sphere, r: Ray): real
  {
    Quot(-HalfB(s, r) + sqrt(Discriminant(s, r)), A(r))
  }

  /** `(p - center) / radius`: the unit outward normal at a surface point
      for a positive radius, the inward one for a negative radius. */
  function OutwardNormal(s: Sphere, p: Point3): Vec3
  {
    Div(Sub(p, s.center), s.radius)
  }

  /** The hit `Sphere::hit` reports for a query `[tMin, tMax]`, if any: no
      hit for a negative discriminant; otherwise the near root when it lies
      in the closed interval, else the far root when that does, else no hit.
      A hit lies at `r.at(t)`, carries the sphere's material and the facing
      that `set_face_normal` derives from the outward normal. */
  function Intersect(sqrt: real -> real, s: Sphere, r: Ray, tMin: real, tMax: Bound): (h: Option<Hit>)
    ensures Discriminant(s, r) < 0.0 ==> h.None?
    ensures 0.0 <= Discriminant(s, r) && InRange(NearRoot(sqrt, s, r), tMin, tMax) ==>
      h.Some? && h.value.t == NearRoot(sqrt, s, r)
    ensures 0.0 <= Discriminant(s, r) && !InRange(NearRoot(sqrt, s, r), tMin, tMax) ==>
      (h.Some? <==> InRange(FarRoot(sqrt, s, r), tMin, tMax)) &&
      (h.Some? ==> h.value.t == FarRoot(sqrt, s, r))
    ensures h.Some? ==> InRange(h.value.t, tMin, tMax)
    ensures h.Some? ==> h.value.p == At(r, h.value.t) && h.value.mat == s.mat
    ensures h.Some? ==>
      Facing(h.value.frontFace, h.value.normal) == FaceNormal(r, OutwardNormal(s, h.value.p))
    ensures h.Some? ==> Dot(r.dir, h.value.normal) <= 0.0
  {
    if Discriminant(s, r) < 0.0 then None
    else
      var near := NearRoot(sqrt, s, r);
      var far := FarRoot(sqrt, s, r);
      if !InRange(near, tMin, tMax) && !InRange(far, tMin, tMax) then None
      else
        var root := if InRange(near, tMin, tMax) then near else far;
        var p := At(r, root);
        var f := FaceNormal(r, OutwardNormal(s, p));
        Some(Hit(p, f.normal, s.mat, root, f.frontFace))
  }

  /** `Sphere::hit`: reports whether `Intersect` finds a hit and, if so,
      writes it into `rec`; on a miss `rec` is not touched. */
  method HitSphere(sqrt: real -> real, s: Sphere, r: Ray, tMin: real, tMax: Bound, rec: HitRecord)
    returns (hit: bool)
    modifies rec
    ensures hit <==> Intersect(sqrt, s, r, tMin, tMax).Some?
    ensures hit ==> rec.Value() == Intersect(sqrt, s, r, tMin, tMax).value
    ensures !hit ==> rec.Value() == old(rec.Value())
  {
    var oc := Sub(r.orig, s.center);
    var a := LengthSquared(r.dir);
    var halfB := Dot(oc, r.dir);
    var c := LengthSquared(oc) - s.radius * s.radius;
    var discriminant := halfB * halfB - a * c;
    assert a == A(r) && halfB == HalfB(s, r) && c == C(s, r);
    assert discriminant == Discriminant(s, r);
    if discriminant < 0.0 {
      return false;
    }
    var sqrtd := sqrt(discriminant);
    var root := Quot(-halfB - sqrtd, a);
    assert root == NearRoot(sqrt, s, r);
    if !InRange(root, tMin, tMax) {
      root := Quot(-halfB + sqrtd, a);
      assert root == FarRoot(sqrt, s, r);
      if !InRange(root, tMin, tMax) {
        return false;
      }
    }
    rec.t := root;
    rec.p := At(r, rec.t);
    var outwardNormal := Div(Sub(rec.p, s.center), s.radius);
    rec.SetFaceNormal(r, outwardNormal);
    rec.mat := s.mat;
    return true;
  }

  /** The reported point lies on the sphere: for a ray with a non-zero
      direction the chosen root solves `|r.at(t) - center|^2 == radius^2`. */
  lemma HitIsOnSphere(sqrt: real -> real, s: Sphere, r: Ray, tMin: real, tMax: Bound)
    requires IsSqrt(sqrt) && r.dir != Zero
    ensures var h := Intersect(sqrt, s, r, tMin, tMax);
      h.Some? ==> LengthSquared(Sub(h.value.p, s.center)) == s.radius * s.radius
  {
    var h := Intersect(sqrt, s, r, tMin, tMax);
    if h.Some? {
      var d := Discriminant(s, r);
      var sd := sqrt(d);
      assert sd * sd == d;
      RootsSolveQuadratic(s, r, sd, h.value.t);
    }
  }

  /** Both roots of the half-b formula solve the sphere equation. */
  lemma RootsSolveQuadratic(s: Sphere, r: Ray, sd: real, t: real)
    requires r.dir != Zero && sd * sd == Discriminant(s, r)
    requires t == Quot(-HalfB(s, r) - sd, A(r)) || t == Quot(-HalfB(s, r) + sd, A(r))
    ensures LengthSquared(Sub(At(r, t), s.center)) == s.radius * s.radius
  {
    var a, hb, c := A(r), HalfB(s, r), C(s, r);
    assert a != 0.0;
    QuotRoot(-hb - sd, -hb + sd, a, t);
    QuadraticRoot(a, hb, c, sd, t);
    OnSphereAtRoot(s, r, t);
  }

  /** A parameter solving the quadratic `a t^2 + 2 half_b t + c == 0` is a
      point of the sphere. */
  lemma OnSphereAtRoot(s: Sphere, r: Ray, t: real)
    requires (t * t) * A(r) + 2.0 * t * HalfB(s, r) + C(s, r) == 0.0
    ensures LengthSquared(Sub(At(r, t), s.center)) == s.radius * s.radius
  {
    SphereEquation(s, r, t);
  }

  /** `|r.at(t) - center|^2 - radius^2` is the quadratic in `t` whose
      coefficients are `a`, `2 half_b` and `c`. */
  lemma SphereEquation(s: Sphere, r: Ray, t: real)
    ensures LengthSquared(Sub(At(r, t), s.center)) - s.radius * s.radius ==
      (t * t) * A(r) + 2.0 * t * HalfB(s, r) + C(s, r)
  {
    OffsetAlongRay(r, s.center, t);
  }

  lemma QuotRoot(x: real, y: real, a: real, t: real)
    requires a != 0.0 && (t == Quot(x, a) || t == Quot(y, a))
    ensures t * a == x || t * a == y
  {
  }

  /** `|r.at(t) - q|^2 == |o - q|^2 + 2 t ((o - q) . d) + t^2 |d|^2` for a
      ray with origin `o` and direction `d`. */
  lemma OffsetAlongRay(r: Ray, q: Point3, t: real)
    ensures LengthSquared(Sub(At(r, t), q)) ==
      LengthSquared(Sub(r.orig, q)) + 2.0 * t * Dot(Sub(r.orig, q), r.dir) + (t * t) * LengthSquared(r.dir)
  {
    AtOffset(r, q, t);
    LengthAlong(Sub(r.orig, q), r.dir, t);
  }

  /** The offset of `r.at(t)` from `q` is the origin's offset plus `t d`. */
  lemma AtOffset(r: Ray, q: Point3, t: real)
    ensures Sub(At(r, t), q) == Add(Sub(r.orig, q), Scale(t, r.dir))
  {
  }

  /** `|u + t d|^2 == |u|^2 + 2 t (u . d) + t^2 |d|^2`. */
  lemma LengthAlong(u: Vec3, d: Vec3, t: real)
    ensures LengthSquared(Add(u, Scale(t, d))) == LengthSquared(u) + 2.0 * t * Dot(u, d) + (t * t) * LengthSquared(d)
  {
    SquaresAlong(u.x, u.y, u.z, d.x, d.y, d.z, t);
  }

  /** The same, in coordinates. */
  lemma SquaresAlong(ux: real, uy: real, uz: real, dx: real, dy: real, dz: real, t: real)
    ensures (ux + t * dx) * (ux + t * dx) + (uy + t * dy) * (uy + t * dy) + (uz + t * dz) * (uz + t * dz) ==
      (ux * ux + uy * uy + uz * uz) + 2.0 * t * (ux * dx + uy * dy + uz * dz) + (t * t) * (dx * dx + dy * dy + dz * dz)
  {
  }

  /** A root `t = (-hb -+ sd) / a` of the half-b formula, with
      `sd^2 == hb^2 - a c`, solves `a t^2 + 2 hb t + c == 0`. */
  lemma QuadraticRoot(a: real, hb: real, c: real, sd: real, t: real)
    requires a != 0.0 && sd * sd == hb * hb - a * c
    requires t * a == -hb - sd || t * a == -hb + sd
    ensures (t * t) * a + 2.0 * t * hb + c == 0.0
  {
    var q := t * a;
    var e := (t * t) * a + 2.0 * t * hb + c;
    assert a * e == q * q + 2.0 * hb * q + a * c;
    assert q * q + 2.0 * hb * q + a * c == 0.0;
    if e != 0.0 {
      NonZeroProduct(a, e);
    }
  }

  lemma NonZeroProduct(a: real, e: real)
    requires a != 0.0 && e != 0.0
    ensures a * e != 0.0
  {
    if a > 0.0 && e > 0.0 { MulPos(a, e, a * e); }
    if a > 0.0 && e < 0.0 { MulPos(a, -e, -(a * e)); }
    if a < 0.0 && e > 0.0 { MulPos(-a, e, -(a * e)); }
    if a < 0.0 && e < 0.0 { MulPos(-a, -e, a * e); }
  }

  /** With a non-zero radius and a non-zero direction the outward normal of
      a reported hit has unit length, and so has the stored normal. */
  lemma HitNormalIsUnit(sqrt: real -> real, s: Sphere, r: Ray, tMin: real, tMax: Bound)
    requires IsSqrt(sqrt) && r.dir != Zero && s.radius != 0.0
    ensures var h := Intersect(sqrt, s, r, tMin, tMax);
      h.Some? ==> LengthSquared(OutwardNormal(s, h.value.p)) == 1.0 &&
                  LengthSquared(h.value.normal) == 1.0
  {
    var h := Intersect(sqrt, s, r, tMin, tMax);
    if h.Some? {
      HitIsOnSphere(sqrt, s, r, tMin, tMax);
      var k := Quot(1.0, s.radius);
      ScaledLengthSquared(k, Sub(h.value.p, s.center));
      assert (k * k) * (s.radius * s.radius) == (k * s.radius) * (k * s.radius);
    }
  }

  /** A negative radius turns the "outward" normal towards the centre: it
      points against the offset of the surface point from the centre. */
  lemma NegativeRadiusPointsInward(s: Sphere, p: Point3)
    requires s.radius < 0.0
    ensures Dot(OutwardNormal(s, p), Sub(p, s.center)) <= 0.0
  {
    var k := Quot(1.0, s.radius);
    var l := LengthSquared(Sub(p, s.center));
    var dd := Dot(OutwardNormal(s, p), Sub(p, s.center));
    ReciprocalNegative(s.radius);
    OutwardDot(s, p);
    NonPositiveProduct(k, l);
    assert dd == k * l;
  }

  lemma OutwardDot(s: Sphere, p: Point3)
    ensures Dot(OutwardNormal(s, p), Sub(p, s.center)) == Quot(1.0, s.radius) * LengthSquared(Sub(p, s.center))
  {
    DotScale(Quot(1.0, s.radius), Sub(p, s.center), Sub(p, s.center));
  }

  lemma ReciprocalNegative(x: real)
    requires x < 0.0
    ensures Quot(1.0, x) < 0.0
  {
    var k := Quot(1.0, x);
    if k >= 0.0 { MulNonNeg(k, -x, -(k * x)); }
  }

  lemma NonPositiveProduct(k: real, l: real)
    requires k < 0.0 && 0.0 <= l
    ensures k * l <= 0.0
  {
    MulNonNeg(-k, l, -(k * l));
  }

  /** With a non-negative square root the near root is never beyond the far
      root. */
  lemma NearBeforeFar(sqrt: real -> real, s: Sphere, r: Ray)
    requires 0.0 <= sqrt(Discriminant(s, r))
    ensures NearRoot(sqrt, s, r) <= FarRoot(sqrt, s, r)
  {
    var sd := sqrt(Discriminant(s, r));
    QuotMono(-HalfB(s, r) - sd, -HalfB(s, r) + sd, A(r));
  }

  lemma QuotMono(x: real, y: real, a: real)
    requires x <= y && 0.0 <= a
    ensures Quot(x, a) <= Quot(y, a)
  {
    if a != 0.0 {
      var qx, qy := Quot(x, a), Quot(y, a);
      assert qx * a == x && qy * a == y;
      if qx > qy { MulPos(qx - qy, a, x - y); }
    }
  }

  /** Narrowing the upper end of the query to any `b` within it keeps
      exactly the hits that were at most `b`: the query `[tMin, b]` reports
      the hit of `[tMin, tMax]` if its `t` is at most `b`, and nothing
      otherwise. */
  lemma NarrowedQuery(sqrt: real -> real, s: Sphere, r: Ray, tMin: real, tMax: Bound, b: real)
    requires IsSqrt(sqrt) && Below(b, tMax)
    ensures var h := Intersect(sqrt, s, r, tMin, tMax);
      Intersect(sqrt, s, r, tMin, Finite(b)) ==
        if h.Some? && h.value.t <= b then h else None
  {
    if 0.0 <= Discriminant(s, r) {
      assert 0.0 <= sqrt(Discriminant(s, r));
      NarrowedRoots(sqrt, s, r, tMin, tMax, b);
    }
  }

  lemma NarrowedRoots(sqrt: real -> real, s: Sphere, r: Ray, tMin: real, tMax: Bound, b: real)
    requires 0.0 <= Discriminant(s, r) && 0.0 <= sqrt(Discriminant(s, r)) && Below(b, tMax)
    ensures var h := Intersect(sqrt, s, r, tMin, tMax);
      Intersect(sqrt, s, r, tMin, Finite(b)) ==
        if h.Some? && h.value.t <= b then h else None
  {
    NearBeforeFar(sqrt, s, r);
  }
}
