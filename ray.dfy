/** `Ray`: an origin and a direction.  The constructor and the accessors
    `origin()` and `direction()` are the datatype's constructor and fields,
    so a ray built from an origin and a direction returns exactly those. */
module Rays {
  import opened Vectors

  datatype Ray = Ray(orig: Point3, dir: Vec3)

  /** `at(t)`: the point reached after travelling `t` along the direction;
      its offset from the origin is `t` times the direction. */
  function At(r: Ray, t: real): (p: Point3)
    ensures Sub(p, r.orig) == Scale(t, r.dir)
  {
    Add(r.orig, Scale(t, r.dir))
  }

  /** At parameter 0 the ray is at its origin. */
  lemma AtZero(r: Ray)
    ensures At(r, 0.0) == r.orig
  {
  }

  /** `at` is affine in its parameter. */
  lemma AtAffine(r: Ray, s: real, t: real)
    ensures At(r, s + t) == Add(At(r, s), Scale(t, r.dir))
  {
  }
}
