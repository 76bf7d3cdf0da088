/** The intersection protocol shared by every surface: the admissible
    parameter interval of a query, the hit record and its face-normal
    bookkeeping (`hit_record::set_face_normal`). */
module Hittables {
  import opened Vectors
  import opened Rays
  import opened Materials

  /** The upper end of a query interval: a finite value, or the `infinity`
      with which the renderer queries the world. */
  datatype Bound = Finite(value: real) | Infinite

  /** `t <= b` for an extended upper bound. */
  predicate Below(t: real, b: Bound)
  {
    b.Infinite? || t <= b.value
  }

  /** The source rejects a root when `root < t_min || t_max < root`, so the
      accepted interval `[tMin, tMax]` is closed at both ends. */
  predicate InRange(t: real, tMin: real, tMax: Bound)
  {
    !(t < tMin || (tMax.Finite? && tMax.value < t))
  }

  /** The value of a hit record, as an intersection test reports it. */
  datatype Hit = Hit(p: Point3, normal: Vec3, mat: Material, t: real, frontFace: bool)

  /** The pair of fields that `set_face_normal` writes. */
  datatype Facing = Facing(frontFace: bool, normal: Vec3)

  /** What `set_face_normal` stores: the ray hits the front face when it
      travels against the outward normal, and the stored normal is the
      outward one flipped, if need be, to point against the ray; it keeps the
      outward normal's length. */
  function FaceNormal(r: Ray, outwardNormal: Vec3): (f: Facing)
    ensures f.frontFace <==> Dot(r.dir, outwardNormal) < 0.0
    ensures f.frontFace ==> f.normal == outwardNormal
    ensures !f.frontFace ==> f.normal == Neg(outwardNormal)
    ensures Dot(r.dir, f.normal) <= 0.0
    ensures LengthSquared(f.normal) == LengthSquared(outwardNormal)
  {
    var frontFace := Dot(r.dir, outwardNormal) < 0.0;
    Facing(frontFace, if frontFace then outwardNormal else Neg(outwardNormal))
  }

  /** `hit_record`: a record the intersection tests write field by field. */
  class HitRecord {
    var p: Point3
    var normal: Vec3
    var mat: Material
    var t: real
    var frontFace: bool

    constructor (h: Hit)
      ensures Value() == h
    {
      p, normal, mat, t, frontFace := h.p, h.normal, h.mat, h.t, h.frontFace;
    }

    function Value(): Hit
      reads this
    {
      Hit(p, normal, mat, t, frontFace)
    }

    /** `set_face_normal`: writes `front_face` and `normal` as `FaceNormal`
        says; `p`, `t` and the material are untouched. */
    method SetFaceNormal(r: Ray, outwardNormal: Vec3)
      modifies this
      ensures Facing(frontFace, normal) == FaceNormal(r, outwardNormal)
      ensures p == old(p) && t == old(t) && mat == old(mat)
    {
      frontFace := Dot(r.dir, outwardNormal) < 0.0;
      normal := if frontFace then outwardNormal else Neg(outwardNormal);
    }

    /** The assignment `rec = other` of one record to another. */
    method CopyFrom(other: HitRecord)
      modifies this
      ensures Value() == old(other.Value())
    {
      p, normal, mat, t, frontFace := other.p, other.normal, other.mat, other.t, other.frontFace;
    }
  }
}
