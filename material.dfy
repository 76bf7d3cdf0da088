/** The three materials (`Lambertian`, `Metal`, `Dielectric`) as one
    datatype with a variant per subclass, the `Metal` constructor's fuzz
    clamp and Schlick's reflectance.  The scatter rules, which read a hit
    record, are in module `Scattering` below: Dafny modules may not import
    each other in a cycle, and the hit record holds a material. */
module Materials {
  import opened Reals
  import opened Vectors

  datatype Material =
    | Lambertian(albedo: Colour)
    | Metal(albedo: Colour, fuzz: real)
    | Dielectric(ri: real)

  /** The `Metal` constructor: a fuzz of 1 or more is clamped to 1. */
  function MakeMetal(albedo: Colour, f: real): (m: Material)
    ensures m.Metal? && m.albedo == albedo
    ensures m.fuzz <= 1.0
    ensures f < 1.0 ==> m.fuzz == f
    ensures 1.0 <= f ==> m.fuzz == 1.0
  {
    Metal(albedo, if f < 1.0 then f else 1.0)
  }

  /** Schlick's approximation `r0 + (1 - r0) * (1 - cosine)^5`, where
      `r0 = ((1 - refIdx) / (1 + refIdx))^2`.  At normal incidence
      (`cosine == 1`) it is `r0`, at grazing incidence (`cosine == 0`) it is
      1, and for a cosine in [0,1] and a non-negative index it is a
      probability. */
  function Reflectance(cosine: real, refIdx: real): (r: real)
    ensures cosine == 1.0 ==> r == Quot(1.0 - refIdx, 1.0 + refIdx) * Quot(1.0 - refIdx, 1.0 + refIdx)
    ensures cosine == 0.0 ==> r == 1.0
    ensures 0.0 <= cosine <= 1.0 && 0.0 <= refIdx ==> 0.0 <= r <= 1.0
  {
    var r0 := Quot(1.0 - refIdx, 1.0 + refIdx);
    var r0 := r0 * r0;
    var p := Pow5(1.0 - cosine);
    if 0.0 <= cosine <= 1.0 && 0.0 <= refIdx then
      ReflectanceAtNormalIsProbability(refIdx);
      Blend(r0, p);
      r0 + (1.0 - r0) * p
    else
      r0 + (1.0 - r0) * p
  }

  /** `r0 + (1 - r0) * p` stays in [0,1] when both `r0` and `p` do. */
  lemma Blend(r0: real, p: real)
    requires 0.0 <= r0 <= 1.0 && 0.0 <= p <= 1.0
    ensures 0.0 <= r0 + (1.0 - r0) * p <= 1.0
  {
    UnitProduct(1.0 - r0, p);
    MulMono(p, 1.0, 1.0 - r0);
    assert p * (1.0 - r0) == (1.0 - r0) * p;
  }

  /** For a non-negative index, `r0` lies in [0,1]. */
  lemma ReflectanceAtNormalIsProbability(refIdx: real)
    requires 0.0 <= refIdx
    ensures 0.0 <= Quot(1.0 - refIdx, 1.0 + refIdx) * Quot(1.0 - refIdx, 1.0 + refIdx) <= 1.0
  {
    var q := Quot(1.0 - refIdx, 1.0 + refIdx);
    assert q * (1.0 + refIdx) == 1.0 - refIdx;
    assert -1.0 <= q <= 1.0 by {
      if q > 1.0 { MulPos(q - 1.0, 1.0 + refIdx, q * (1.0 + refIdx) - (1.0 + refIdx)); }
      if q < -1.0 { MulPos(-1.0 - q, 1.0 + refIdx, -(q * (1.0 + refIdx)) - (1.0 + refIdx)); }
    }
    if q >= 0.0 { UnitProduct(q, q); } else { UnitProduct(-q, -q); }
  }
}

/** The scatter rules of the three materials (`Material::scatter`).  The
    out-parameters `attenuation` and `scattered` and the boolean result
    become the fields of a `ScatterResult`. */
module Scattering {
  import opened Reals
  import opened Vectors
  import opened Rays
  import opened Materials
  import opened Hittables

  /** The random input one scatter call consumes: a point that
      `random_in_unit_sphere` returned, and one `random_double()` in [0,1). */
  datatype ScatterDraw = ScatterDraw(inSphere: Vec3, uniform: real)

  datatype ScatterResult = ScatterResult(scatters: bool, attenuation: Colour, scattered: Ray)

  const White: Colour := Vec3(1.0, 1.0, 1.0)

  /** `Lambertian::scatter`: always scatters from the hit point with the
      albedo as attenuation, towards the normal plus a random unit vector,
      falling back to exactly the normal when that sum is near zero. */
  function LambertianScatter(sqrt: real -> real, albedo: Colour, rec: Hit, inSphere: Vec3): (s: ScatterResult)
    ensures s.scatters && s.attenuation == albedo && s.scattered.orig == rec.p
    ensures var sum := Add(rec.normal, UnitVector(sqrt, inSphere));
      s.scattered.dir == if NearZero(sum) then rec.normal else sum
    ensures !NearZero(s.scattered.dir) || s.scattered.dir == rec.normal
  {
    var scatterDirection := Add(rec.normal, UnitVector(sqrt, inSphere));
    var scatterDirection := if NearZero(scatterDirection) then rec.normal else scatterDirection;
    ScatterResult(true, albedo, Ray(rec.p, scatterDirection))
  }

  /** `Metal::scatter`: the mirror reflection of the unit incoming direction,
      perturbed by `fuzz` times a point of the unit ball.  Attenuation and
      scattered ray are written whatever the outcome; the ray scatters
      exactly when it leaves on the normal's side. */
  function MetalScatter(sqrt: real -> real, albedo: Colour, fuzz: real, rIn: Ray, rec: Hit, inSphere: Vec3): (s: ScatterResult)
    ensures s.attenuation == albedo && s.scattered.orig == rec.p
    ensures s.scattered.dir == Add(Reflect(UnitVector(sqrt, rIn.dir), rec.normal), Scale(fuzz, inSphere))
    ensures s.scatters <==> 0.0 < Dot(s.scattered.dir, rec.normal)
  {
    var reflected := Reflect(UnitVector(sqrt, rIn.dir), rec.normal);
    var scattered := Ray(rec.p, Add(reflected, Scale(fuzz, inSphere)));
    ScatterResult(Dot(scattered.dir, rec.normal) > 0.0, albedo, scattered)
  }

  /** The ratio of refractive indices on the way in (front face) and out. */
  function RefractionRatio(ri: real, frontFace: bool): real
  {
    if frontFace then Quot(1.0, ri) else ri
  }

  /** `cos_theta`: the cosine of the angle between the reversed unit
      direction and the normal, capped at 1. */
  function CosTheta(unitDirection: Vec3, normal: Vec3): (c: real)
    ensures c <= 1.0
  {
    Min(Dot(Neg(unitDirection), normal), 1.0)
  }

  /** Snell's law has no solution: total internal reflection. */
  predicate CannotRefract(sqrt: real -> real, refractionRatio: real, cosTheta: real)
  {
    refractionRatio * sqrt(1.0 - cosTheta * cosTheta) > 1.0
  }

  /** `Dielectric::scatter`: always scatters from the hit point with a white
      attenuation; it reflects under total internal reflection or when the
      draw falls below Schlick's reflectance, and refracts otherwise. */
  function DielectricScatter(sqrt: real -> real, ri: real, rIn: Ray, rec: Hit, uniform: real): (s: ScatterResult)
    ensures s.scatters && s.attenuation == White && s.scattered.orig == rec.p
    ensures var ratio := RefractionRatio(ri, rec.frontFace);
      var unitDirection := UnitVector(sqrt, rIn.dir);
      var cosTheta := CosTheta(unitDirection, rec.normal);
      s.scattered.dir ==
        if CannotRefract(sqrt, ratio, cosTheta) || Reflectance(cosTheta, ratio) > uniform
        then Reflect(unitDirection, rec.normal)
        else Refract(sqrt, unitDirection, rec.normal, ratio)
  {
    var attenuation := White;
    var refractionRatio := RefractionRatio(ri, rec.frontFace);
    var unitDirection := UnitVector(sqrt, rIn.dir);
    var cosTheta := CosTheta(unitDirection, rec.normal);
    var cannotRefract := CannotRefract(sqrt, refractionRatio, cosTheta);
    var randRefl := Reflectance(cosTheta, refractionRatio) > uniform;
    var direction :=
      if cannotRefract || randRefl then Reflect(unitDirection, rec.normal)
      else Refract(sqrt, unitDirection, rec.normal, refractionRatio);
    ScatterResult(true, attenuation, Ray(rec.p, direction))
  }

  /** `rec.mat_ptr->scatter(...)`: dispatch on the hit material. */
  function Scatter(sqrt: real -> real, rIn: Ray, rec: Hit, draw: ScatterDraw): (s: ScatterResult)
    ensures s.scattered.orig == rec.p
    ensures s.attenuation == match rec.mat
      case Lambertian(albedo) => albedo
      case Metal(albedo, _) => albedo
      case Dielectric(_) => White
    ensures !rec.mat.Metal? ==> s.scatters
  {
    match rec.mat
    case Lambertian(albedo) => LambertianScatter(sqrt, albedo, rec, draw.inSphere)
    case Metal(albedo, fuzz) => MetalScatter(sqrt, albedo, fuzz, rIn, rec, draw.inSphere)
    case Dielectric(ri) => DielectricScatter(sqrt, ri, rIn, rec, draw.uniform)
  }

  /** A mirror metal (fuzz 0) hit from the front of a unit normal reflects the
      unit incoming direction exactly, and the reflected ray scatters. */
  lemma PerfectMirrorScatters(sqrt: real -> real, albedo: Colour, rIn: Ray, rec: Hit, inSphere: Vec3)
    requires IsSqrt(sqrt)
    requires LengthSquared(rec.normal) == 1.0 && Dot(rIn.dir, rec.normal) < 0.0
    ensures var s := MetalScatter(sqrt, albedo, 0.0, rIn, rec, inSphere);
      s.scattered.dir == Reflect(UnitVector(sqrt, rIn.dir), rec.normal) && s.scatters
  {
    UnitVectorKeepsSign(sqrt, rIn.dir, rec.normal);
    MirrorReflects(sqrt, albedo, rIn, rec, inSphere);
  }

  /** The same, given directly that the unit incoming direction travels
      against the normal. */
  lemma MirrorReflects(sqrt: real -> real, albedo: Colour, rIn: Ray, rec: Hit, inSphere: Vec3)
    requires LengthSquared(rec.normal) == 1.0
    requires Dot(UnitVector(sqrt, rIn.dir), rec.normal) < 0.0
    ensures var s := MetalScatter(sqrt, albedo, 0.0, rIn, rec, inSphere);
      s.scattered.dir == Reflect(UnitVector(sqrt, rIn.dir), rec.normal) && s.scatters
  {
    var u := UnitVector(sqrt, rIn.dir);
    ReflectLeavesSurface(u, rec.normal);
    var reflected := Reflect(u, rec.normal);
    assert Add(reflected, Scale(0.0, inSphere)) == reflected;
  }

  /** Under total internal reflection a dielectric reflects whatever the
      random draw, which it consumes all the same. */
  lemma TotalInternalReflection(sqrt: real -> real, ri: real, rIn: Ray, rec: Hit, u1: real, u2: real)
    requires CannotRefract(sqrt, RefractionRatio(ri, rec.frontFace),
                           CosTheta(UnitVector(sqrt, rIn.dir), rec.normal))
    ensures DielectricScatter(sqrt, ri, rIn, rec, u1).scattered.dir == Reflect(UnitVector(sqrt, rIn.dir), rec.normal)
    ensures DielectricScatter(sqrt, ri, rIn, rec, u1) == DielectricScatter(sqrt, ri, rIn, rec, u2)
  {
  }
}
