/** The 3-vector of the renderer (`Vec3`, with its aliases `Point3` and
    `Colour`): the free operators, dot and cross products, reflection and
    refraction, the near-zero test, the three sampling helpers and the
    compound assignments that update a vector in place. */
module Vectors {
  import opened Reals
  import opened Options

  datatype Vec3 = Vec3(x: real, y: real, z: real)

  /** A point in space. */
  type Point3 = Vec3
  /** An RGB colour, one channel per component. */
  type Colour = Vec3

  const Zero: Vec3 := Vec3(0.0, 0.0, 0.0)

  /** Unary `-`: the additive inverse. */
  function Neg(v: Vec3): (r: Vec3)
    ensures Add(v, r) == Zero
  {
    Vec3(-v.x, -v.y, -v.z)
  }

  function Add(u: Vec3, v: Vec3): Vec3
  {
    Vec3(u.x + v.x, u.y + v.y, u.z + v.z)
  }

  /** Binary `-`: undoes `+`. */
  function Sub(u: Vec3, v: Vec3): (r: Vec3)
    ensures Add(r, v) == u
  {
    Vec3(u.x - v.x, u.y - v.y, u.z - v.z)
  }

  /** Componentwise `*` of two vectors (used on colours). */
  function Mul(u: Vec3, v: Vec3): Vec3
  {
    Vec3(u.x * v.x, u.y * v.y, u.z * v.z)
  }

  /** `t * v` and `v * t`. */
  function Scale(t: real, v: Vec3): Vec3
  {
    Vec3(t * v.x, t * v.y, t * v.z)
  }

  /** `v / t`, computed as `(1 / t) * v`. */
  function Div(v: Vec3, t: real): Vec3
  {
    Scale(Quot(1.0, t), v)
  }

  /** Dividing by a non-zero `t` undoes scaling by `t`, and conversely. */
  lemma DivUndoesScale(v: Vec3, t: real)
    requires t != 0.0
    ensures Scale(t, Div(v, t)) == v && Div(Scale(t, v), t) == v
  {
    var k := Quot(1.0, t);
    assert k * t == 1.0;
    assert Scale(t, Div(v, t)) == Scale(t * k, v);
    assert Div(Scale(t, v), t) == Scale(k * t, v);
  }

  function Dot(u: Vec3, v: Vec3): real
  {
    u.x * v.x + u.y * v.y + u.z * v.z
  }

  /** `length_squared`: the dot product of a vector with itself, never
      negative and zero only for the zero vector. */
  function LengthSquared(v: Vec3): (r: real)
    ensures r == Dot(v, v)
    ensures 0.0 <= r
    ensures r == 0.0 <==> v == Zero
  {
    SquareZero(v.x);
    SquareZero(v.y);
    SquareZero(v.z);
    v.x * v.x + v.y * v.y + v.z * v.z
  }

  lemma SquareZero(a: real)
    ensures 0.0 <= a * a
    ensures a * a == 0.0 <==> a == 0.0
  {
    if a > 0.0 { MulPos(a, a, a * a); }
    if a < 0.0 { MulPos(-a, -a, a * a); }
  }

  /** The cross product is orthogonal to both of its arguments. */
  function Cross(u: Vec3, v: Vec3): (r: Vec3)
    ensures Dot(r, u) == 0.0 && Dot(r, v) == 0.0
  {
    Vec3(u.y * v.z - u.z * v.y,
         u.z * v.x - u.x * v.z,
         u.x * v.y - u.y * v.x)
  }

  /** `length`, with the square root supplied by the caller. */
  function Length(sqrt: real -> real, v: Vec3): real
  {
    sqrt(LengthSquared(v))
  }

  /** `unit_vector`: `v / v.length()`. */
  function UnitVector(sqrt: real -> real, v: Vec3): Vec3
  {
    Div(v, Length(sqrt, v))
  }

  /** `near_zero`: every component is below 1e-8 in magnitude. */
  predicate NearZero(v: Vec3)
  {
    var s := 0.00000001;
    Abs(v.x) < s && Abs(v.y) < s && Abs(v.z) < s
  }

  /** `reflect`: the mirror image of `v` in the plane with normal `n`; for a
      unit normal the component along the normal changes sign. */
  function Reflect(v: Vec3, n: Vec3): (r: Vec3)
    ensures LengthSquared(n) == 1.0 ==> Dot(r, n) == -Dot(v, n)
  {
    Sub(v, Scale(2.0 * Dot(v, n), n))
  }

  /** `refract`: Snell's law for a unit incoming direction `uv`, a unit
      normal `n` and the ratio of refractive indices. */
  function Refract(sqrt: real -> real, uv: Vec3, n: Vec3, etaiOverEtat: real): Vec3
  {
    var cosTheta := Min(Dot(Neg(uv), n), 1.0);
    var rOutPerp := Scale(etaiOverEtat, Add(uv, Scale(cosTheta, n)));
    var rOutPar := Scale(-sqrt(Abs(1.0 - LengthSquared(rOutPerp))), n);
    Add(rOutPerp, rOutPar)
  }

  /** `random_in_hemisphere`, given the point `inSphere` that
      `random_in_unit_sphere` drew: that point or its negation, whichever
      lies on the side of `normal`. */
  function RandomInHemisphere(normal: Vec3, inSphere: Vec3): (r: Vec3)
    ensures r == inSphere || r == Neg(inSphere)
    ensures 0.0 <= Dot(r, normal)
    ensures 0.0 < Dot(inSphere, normal) ==> r == inSphere
    ensures Dot(inSphere, normal) <= 0.0 ==> r == Neg(inSphere)
  {
    if Dot(inSphere, normal) > 0.0 then inSphere else Neg(inSphere)
  }

  /** `random_in_unit_sphere`: a rejection loop over candidate points drawn
      uniformly from the cube [-1,1)^3.  `cube` is the stream of candidates
      the random source would produce; `used` is how many of them the loop
      consumed.  The loop of the source never gives up; when the finite
      stream runs out the model returns `None`. */
  method RandomInUnitSphere(cube: seq<Vec3>) returns (p: Option<Vec3>, used: nat)
    ensures used <= |cube|
    ensures p.Some? ==> 0 < used && p.value == cube[used - 1] && LengthSquared(p.value) < 1.0
    ensures p.None? ==> used == |cube|
    ensures forall j :: 0 <= j < used && (p.None? || j < used - 1) ==> 1.0 <= LengthSquared(cube[j])
  {
    var i := 0;
    while i < |cube|
      invariant 0 <= i <= |cube|
      invariant forall j :: 0 <= j < i ==> 1.0 <= LengthSquared(cube[j])
    {
      var q := cube[i];
      i := i + 1;
      if LengthSquared(q) >= 1.0 {
        continue;
      }
      return Some(q), i;
    }
    return None, |cube|;
  }

  /** `random_in_unit_disk`: the same rejection loop in the plane z = 0,
      over candidate pairs drawn uniformly from the square [-1,1)^2. */
  method RandomInUnitDisk(square: seq<(real, real)>) returns (p: Option<Vec3>, used: nat)
    ensures used <= |square|
    ensures p.Some? ==> 0 < used && p.value == Vec3(square[used - 1].0, square[used - 1].1, 0.0)
    ensures p.Some? ==> p.value.z == 0.0 && p.value.x * p.value.x + p.value.y * p.value.y < 1.0
    ensures p.None? ==> used == |square|
    ensures forall j :: 0 <= j < used && (p.None? || j < used - 1) ==>
      1.0 <= square[j].0 * square[j].0 + square[j].1 * square[j].1
  {
    var i := 0;
    while i < |square|
      invariant 0 <= i <= |square|
      invariant forall j :: 0 <= j < i ==> 1.0 <= square[j].0 * square[j].0 + square[j].1 * square[j].1
    {
      var q := Vec3(square[i].0, square[i].1, 0.0);
      i := i + 1;
      if LengthSquared(q) >= 1.0 {
        continue;
      }
      return Some(q), i;
    }
    return None, |square|;
  }

  /** A `Vec3` variable that the compound assignments `+=`, `*=` and `/=`
      update in place: its three coordinates live in the array `e`. */
  class MutableVec3 {
    const e: array<real>

    ghost predicate Valid()
    {
      e.Length == 3
    }

    function Value(): Vec3
      reads e
      requires Valid()
    {
      Vec3(e[0], e[1], e[2])
    }

    constructor (v: Vec3)
      ensures Valid() && fresh(e)
      ensures Value() == v
    {
      e := new real[3][v.x, v.y, v.z];
    }

    /** `+=`: componentwise addition; nothing but the three coordinates changes. */
    method AddAssign(v: Vec3)
      requires Valid()
      modifies e
      ensures Valid()
      ensures Value() == Add(old(Value()), v)
    {
      e[0] := e[0] + v.x;
      e[1] := e[1] + v.y;
      e[2] := e[2] + v.z;
    }

    /** `*=`: scaling by `t`. */
    method MulAssign(t: real)
      requires Valid()
      modifies e
      ensures Valid()
      ensures Value() == Scale(t, old(Value()))
    {
      e[0] := e[0] * t;
      e[1] := e[1] * t;
      e[2] := e[2] * t;
    }

    /** `/=`: defined as `*= 1 / t`, so for `t != 0` it undoes `*= t`. */
    method DivAssign(t: real)
      requires Valid()
      modifies e
      ensures Valid()
      ensures Value() == Div(old(Value()), t)
      ensures t != 0.0 ==> Scale(t, Value()) == old(Value())
    {
      if t != 0.0 {
        DivUndoesScale(Value(), t);
      }
      MulAssign(Quot(1.0, t));
    }
  }

  /** The dot product is symmetric. */
  lemma DotSymmetric(u: Vec3, v: Vec3)
    ensures Dot(u, v) == Dot(v, u)
  {
  }

  /** Reflecting twice in the same unit normal gives back the original vector. */
  lemma ReflectTwice(v: Vec3, n: Vec3)
    requires LengthSquared(n) == 1.0
    ensures Reflect(Reflect(v, n), n) == v
  {
    var r := Reflect(v, n);
    assert Dot(r, n) == -Dot(v, n);
    var k := 2.0 * Dot(v, n);
    assert Reflect(r, n) == Sub(r, Scale(-k, n));
  }

  /** The zero vector is near zero. */
  lemma ZeroIsNearZero()
    ensures NearZero(Zero)
  {
  }

  /** No unit vector is near zero. */
  lemma UnitIsNotNearZero(v: Vec3)
    requires LengthSquared(v) == 1.0
    ensures !NearZero(v)
  {
    NearZeroIsShort(v);
  }

  /** A near-zero vector has a squared length below 3e-16. */
  lemma NearZeroIsShort(v: Vec3)
    ensures NearZero(v) ==> LengthSquared(v) < 3.0 * 0.00000001 * 0.00000001
  {
    var s := 0.00000001;
    if NearZero(v) {
      SmallSquare(v.x, s);
      SmallSquare(v.y, s);
      SmallSquare(v.z, s);
    }
  }

  lemma SmallSquare(a: real, s: real)
    requires Abs(a) < s
    ensures a * a < s * s
  {
    var b := Abs(a);
    assert a * a == b * b;
    MulPos(s - b, s + b, s * s - b * b);
  }

  /** For a non-zero vector `unit_vector` has length 1 and points the same way. */
  lemma UnitVectorIsUnit(sqrt: real -> real, v: Vec3)
    requires IsSqrt(sqrt) && v != Zero
    ensures LengthSquared(UnitVector(sqrt, v)) == 1.0
    ensures Scale(Length(sqrt, v), UnitVector(sqrt, v)) == v
    ensures 0.0 < Length(sqrt, v)
  {
    var l2 := LengthSquared(v);
    var l := Length(sqrt, v);
    SqrtPositive(sqrt, l2);
    assert 0.0 < l && l * l == l2;
    var k := Quot(1.0, l);
    assert k * l == 1.0;
    ScaledLengthSquared(k, v);
    assert LengthSquared(UnitVector(sqrt, v)) == (k * k) * l2;
    calc {
      (k * k) * l2;
      (k * k) * (l * l);
      (k * l) * (k * l);
      1.0;
    }
  }

  /** A vector arriving against a unit normal is reflected to the normal's side. */
  lemma ReflectLeavesSurface(v: Vec3, n: Vec3)
    requires LengthSquared(n) == 1.0 && Dot(v, n) < 0.0
    ensures 0.0 < Dot(Reflect(v, n), n)
  {
  }

  /** Normalising a vector does not change the sign of its dot product
      with another. */
  lemma UnitVectorKeepsSign(sqrt: real -> real, v: Vec3, n: Vec3)
    requires IsSqrt(sqrt) && Dot(v, n) < 0.0
    ensures Dot(UnitVector(sqrt, v), n) < 0.0
  {
    assert v != Zero;
    UnitVectorIsUnit(sqrt, v);
    var l := Length(sqrt, v);
    var u := UnitVector(sqrt, v);
    DotScale(l, u, n);
    assert l * Dot(u, n) == Dot(v, n);
    if Dot(u, n) >= 0.0 {
      MulNonNeg(l, Dot(u, n), l * Dot(u, n));
    }
  }

  /** Scaling either argument of the dot product scales the product. */
  lemma DotScale(t: real, u: Vec3, v: Vec3)
    ensures Dot(Scale(t, u), v) == t * Dot(u, v)
  {
  }

  /** Scaling a vector by `t` scales its squared length by `t * t`. */
  lemma ScaledLengthSquared(t: real, v: Vec3)
    ensures LengthSquared(Scale(t, v)) == (t * t) * LengthSquared(v)
  {
  }

  /** For a unit normal `n` whose angle to `-uv` is at most 180 degrees, the
      refracted direction keeps the tangential part of `uv` scaled by the
      index ratio (Snell's law) and never points to the side of `n`. */
  lemma RefractSnell(sqrt: real -> real, uv: Vec3, n: Vec3, eta: real)
    requires IsSqrt(sqrt)
    requires LengthSquared(n) == 1.0 && Dot(Neg(uv), n) <= 1.0
    ensures var r := Refract(sqrt, uv, n, eta);
      Sub(r, Scale(Dot(r, n), n)) == Scale(eta, Sub(uv, Scale(Dot(uv, n), n))) &&
      Dot(r, n) <= 0.0
    ensures var perp := Scale(eta, Sub(uv, Scale(Dot(uv, n), n)));
      LengthSquared(perp) <= 1.0 ==> LengthSquared(Refract(sqrt, uv, n, eta)) == 1.0
  {
    var perp := Scale(eta, Sub(uv, Scale(Dot(uv, n), n)));
    RefractedPerp(uv, n, eta);
    var l2 := LengthSquared(perp);
    var s := sqrt(Abs(1.0 - l2));
    assert 0.0 <= s && s * s == Abs(1.0 - l2);
    NormalPart(perp, n, s);
    OrthogonalSum(perp, n, s);
  }

  /** With the cosine not capped, the perpendicular part of `refract` is the
      tangential part of `uv` scaled by the ratio, and it is orthogonal to a
      unit normal. */
  lemma RefractedPerp(uv: Vec3, n: Vec3, eta: real)
    requires LengthSquared(n) == 1.0 && Dot(Neg(uv), n) <= 1.0
    ensures var perp := Scale(eta, Add(uv, Scale(Min(Dot(Neg(uv), n), 1.0), n)));
      perp == Scale(eta, Sub(uv, Scale(Dot(uv, n), n))) && Dot(perp, n) == 0.0
  {
    var k := Dot(uv, n);
    UncappedCosine(uv, n);
    AddNegated(uv, n, k);
    TangentialPart(uv, n);
    var tangential := Sub(uv, Scale(k, n));
    DotScale(eta, tangential, n);
    assert eta * Dot(tangential, n) == 0.0;
  }

  lemma UncappedCosine(uv: Vec3, n: Vec3)
    requires Dot(Neg(uv), n) <= 1.0
    ensures Min(Dot(Neg(uv), n), 1.0) == -Dot(uv, n)
  {
  }

  lemma AddNegated(v: Vec3, n: Vec3, k: real)
    ensures Add(v, Scale(-k, n)) == Sub(v, Scale(k, n))
  {
  }

  /** Removing the normal component leaves a vector orthogonal to a unit normal. */
  lemma TangentialPart(v: Vec3, n: Vec3)
    requires LengthSquared(n) == 1.0
    ensures Dot(Sub(v, Scale(Dot(v, n), n)), n) == 0.0
  {
    var k := Dot(v, n);
    DotScale(k, n, n);
    assert Dot(Sub(v, Scale(k, n)), n) == Dot(v, n) - Dot(Scale(k, n), n);
  }

  /** Adding `-s n` to a vector orthogonal to a unit normal `n` adds `s^2`
      to its squared length. */
  lemma OrthogonalSum(perp: Vec3, n: Vec3, s: real)
    requires LengthSquared(n) == 1.0 && Dot(perp, n) == 0.0
    ensures LengthSquared(Add(perp, Scale(-s, n))) == LengthSquared(perp) + s * s
  {
    var q := Scale(-s, n);
    SumLengthSquared(perp, q);
    DotSymmetric(perp, q);
    DotScale(-s, n, perp);
    DotSymmetric(n, perp);
    ScaledLengthSquared(-s, n);
  }

  /** `|p + q|^2 == |p|^2 + 2 (p . q) + |q|^2`. */
  lemma SumLengthSquared(p: Vec3, q: Vec3)
    ensures LengthSquared(Add(p, q)) == LengthSquared(p) + 2.0 * Dot(p, q) + LengthSquared(q)
  {
  }

  /** Adding `-s n` to a vector orthogonal to a unit normal `n` gives a vector
      whose normal component is `-s` and whose tangential part is the
      original vector. */
  lemma NormalPart(perp: Vec3, n: Vec3, s: real)
    requires LengthSquared(n) == 1.0 && Dot(perp, n) == 0.0
    ensures var r := Add(perp, Scale(-s, n));
      Dot(r, n) == -s && Sub(r, Scale(Dot(r, n), n)) == perp
  {
    DotScale(-s, n, n);
    assert Dot(Add(perp, Scale(-s, n)), n) == Dot(perp, n) + Dot(Scale(-s, n), n);
  }
}
