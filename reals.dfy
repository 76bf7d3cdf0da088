/** Scalar helpers shared by the whole model: the library calls `fabs`, `fmin`,
    `pow(x, 5)` and `sqrt` of the C++ standard library, and division.

    Doubles are modelled as mathematical reals.  IEEE-754 division by zero
    yields an infinity or NaN; the model has no such values, so `Quot`
    collapses a zero divisor to the result 0.  Most properties that depend
    on a division are stated for a non-zero divisor; the few that also cover
    a zero divisor (the unit vector of the zero direction, which the model
    makes the zero vector) say so. */
module Reals {

  /** `x / y`, with the non-finite IEEE results of `y == 0` collapsed to 0. */
  function Quot(x: real, y: real): (q: real)
    ensures y != 0.0 ==> q * y == x
  {
    if y == 0.0 then 0.0 else x / y
  }

  /** `fabs` */
  function Abs(x: real): (a: real)
    ensures 0.0 <= a && (a == x || a == -x)
  {
    if x < 0.0 then -x else x
  }

  /** `fmin`: the smaller of the two arguments. */
  function Min(x: real, y: real): (m: real)
    ensures m <= x && m <= y && (m == x || m == y)
  {
    if x <= y then x else y
  }

  /** `pow(x, 5)`, written out as repeated multiplication. */
  function Pow5(x: real): (p: real)
    ensures 0.0 <= x <= 1.0 ==> 0.0 <= p <= 1.0
    ensures x == 0.0 ==> p == 0.0
    ensures x == 1.0 ==> p == 1.0
  {
    if 0.0 <= x <= 1.0 then
      UnitProduct(x, x);
      UnitProduct(x * x, x);
      UnitProduct(x * x * x, x);
      UnitProduct(x * x * x * x, x);
      x * x * x * x * x
    else
      x * x * x * x * x
  }

  /** The unit interval is closed under multiplication. */
  lemma UnitProduct(x: real, y: real)
    requires 0.0 <= x <= 1.0 && 0.0 <= y <= 1.0
    ensures 0.0 <= x * y <= 1.0
  {
    MulNonNeg(x, y, x * y);
    MulNonNeg(1.0 - x, y, y - x * y);
  }

  /** Multiplying by a non-negative factor keeps an ordering. */
  lemma MulMono(a: real, b: real, c: real)
    requires a <= b && 0.0 <= c
    ensures a * c <= b * c
  {
    MulNonNeg(b - a, c, b * c - a * c);
  }

  lemma MulNonNeg(a: real, b: real, p: real)
    requires 0.0 <= a && 0.0 <= b && p == a * b
    ensures 0.0 <= p
  {
  }

  lemma MulPos(a: real, b: real, p: real)
    requires 0.0 < a && 0.0 < b && p == a * b
    ensures 0.0 < p
  {
  }

  /** The square root of the C++ library is transcendental and has no
      definition here: every function that needs it takes it as a parameter
      `sqrt`, and a property that depends on its value assumes the one fact
      the model relies on, that it is the non-negative square root of every
      non-negative argument. */
  ghost predicate IsSqrt(sqrt: real -> real)
  {
    forall x: real :: 0.0 <= x ==> 0.0 <= sqrt(x) && sqrt(x) * sqrt(x) == x
  }

  /** A square root is zero exactly when its argument is zero. */
  lemma SqrtPositive(sqrt: real -> real, x: real)
    requires IsSqrt(sqrt) && 0.0 <= x
    ensures sqrt(x) == 0.0 <==> x == 0.0
  {
    var s := sqrt(x);
    assert 0.0 <= s && s * s == x;
    if s > 0.0 { MulPos(s, s, x); }
  }
}

/** An optional value: the model's stand-in for a `false` return that leaves
    an out-parameter unwritten. */
module Options {
  datatype Option<T> = None | Some(value: T)
}
