/**
 * The two-dimensional vector of the packing engine. Coordinates are exact reals, not
 * IEEE doubles. `Math.sqrt` is not modelled concretely: every operation that needs it
 * takes it as a parameter, and a fact that needs more than "it is a function" says what
 * it needs of it (`SqrtNonNegative`).
 * The source's `mul` and `normalize` scale the receiver in place; no vector is ever
 * shared between two owners, so they are modelled as functions returning the new value.
 */
module Geometry {

  datatype Vector = Vector(x: real, y: real)

  /** Below this length `length()` reports `Epsilon` instead, so that `normalize` never divides by zero. */
  const TinyLength: real := 0.005
  const Epsilon: real := 0.000001

  /** `sqrt` returns a non-negative value on non-negative input, as `Math.sqrt` does. */
  ghost predicate SqrtNonNegative(sqrt: real -> real) {
    forall a: real :: 0.0 <= a ==> 0.0 <= sqrt(a)
  }

  /** `Vector.mul`: scale both coordinates by `factor`. */
  function Mul(v: Vector, factor: real): (r: Vector)
    ensures factor == 1.0 ==> r == v
    ensures v == Vector(0.0, 0.0) ==> r == v
  {
    Vector(v.x * factor, v.y * factor)
  }

  /** `Vector.length`: the Euclidean length, reported as `Epsilon` when it is within 0.005 of zero. */
  function Length(v: Vector, sqrt: real -> real): (l: real)
    ensures l != 0.0
    ensures l <= -TinyLength || TinyLength <= l || l == Epsilon
    ensures SqrtNonNegative(sqrt) ==> 0.0 < l
  {
    var length := sqrt(v.x * v.x + v.y * v.y);
    if length < TinyLength && length > -TinyLength then Epsilon else length
  }

  /** `Vector.normalize`: divide both coordinates by `length()`; total, because the length is never 0. */
  function Normalize(v: Vector, sqrt: real -> real): (r: Vector)
    ensures r.x * Length(v, sqrt) == v.x && r.y * Length(v, sqrt) == v.y
    ensures v == Vector(0.0, 0.0) ==> r == v
  {
    var l := Length(v, sqrt);
    Vector(v.x / l, v.y / l)
  }

  /** `Vector.distanceSquared`: the squared distance, the same in both directions and never negative. */
  function DistanceSquared(a: Vector, b: Vector): (d: real)
    ensures 0.0 <= d
    ensures d == (b.x - a.x) * (b.x - a.x) + (b.y - a.y) * (b.y - a.y)
    ensures a == b ==> d == 0.0
  {
    var deltaX := a.x - b.x;
    var deltaY := a.y - b.y;
    deltaX * deltaX + deltaY * deltaY
  }
}
