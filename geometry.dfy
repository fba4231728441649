/**
 * Vectors and rays over the reals. The program uses glm's single-precision
 * vec2/vec3; rounding is not modelled, so every component is a `real`.
 */
module Geometry {

  /** A glm::vec3. */
  datatype Vec3 = Vec3(x: real, y: real, z: real)

  /** A glm::vec2 (cursor positions). */
  datatype Vec2 = Vec2(x: real, y: real)

  /** A Ray (Ray.hpp): an origin and a direction that need not be normalized. */
  datatype Ray = Ray(origin: Vec3, direction: Vec3)

  /** glm's default-constructed vec3, the zero vector. */
  const Zero: Vec3 := Vec3(0.0, 0.0, 0.0)

  function Add(a: Vec3, b: Vec3): Vec3 {
    Vec3(a.x + b.x, a.y + b.y, a.z + b.z)
  }

  function Sub(a: Vec3, b: Vec3): Vec3 {
    Vec3(a.x - b.x, a.y - b.y, a.z - b.z)
  }

  function Scale(k: real, v: Vec3): Vec3 {
    Vec3(k * v.x, k * v.y, k * v.z)
  }

  function Dot(a: Vec3, b: Vec3): real {
    a.x * b.x + a.y * b.y + a.z * b.z
  }

  /** The squared Euclidean length; every length test of the program is made on it. */
  function LengthSq(v: Vec3): real {
    Dot(v, v)
  }

  /** Whether `l` is the Euclidean length of `v`, i.e. the non-negative square root of |v|^2. */
  ghost predicate IsLengthOf(l: real, v: Vec3) {
    l >= 0.0 && l * l == LengthSq(v)
  }

  lemma LengthSqNonNegative(v: Vec3)
    ensures LengthSq(v) >= 0.0
  {
    SquareNonNegative(v.x);
    SquareNonNegative(v.y);
    SquareNonNegative(v.z);
  }

  lemma ProductPositive(a: real, b: real)
    requires a > 0.0 && b > 0.0
    ensures a * b > 0.0
  {
  }

  lemma SquareNonNegative(a: real)
    ensures a * a >= 0.0
    ensures a != 0.0 ==> a * a > 0.0
  {
    if a < 0.0 {
      ProductPositive(-a, -a);
    } else if a > 0.0 {
      ProductPositive(a, a);
    }
  }

  /** Squaring is strictly monotonic on the non-negative reals. */
  lemma SquareStrictlyMonotonic(a: real, b: real)
    requires 0.0 <= a < b
    ensures a * a < b * b
  {
    ProductPositive(b - a, b + a);
    assert b * b - a * a == (b - a) * (b + a);
  }

  /**
   * Comparing lengths is comparing squared lengths: `length(a) <= s` holds
   * exactly when `|a|^2 <= s^2`, for any non-negative bound `s`.
   */
  lemma LengthAtMostIffSquared(l: real, v: Vec3, s: real)
    requires IsLengthOf(l, v) && s >= 0.0
    ensures l <= s <==> LengthSq(v) <= s * s
  {
    if l < s {
      SquareStrictlyMonotonic(l, s);
    } else if s < l {
      SquareStrictlyMonotonic(s, l);
    }
  }

  /** Strict comparison of two lengths is strict comparison of their squares. */
  lemma LengthLessIffSquared(la: real, a: Vec3, lb: real, b: Vec3)
    requires IsLengthOf(la, a) && IsLengthOf(lb, b)
    ensures la < lb <==> LengthSq(a) < LengthSq(b)
  {
    if la < lb {
      SquareStrictlyMonotonic(la, lb);
    } else if lb < la {
      SquareStrictlyMonotonic(lb, la);
    }
  }

  lemma DotScaleLeft(k: real, a: Vec3, b: Vec3)
    ensures Dot(Scale(k, a), b) == k * Dot(a, b)
  {
    assert (k * a.x) * b.x + (k * a.y) * b.y + (k * a.z) * b.z == k * (a.x * b.x + a.y * b.y + a.z * b.z);
  }

  lemma DotAddLeft(a: Vec3, b: Vec3, c: Vec3)
    ensures Dot(Add(a, b), c) == Dot(a, c) + Dot(b, c)
  {
    assert (a.x + b.x) * c.x == a.x * c.x + b.x * c.x;
    assert (a.y + b.y) * c.y == a.y * c.y + b.y * c.y;
    assert (a.z + b.z) * c.z == a.z * c.z + b.z * c.z;
  }

  lemma DotSubLeft(a: Vec3, b: Vec3, c: Vec3)
    ensures Dot(Sub(a, b), c) == Dot(a, c) - Dot(b, c)
  {
    assert (a.x - b.x) * c.x == a.x * c.x - b.x * c.x;
    assert (a.y - b.y) * c.y == a.y * c.y - b.y * c.y;
    assert (a.z - b.z) * c.z == a.z * c.z - b.z * c.z;
  }

  lemma DotSymmetric(a: Vec3, b: Vec3)
    ensures Dot(a, b) == Dot(b, a)
  {
    assert a.x * b.x == b.x * a.x && a.y * b.y == b.y * a.y && a.z * b.z == b.z * a.z;
  }

  /** The point `origin + t * direction` on a ray. */
  function PointAt(ray: Ray, t: real): Vec3 {
    Add(ray.origin, Scale(t, ray.direction))
  }
}
