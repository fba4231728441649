/**
 * The pure collision and integration rules of a ball (Pool/Ball.cpp): the
 * sphere-sphere test, the four-cardinal-point box test, the quadrant table
 * that picks the box contact point, the choice among the ray roots, the
 * friction step and the cue impulse. Each is stated on plain values; the
 * Ball class and the frame step use them.
 */
module BallCollision {
  import opened Geometry
  import opened Floats
  import opened Boxes
  import opened Wrappers

  const ContactTime: real := 0.01     // CUE_BALL_CONTACT_TIME, seconds
  const Mass: real := 0.5             // BALL_MASS, kg
  const SpringConstant: real := 10.0  // BALL_SPRING_CONSTANT
  const FrictionCoeff: real := 1.8    // FRICTION_COEFF
  const HitCooldown: real := 0.1      // HIT_COOLDOWN, time before the same object can be hit again

  // ---------------------------------------------------------------- spheres

  /** `length(c1 - c2) <= r1 + r2`, written on squared lengths. */
  predicate SpheresTouch(c1: Vec3, r1: real, c2: Vec3, r2: real) {
    r1 + r2 >= 0.0 && LengthSq(Sub(c1, c2)) <= (r1 + r2) * (r1 + r2)
  }

  /** The squared test agrees with the source's test on the true center distance `d`. */
  lemma SpheresTouchIffDistance(c1: Vec3, r1: real, c2: Vec3, r2: real, d: real)
    requires IsLengthOf(d, Sub(c1, c2))
    ensures SpheresTouch(c1, r1, c2, r2) <==> d <= r1 + r2
  {
    if r1 + r2 >= 0.0 {
      LengthAtMostIffSquared(d, Sub(c1, c2), r1 + r2);
    }
  }

  /** Touching does not depend on which ball asks. */
  lemma SpheresTouchSymmetric(c1: Vec3, r1: real, c2: Vec3, r2: real)
    ensures SpheresTouch(c1, r1, c2, r2) <==> SpheresTouch(c2, r2, c1, r1)
  {
    NegatedLengthSq(Sub(c1, c2));
    assert Sub(c2, c1) == Scale(-1.0, Sub(c1, c2));
  }

  lemma NegatedLengthSq(v: Vec3)
    ensures LengthSq(Scale(-1.0, v)) == LengthSq(v)
  {
    assert (-1.0 * v.x) * (-1.0 * v.x) == v.x * v.x;
    assert (-1.0 * v.y) * (-1.0 * v.y) == v.y * v.y;
    assert (-1.0 * v.z) * (-1.0 * v.z) == v.z * v.z;
  }

  // ---------------------------------------------------------------- boxes

  /** The four points of the ball's equator, in the order `isHittingBox` tests them. */
  function CardinalPoints(c: Vec3, r: real): (pts: seq<Vec3>)
    ensures |pts| == 4
    ensures forall k :: 0 <= k < 4 ==> pts[k].y == c.y
  {
    [ Add(c, Vec3(r, 0.0, 0.0)), Add(c, Vec3(-r, 0.0, 0.0)),
      Add(c, Vec3(0.0, 0.0, r)), Add(c, Vec3(0.0, 0.0, -r)) ]
  }

  /** Some cardinal point of the ball lies in the box's footprint. */
  predicate TouchesBox(c: Vec3, r: real, box: Box) {
    exists k :: 0 <= k < 4 && box.ContainsPoint(CardinalPoints(c, r)[k])
  }

  /** The box test holds exactly when one of `center ± (r,0,0)`, `center ± (0,0,r)` is in the box. */
  lemma TouchesBoxIffSomeCardinal(c: Vec3, r: real, box: Box)
    ensures TouchesBox(c, r, box) <==>
              || box.ContainsPoint(Vec3(c.x + r, c.y, c.z))
              || box.ContainsPoint(Vec3(c.x - r, c.y, c.z))
              || box.ContainsPoint(Vec3(c.x, c.y, c.z + r))
              || box.ContainsPoint(Vec3(c.x, c.y, c.z - r))
  {
    var pts := CardinalPoints(c, r);
    assert pts[0] == Vec3(c.x + r, c.y, c.z) && pts[1] == Vec3(c.x - r, c.y, c.z);
    assert pts[2] == Vec3(c.x, c.y, c.z + r) && pts[3] == Vec3(c.x, c.y, c.z - r);
  }

  /**
   * `getBoxIntersection`: the quadrant of the ball center relative to the box
   * center picks the contact point; an offset of exactly zero on either axis
   * falls through to the last branch.
   */
  function BoxIntersection(c: Vec3, r: real, box: Box): (p: Vec3)
    ensures p in CardinalPoints(c, r)
  {
    var boxToBall := Sub(c, box.center);
    var leftMost := Add(c, Vec3(-r, 0.0, 0.0));
    var rightMost := Add(c, Vec3(r, 0.0, 0.0));
    var frontMost := Add(c, Vec3(0.0, 0.0, r));
    var backMost := Add(c, Vec3(0.0, 0.0, -r));
    var leftBoxX := box.center.x - box.extents.x / 2.0;
    var rightBoxX := box.center.x + box.extents.x / 2.0;
    if boxToBall.x < 0.0 && boxToBall.z < 0.0 then
      (if leftMost.x < leftBoxX then rightMost else frontMost)
    else if boxToBall.x > 0.0 && boxToBall.z < 0.0 then
      (if rightMost.x > rightBoxX then leftMost else frontMost)
    else if boxToBall.x > 0.0 && boxToBall.z > 0.0 then
      (if rightMost.x > rightBoxX then leftMost else backMost)
    else
      (if leftMost.x < leftBoxX then rightMost else backMost)
  }

  /** A zero offset from the box center on x or z always lands in the final branch. */
  lemma ZeroOffsetTakesLastBranch(c: Vec3, r: real, box: Box)
    requires c.x == box.center.x || c.z == box.center.z
    ensures BoxIntersection(c, r, box) ==
              if c.x - r < box.center.x - box.extents.x / 2.0
              then Vec3(c.x + r, c.y, c.z) else Vec3(c.x, c.y, c.z - r)
  {
  }

  /**
   * The contact normal `center - contact` is the radius along one horizontal
   * axis, so it is never zero for a ball of non-zero radius.
   */
  lemma ContactNormalIsAxisRadius(c: Vec3, r: real, box: Box)
    ensures var n := Sub(c, BoxIntersection(c, r, box));
            n.y == 0.0 && LengthSq(n) == r * r
            && (n == Vec3(r, 0.0, 0.0) || n == Vec3(-r, 0.0, 0.0) || n == Vec3(0.0, 0.0, r) || n == Vec3(0.0, 0.0, -r))
  {
    var n := Sub(c, BoxIntersection(c, r, box));
    assert n == Vec3(r, 0.0, 0.0) || n == Vec3(-r, 0.0, 0.0) || n == Vec3(0.0, 0.0, r) || n == Vec3(0.0, 0.0, -r);
    assert (-r) * (-r) == r * r;
  }

  // ---------------------------------------------------------------- rays

  /** What `quadraticRoots` reports: how many roots, then `roots[0]` and `roots[1]`. */
  datatype Roots = Roots(count: nat, first: real, second: real)

  /**
   * The root selection of `hits(Ray)`: no root misses; a single root hits
   * unless it is negative; otherwise the smaller positive root wins.
   */
  function SelectRoot(roots: Roots): (t: Option<real>)
    ensures roots.count == 0 ==> t.None?
    ensures roots.count == 1 ==> (t.None? <==> IsNeg(roots.first)) && (t.Some? ==> t.value == roots.first)
    ensures roots.count >= 2 ==> (t.None? <==> !IsPos(roots.first) && !IsPos(roots.second))
    ensures roots.count >= 2 && t.Some? ==>
              && IsPos(t.value) && (t.value == roots.first || t.value == roots.second)
              && (IsPos(roots.first) ==> t.value <= roots.first)
              && (IsPos(roots.second) ==> t.value <= roots.second)
  {
    if roots.count == 0 then None
    else if roots.count == 1 then
      (if IsNeg(roots.first) then None else Some(roots.first))
    else
      var valid0 := IsPos(roots.first);
      var valid1 := IsPos(roots.second);
      if valid0 && valid1 then Some(if roots.first <= roots.second then roots.first else roots.second)
      else if valid0 then Some(roots.first)
      else if valid1 then Some(roots.second)
      else None
  }

  /** Every root that is accepted lies on the forward side of the ray, up to epsilon. */
  lemma SelectedRootNotBehind(roots: Roots)
    requires SelectRoot(roots).Some?
    ensures SelectRoot(roots).value >= -Epsilon
  {
  }

  /** The coefficients of `a t^2 + b t + c = 0`, the arguments of `quadraticRoots`. */
  datatype Quadratic = Quadratic(a: real, b: real, c: real)

  /** The root finder `quadraticRoots`, whose code is not part of this model. */
  type RootFinder = Quadratic -> Roots

  /** The quadratic whose roots are the ray parameters at which the ray meets the sphere. */
  function RayQuadratic(ray: Ray, c: Vec3, r: real): Quadratic {
    var a := ray.origin;
    var b := Add(ray.direction, ray.origin);
    Quadratic(Dot(Sub(b, a), Sub(b, a)), 2.0 * Dot(Sub(b, a), Sub(a, c)), Dot(Sub(a, c), Sub(a, c)) - r * r)
  }

  /**
   * `hits(Ray)`: solve with the given root finder, select a root, and return
   * the point `a + t (b - a)`, which is the point at `t` along the ray.
   */
  function RayHit(ray: Ray, c: Vec3, r: real, solver: RootFinder): (h: Option<Vec3>)
    ensures h.Some? <==> SelectRoot(solver(RayQuadratic(ray, c, r))).Some?
    ensures h.Some? ==> h.value == PointAt(ray, SelectRoot(solver(RayQuadratic(ray, c, r))).value)
  {
    var a := ray.origin;
    var b := Add(ray.direction, ray.origin);
    match SelectRoot(solver(RayQuadratic(ray, c, r)))
    case None => None
    case Some(t) => Some(Add(a, Scale(t, Sub(b, a))))
  }

  lemma ExpandSquare(a: real, b: real, t: real)
    ensures (a + t * b) * (a + t * b) == a * a + 2.0 * t * (b * a) + t * t * (b * b)
  {
  }

  lemma Distribute3(k: real, a: real, b: real, c: real)
    ensures k * (a + b + c) == k * a + k * b + k * c
  {
  }

  /** `|e + t d|^2 = e.e + 2 t (d.e) + t^2 (d.d)`. */
  lemma ExpandAlongRay(e: Vec3, d: Vec3, t: real)
    ensures LengthSq(Add(e, Scale(t, d))) == Dot(e, e) + 2.0 * t * Dot(d, e) + t * t * Dot(d, d)
  {
    ExpandSquare(e.x, d.x, t);
    ExpandSquare(e.y, d.y, t);
    ExpandSquare(e.z, d.z, t);
    Distribute3(2.0 * t, d.x * e.x, d.y * e.y, d.z * e.z);
    Distribute3(t * t, d.x * d.x, d.y * d.y, d.z * d.z);
  }

  /** A root of `A t^2 + 2B t + (C - s)` makes `C + 2 t B + t^2 A` equal to `s`. */
  lemma RootRearranged(qa: real, qb: real, qc: real, s: real, t: real)
    requires qa * t * t + 2.0 * qb * t + (qc - s) == 0.0
    ensures qc + 2.0 * t * qb + t * t * qa == s
  {
  }

  /** A root `t` of the ray quadratic `q` puts `origin + t d` on the sphere. */
  lemma RootOnSphere(o: Vec3, d: Vec3, c: Vec3, r: real, q: Quadratic, t: real)
    requires q == Quadratic(Dot(d, d), 2.0 * Dot(d, Sub(o, c)), Dot(Sub(o, c), Sub(o, c)) - r * r)
    requires q.a * t * t + q.b * t + q.c == 0.0
    ensures LengthSq(Sub(Add(o, Scale(t, d)), c)) == r * r
  {
    var e := Sub(o, c);
    assert Sub(Add(o, Scale(t, d)), c) == Add(e, Scale(t, d));
    ExpandAlongRay(e, d, t);
    RootRearranged(Dot(d, d), Dot(d, e), Dot(e, e), r * r, t);
  }

  /** The ray quadratic in terms of the direction `d` and the offset `e = origin - c`. */
  lemma RayQuadraticCoefficients(ray: Ray, c: Vec3, r: real)
    ensures var d := ray.direction; var e := Sub(ray.origin, c);
            RayQuadratic(ray, c, r) == Quadratic(Dot(d, d), 2.0 * Dot(d, e), Dot(e, e) - r * r)
  {
    assert Sub(Add(ray.direction, ray.origin), ray.origin) == ray.direction;
    DotSymmetric(ray.direction, Sub(ray.origin, c));
  }

  /**
   * If the root finder's root solves the quadratic, the reported hit point
   * lies on the ball's surface.
   */
  lemma RayHitOnSphere(ray: Ray, c: Vec3, r: real, solver: RootFinder)
    requires RayHit(ray, c, r, solver).Some?
    requires var q := RayQuadratic(ray, c, r);
             var t := SelectRoot(solver(q)).value;
             q.a * t * t + q.b * t + q.c == 0.0
    ensures LengthSq(Sub(RayHit(ray, c, r, solver).value, c)) == r * r
  {
    var q := RayQuadratic(ray, c, r);
    var t := SelectRoot(solver(q)).value;
    RayQuadraticCoefficients(ray, c, r);
    RootOnSphere(ray.origin, ray.direction, c, r, q, t);
    assert RayHit(ray, c, r, solver).value == Add(ray.origin, Scale(t, ray.direction));
  }

  /** The ray from (0,0,-10) along +z against the unit ball at the origin gives `t^2 - 20 t + 99`. */
  lemma ExampleRayQuadratic(ray: Ray, c: Vec3, r: real)
    requires ray == Ray(Vec3(0.0, 0.0, -10.0), Vec3(0.0, 0.0, 1.0)) && c == Zero && r == 1.0
    ensures RayQuadratic(ray, c, r) == Quadratic(1.0, -20.0, 99.0)
  {
    assert Sub(ray.origin, c) == ray.origin;
  }

  /** Of the two crossings 9 and 11, in either order, the nearer one is selected. */
  lemma ExampleRootChoice(roots: Roots)
    requires roots == Roots(2, 11.0, 9.0) || roots == Roots(2, 9.0, 11.0)
    ensures SelectRoot(roots) == Some(9.0)
  {
    assert IsPos(9.0) && IsPos(11.0);
  }

  lemma ExamplePoint(ray: Ray, t: real)
    requires ray == Ray(Vec3(0.0, 0.0, -10.0), Vec3(0.0, 0.0, 1.0)) && t == 9.0
    ensures PointAt(ray, t) == Vec3(0.0, 0.0, -1.0)
  {
  }

  /**
   * A ray from (0,0,-10) along +z meets the unit ball at the origin at
   * (0,0,-1), the nearer of its two crossings (either root order selects
   * the same root, by `ExampleRootChoice`).
   */
  lemma RayHitsNearSideOfBall(ray: Ray, c: Vec3, r: real, solver: RootFinder)
    requires ray == Ray(Vec3(0.0, 0.0, -10.0), Vec3(0.0, 0.0, 1.0)) && c == Zero && r == 1.0
    requires solver(Quadratic(1.0, -20.0, 99.0)) == Roots(2, 11.0, 9.0)
    ensures RayHit(ray, c, r, solver) == Some(Vec3(0.0, 0.0, -1.0))
  {
    ExampleRayQuadratic(ray, c, r);
    var roots := solver(RayQuadratic(ray, c, r));
    ExampleRootChoice(roots);
    ExamplePoint(ray, SelectRoot(roots).value);
  }

  // ---------------------------------------------------------------- integration

  /** `isZero(length(v))`, written on the squared length. */
  predicate NearlyStill(v: Vec3) {
    LengthSq(v) <= Epsilon * Epsilon
  }

  /** The squared test agrees with `isZero` applied to the true length `l`. */
  lemma NearlyStillIffZeroLength(v: Vec3, l: real)
    requires IsLengthOf(l, v)
    ensures NearlyStill(v) <==> IsZero(l)
  {
    LengthAtMostIffSquared(l, v, Epsilon);
  }

  /**
   * The friction step of `applyPhysics`: unless the ball is nearly still,
   * the velocity loses `1.8 dt` of itself; a nearly still velocity is kept.
   */
  function FrictionStep(v: Vec3, dt: real): (w: Vec3)
    ensures NearlyStill(v) ==> w == v
    ensures !NearlyStill(v) ==> w == Scale(1.0 - FrictionCoeff * dt, v)
  {
    var deltaVelocity := if !NearlyStill(v) then Scale(-FrictionCoeff * dt, v) else Zero;
    Add(v, deltaVelocity)
  }

  lemma ScaledLengthSq(k: real, v: Vec3)
    ensures LengthSq(Scale(k, v)) == k * k * LengthSq(v)
  {
    assert (k * v.x) * (k * v.x) == k * k * (v.x * v.x);
    assert (k * v.y) * (k * v.y) == k * k * (v.y * v.y);
    assert (k * v.z) * (k * v.z) == k * k * (v.z * v.z);
  }

  lemma FractionOfSquareShrinks(k: real, sq: real)
    requires 0.0 < k < 1.0 && sq > 0.0
    ensures k * k * sq < sq
  {
    assert k * k < 1.0 by { ProductPositive(k, 1.0 - k); }
    ProductPositive(1.0 - k * k, sq);
  }

  lemma ShrunkVectorIsShorter(k: real, v: Vec3)
    requires 0.0 < k < 1.0 && LengthSq(v) > 0.0
    ensures LengthSq(Scale(k, v)) < LengthSq(v)
  {
    ScaledLengthSq(k, v);
    FractionOfSquareShrinks(k, LengthSq(v));
  }

  lemma ScalingKeepsSign(k: real, a: real)
    requires k > 0.0
    ensures (k * a) * a >= 0.0
  {
    var sq := a * a;
    SquareNonNegative(a);
    assert (k * a) * a == k * sq;
    if sq > 0.0 {
      ProductPositive(k, sq);
    } else {
      assert sq == 0.0;
    }
  }

  /**
   * For a frame shorter than 1/1.8 s, friction strictly slows a moving ball
   * and never flips the sign of a velocity component.
   */
  lemma FrictionSlowsWithoutReversing(v: Vec3, dt: real)
    requires 0.0 < dt && FrictionCoeff * dt < 1.0
    requires !NearlyStill(v)
    ensures LengthSq(FrictionStep(v, dt)) < LengthSq(v)
    ensures var w := FrictionStep(v, dt);
            w.x * v.x >= 0.0 && w.y * v.y >= 0.0 && w.z * v.z >= 0.0
  {
    var k := 1.0 - FrictionCoeff * dt;
    var w := FrictionStep(v, dt);
    assert w == Scale(k, v);
    assert LengthSq(v) > 0.0 by { assert Epsilon * Epsilon > 0.0; }
    ShrunkVectorIsShorter(k, v);
    ScalingKeepsSign(k, v.x);
    ScalingKeepsSign(k, v.y);
    ScalingKeepsSign(k, v.z);
  }

  /**
   * The cue impulse of `springForward`: the direction with its vertical part
   * dropped, scaled by `spring constant * distance * contact time / mass`,
   * which is `0.2 * distance`.
   */
  function CueImpulse(direction: Vec3, distance: real): (dv: Vec3)
    ensures dv.y == 0.0
    ensures dv == Scale(0.2 * distance, Vec3(direction.x, 0.0, direction.z))
  {
    var simpleDirection := direction.(y := 0.0);
    Scale(1.0 / Mass, Scale(ContactTime, Scale(distance, Scale(SpringConstant, simpleDirection))))
  }

  /** With a unit direction, the impulse is at most `0.2 * distance` long. */
  lemma CueImpulseBounded(direction: Vec3, distance: real)
    requires LengthSq(direction) == 1.0
    ensures LengthSq(CueImpulse(direction, distance)) <= (0.2 * distance) * (0.2 * distance)
  {
    var h := Vec3(direction.x, 0.0, direction.z);
    ScaledLengthSq(0.2 * distance, h);
    SquareNonNegative(direction.y);
    SquareNonNegative(0.2 * distance);
    assert LengthSq(h) <= 1.0;
    assert (0.2 * distance) * (0.2 * distance) * LengthSq(h) <= (0.2 * distance) * (0.2 * distance);
  }
}
