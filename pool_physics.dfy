/**
 * The pure rules of the table's frame step (Pool/Pool.cpp): the ball-ball
 * velocity response, the edge reflection, the ordered scan that gives each
 * ball at most one collision, and the sequence of per-ball steps that make
 * up `applyPhysics`. The Pool class runs these rules on its Ball objects.
 *
 * The source divides by the center distance and by vector lengths. Here the
 * response uses the sqrt-free forms `((v.d)/(d.d)) d` and
 * `v - 2 (v.n)/(n.n) n`. The lemmas `SwapMatchesSource` and
 * `ReflectionMatchesSource` show they equal the source's expressions whenever
 * those are defined.
 */
module PoolPhysics {
  import opened Geometry
  import opened Boxes
  import opened Wrappers
  import opened BallCollision
  import opened Balls

  // ---------------------------------------------------------------- ball-ball response

  /** The component of `v` along `d`, which is `(v.n) n` for the unit normal `n` of `d`. */
  function Along(v: Vec3, d: Vec3): Vec3 {
    if Dot(d, d) == 0.0 then Zero else Scale(Dot(v, d) / Dot(d, d), d)
  }

  /** New velocities of two touching balls: each keeps its own tangential part and takes the other's normal part. */
  function SwapNormal(vi: Vec3, vj: Vec3, d: Vec3): (Vec3, Vec3) {
    (Add(Sub(vi, Along(vi, d)), Along(vj, d)), Add(Sub(vj, Along(vj, d)), Along(vi, d)))
  }

  lemma AlongDot(v: Vec3, d: Vec3)
    requires Dot(d, d) != 0.0
    ensures Dot(Along(v, d), d) == Dot(v, d)
  {
    DotScaleLeft(Dot(v, d) / Dot(d, d), d, d);
  }

  lemma AlongDependsOnDotOnly(v: Vec3, w: Vec3, d: Vec3)
    requires Dot(v, d) == Dot(w, d)
    ensures Along(v, d) == Along(w, d)
  {
  }

  /** Equal-mass exchange: the sum of the two velocities is unchanged. */
  lemma SwapConservesMomentum(vi: Vec3, vj: Vec3, d: Vec3)
    ensures Add(SwapNormal(vi, vj, d).0, SwapNormal(vi, vj, d).1) == Add(vi, vj)
  {
  }

  /**
   * The two normal components are exchanged and each tangential remainder
   * `v - (v.n) n` is kept; for coincident centers nothing changes.
   */
  lemma SwapExchangesNormalParts(vi: Vec3, vj: Vec3, d: Vec3)
    ensures var (wi, wj) := SwapNormal(vi, vj, d);
            && Along(wi, d) == Along(vj, d) && Along(wj, d) == Along(vi, d)
            && Sub(wi, Along(wi, d)) == Sub(vi, Along(vi, d))
            && Sub(wj, Along(wj, d)) == Sub(vj, Along(vj, d))
  {
    var (wi, wj) := SwapNormal(vi, vj, d);
    if Dot(d, d) != 0.0 {
      DotAddLeft(Sub(vi, Along(vi, d)), Along(vj, d), d);
      DotSubLeft(vi, Along(vi, d), d);
      AlongDot(vi, d);
      AlongDot(vj, d);
      AlongDependsOnDotOnly(wi, vj, d);
      DotAddLeft(Sub(vj, Along(vj, d)), Along(vi, d), d);
      DotSubLeft(vj, Along(vj, d), d);
      AlongDependsOnDotOnly(wj, vi, d);
    }
  }

  function Negate(v: Vec3): Vec3 {
    Scale(-1.0, v)
  }

  /** Lines 1039-1044 of Pool.cpp as written, for a unit normal `n`. */
  function SourceResponse(vi: Vec3, vj: Vec3, n: Vec3): (Vec3, Vec3) {
    var vn1 := Scale(Dot(vi, Negate(n)), Negate(n));
    var vn2 := Scale(Dot(vj, n), n);
    var vt1 := Sub(vn1, vi);
    var vt2 := Sub(vn2, vj);
    (Add(Negate(vt1), vn2), Add(Negate(vt2), vn1))
  }

  lemma ScaleScale(a: real, b: real, v: Vec3)
    ensures Scale(a, Scale(b, v)) == Scale(a * b, v)
  {
    assert a * (b * v.x) == (a * b) * v.x;
    assert a * (b * v.y) == (a * b) * v.y;
    assert a * (b * v.z) == (a * b) * v.z;
  }

  lemma QuotientTimesReciprocal(k: real, l: real, q: real)
    requires l != 0.0 && q != 0.0 && l * l == q
    ensures (k / l) * (1.0 / l) == k / q
  {
  }

  /** `v.n` for the unit normal `n = d / l` is `(v.d) / l`. */
  lemma DotWithUnit(v: Vec3, d: Vec3, l: real)
    requires l != 0.0
    ensures Dot(v, Scale(1.0 / l, d)) == Dot(v, d) / l
    ensures Dot(v, Negate(Scale(1.0 / l, d))) == -(Dot(v, d) / l)
  {
    var n := Scale(1.0 / l, d);
    DotSymmetric(v, n);
    DotScaleLeft(1.0 / l, d, v);
    DotSymmetric(d, v);
    DotSymmetric(v, Negate(n));
    DotScaleLeft(-1.0, n, v);
    DotSymmetric(n, v);
  }

  /** Scaling by `k / l` after scaling by `1 / l` is scaling by `k / (l l)`. */
  lemma ScaleTwiceByInverse(k: real, l: real, q: real, d: Vec3)
    requires l != 0.0 && q != 0.0 && l * l == q
    ensures Scale(k / l, Scale(1.0 / l, d)) == Scale(k / q, d)
  {
    ComponentTwiceByInverse(k, l, q, d.x);
    ComponentTwiceByInverse(k, l, q, d.y);
    ComponentTwiceByInverse(k, l, q, d.z);
  }

  lemma ComponentTwiceByInverse(k: real, l: real, q: real, x: real)
    requires l != 0.0 && q != 0.0 && l * l == q
    ensures (k / l) * ((1.0 / l) * x) == (k / q) * x
  {
    QuotientTimesReciprocal(k, l, q);
    assert (k / l) * ((1.0 / l) * x) == ((k / l) * (1.0 / l)) * x;
  }

  lemma ScaleNegatedTwice(a: real, n: Vec3)
    ensures Scale(-a, Negate(n)) == Scale(a, n)
  {
    ScaleScale(-a, -1.0, n);
    assert -a * -1.0 == a;
  }

  lemma ProjectionOntoUnit(v: Vec3, d: Vec3, l: real)
    requires IsLengthOf(l, d) && l > 0.0
    ensures Scale(Dot(v, Scale(1.0 / l, d)), Scale(1.0 / l, d)) == Along(v, d)
    ensures Scale(Dot(v, Negate(Scale(1.0 / l, d))), Negate(Scale(1.0 / l, d))) == Along(v, d)
  {
    var n := Scale(1.0 / l, d);
    var k := Dot(v, d);
    var q := Dot(d, d);
    DotWithUnit(v, d, l);
    assert q != 0.0 by { ProductPositive(l, l); }
    ScaleTwiceByInverse(k, l, q, d);
    ScaleNegatedTwice(k / l, n);
  }

  /**
   * With `n = d / length(d)` and a non-zero distance, the source's response
   * is exactly `SwapNormal`.
   */
  lemma SwapMatchesSource(vi: Vec3, vj: Vec3, d: Vec3, l: real)
    requires IsLengthOf(l, d) && l > 0.0
    ensures SourceResponse(vi, vj, Scale(1.0 / l, d)) == SwapNormal(vi, vj, d)
  {
    ProjectionOntoUnit(vi, d, l);
    ProjectionOntoUnit(vj, d, l);
  }

  // ---------------------------------------------------------------- edge response

  /** The velocity mirrored in the plane with normal `n`; a zero normal leaves it unchanged. */
  function Reflect(v: Vec3, n: Vec3): Vec3 {
    if Dot(n, n) == 0.0 then v else Sub(v, Scale(2.0 * Dot(v, n) / Dot(n, n), n))
  }

  /** The normal component is negated. */
  lemma ReflectNegatesNormalPart(v: Vec3, n: Vec3)
    requires Dot(n, n) != 0.0
    ensures Dot(Reflect(v, n), n) == -Dot(v, n)
  {
    DotSubLeft(v, Scale(2.0 * Dot(v, n) / Dot(n, n), n), n);
    DotScaleLeft(2.0 * Dot(v, n) / Dot(n, n), n, n);
  }

  /** Reflecting twice in the same plane gives back the velocity. */
  lemma ReflectInvolution(v: Vec3, n: Vec3)
    ensures Reflect(Reflect(v, n), n) == v
  {
    if Dot(n, n) != 0.0 {
      ReflectNegatesNormalPart(v, n);
      var k := 2.0 * Dot(v, n) / Dot(n, n);
      assert 2.0 * Dot(Reflect(v, n), n) / Dot(n, n) == -k;
    }
  }

  /** Reflection keeps the speed: `|Reflect(v, n)|^2 == |v|^2`. */
  lemma ReflectKeepsSpeed(v: Vec3, n: Vec3)
    ensures LengthSq(Reflect(v, n)) == LengthSq(v)
  {
    if Dot(n, n) != 0.0 {
      var nn := Dot(n, n);
      var vn := Dot(v, n);
      var k := 2.0 * vn / nn;
      assert Reflect(v, n) == Add(v, Scale(-k, n));
      ExpandAlongRay(v, n, -k);
      DotSymmetric(n, v);
      assert (-k) * (-k) * nn == k * k * nn;
      assert k * nn == 2.0 * vn;
      assert k * k * nn == k * (2.0 * vn);
    }
  }

  /** Against an edge whose normal is an x axis vector, only the x velocity flips. */
  lemma ReflectOffXAxis(v: Vec3, s: real)
    requires s != 0.0
    ensures Reflect(v, Vec3(s, 0.0, 0.0)) == Vec3(-v.x, v.y, v.z)
  {
    var n := Vec3(s, 0.0, 0.0);
    SquareNonNegative(s);
    assert Dot(n, n) == s * s;
    assert Dot(v, n) == v.x * s;
    assert 2.0 * (v.x * s) / (s * s) * s == 2.0 * v.x;
  }

  /** Against an edge whose normal is a z axis vector, only the z velocity flips. */
  lemma ReflectOffZAxis(v: Vec3, s: real)
    requires s != 0.0
    ensures Reflect(v, Vec3(0.0, 0.0, s)) == Vec3(v.x, v.y, -v.z)
  {
    var n := Vec3(0.0, 0.0, s);
    SquareNonNegative(s);
    assert Dot(n, n) == s * s;
    assert Dot(v, n) == v.z * s;
    assert 2.0 * (v.z * s) / (s * s) * s == 2.0 * v.z;
  }

  /**
   * `ggReflection(v, n) * length(v)` as written, given the true lengths `lv`
   * and `ln` of `v` and `n` and the normalizations `v/lv`, `n/ln`.
   */
  function SourceReflection(v: Vec3, n: Vec3, lv: real, ln: real): Vec3
    requires lv != 0.0 && ln != 0.0
  {
    Scale(lv, Sub(Scale(1.0 / lv, v), Scale(2.0 * (Dot(v, n) / (lv * ln)), Scale(1.0 / ln, n))))
  }

  lemma ReflectionComponent(lv: real, ln: real, a: real, b: real, vn: real, nn: real)
    requires lv != 0.0 && ln != 0.0 && nn != 0.0 && ln * ln == nn
    ensures lv * ((1.0 / lv) * a - (2.0 * (vn / (lv * ln))) * ((1.0 / ln) * b)) == a - (2.0 * vn / nn) * b
  {
    assert lv * ((1.0 / lv) * a) == a;
    assert (2.0 * (vn / (lv * ln))) * ((1.0 / ln) * b) == (2.0 * vn * b) / (lv * (ln * ln));
    assert lv * ((2.0 * vn * b) / (lv * (ln * ln))) == (2.0 * vn * b) / (ln * ln);
  }

  /** Whenever the source's expression is defined, it equals `Reflect`. */
  lemma ReflectionMatchesSource(v: Vec3, n: Vec3, lv: real, ln: real)
    requires IsLengthOf(lv, v) && lv > 0.0 && IsLengthOf(ln, n) && ln > 0.0
    ensures SourceReflection(v, n, lv, ln) == Reflect(v, n)
  {
    var vn := Dot(v, n);
    var nn := Dot(n, n);
    assert nn != 0.0 by { ProductPositive(ln, ln); }
    ReflectionComponent(lv, ln, v.x, n.x, vn, nn);
    ReflectionComponent(lv, ln, v.y, n.y, vn, nn);
    ReflectionComponent(lv, ln, v.z, n.z, vn, nn);
  }

  // ---------------------------------------------------------------- the ordered scans

  /** The first ball `j' >= j` that ball `i` hits, scanning in vector order. */
  function FirstBallHit(ss: seq<BallState>, i: nat, j: nat): (r: Option<nat>)
    requires i < |ss|
    ensures r.Some? ==> j <= r.value < |ss| && HitsBallNow(ss[i], ss[r.value])
    ensures r.Some? ==> forall k {:trigger HitsBallNow(ss[i], ss[k])} :: j <= k < r.value ==> !HitsBallNow(ss[i], ss[k])
    ensures r.None? ==> forall k {:trigger HitsBallNow(ss[i], ss[k])} :: j <= k < |ss| ==> !HitsBallNow(ss[i], ss[k])
    decreases |ss| - j
  {
    if j >= |ss| then None
    else if HitsBallNow(ss[i], ss[j]) then Some(j)
    else FirstBallHit(ss, i, j + 1)
  }

  /** A miss at `j` moves the ball scan on to `j + 1`. */
  lemma FirstBallHitSkips(ss: seq<BallState>, i: nat, j: nat)
    requires i < |ss| && j < |ss| && !HitsBallNow(ss[i], ss[j])
    ensures FirstBallHit(ss, i, j) == FirstBallHit(ss, i, j + 1)
  {
  }

  /** The first edge `k' >= k` that the ball hits, scanning in vector order. */
  function FirstEdgeHit(s: BallState, edges: seq<Box>, k: nat): (r: Option<nat>)
    ensures r.Some? ==> k <= r.value < |edges| && HitsBoxNow(s, edges[r.value])
    ensures r.Some? ==> forall m {:trigger HitsBoxNow(s, edges[m])} :: k <= m < r.value ==> !HitsBoxNow(s, edges[m])
    ensures r.None? ==> forall m {:trigger HitsBoxNow(s, edges[m])} :: k <= m < |edges| ==> !HitsBoxNow(s, edges[m])
    decreases |edges| - k
  {
    if k >= |edges| then None
    else if HitsBoxNow(s, edges[k]) then Some(k)
    else FirstEdgeHit(s, edges, k + 1)
  }

  /** A miss at edge `k` moves the edge scan on to `k + 1`. */
  lemma FirstEdgeHitSkips(s: BallState, edges: seq<Box>, k: nat)
    requires k < |edges| && !HitsBoxNow(s, edges[k])
    ensures FirstEdgeHit(s, edges, k) == FirstEdgeHit(s, edges, k + 1)
  {
  }

  /** The velocity of ball `s` after bouncing off `edge`, whose contact normal is center minus contact point. */
  function Bounced(s: BallState, edge: Box): BallState {
    s.(velocity := Reflect(s.velocity, Sub(s.center, BoxIntersection(s.center, s.radius, edge))))
  }

  /**
   * Ball `i` hitting ball `j`: `i`'s cooldown for `j` starts and the two
   * balls exchange the velocity components along the line between centers.
   */
  function BallResponse(ss: seq<BallState>, i: nat, j: nat): (r: seq<BallState>)
    requires i < |ss| && j < |ss|
    ensures |r| == |ss|
  {
    var (vi, vj) := SwapNormal(ss[i].velocity, ss[j].velocity, Sub(ss[i].center, ss[j].center));
    ss[i := Cooled(ss[i], ss[j].name).(velocity := vi)][j := ss[j].(velocity := vj)]
  }

  /**
   * The collision part of ball `i`'s turn: the first later ball it hits, or
   * failing that the first edge it hits, or nothing.
   */
  function Resolve(ss: seq<BallState>, i: nat, edges: seq<Box>): (r: seq<BallState>)
    requires i < |ss|
    ensures |r| == |ss|
  {
    match FirstBallHit(ss, i, i + 1)
    case Some(j) => BallResponse(ss, i, j)
    case None =>
      match FirstEdgeHit(ss[i], edges, 0)
      case Some(k) => ss[i := Bounced(ss[i], edges[k])]
      case None => ss
  }

  /**
   * For two distinct balls, the response is the cooldown update of ball `i`
   * followed by the two velocity writes, in that order, each reading the
   * state the previous one left.
   */
  lemma BallResponseInOrder(ss: seq<BallState>, i: nat, j: nat)
    requires i < |ss| && j < |ss| && i != j
    ensures var s1 := ss[i := Cooled(ss[i], ss[j].name)];
            var (vi, vj) := SwapNormal(s1[i].velocity, s1[j].velocity, Sub(s1[i].center, s1[j].center));
            var s2 := s1[i := s1[i].(velocity := vi)];
            BallResponse(ss, i, j) == s2[j := s2[j].(velocity := vj)]
  {
  }

  /**
   * A collision changes only velocities and ball `i`'s cooldowns, and only
   * of ball `i` and the one later ball it hit; earlier balls are untouched.
   */
  lemma ResolveChangesOnlyVelocities(ss: seq<BallState>, i: nat, edges: seq<Box>)
    requires i < |ss|
    ensures var r := Resolve(ss, i, edges);
            && |r| == |ss|
            && (forall k :: 0 <= k < |ss| ==>
                  SameBall(r[k], ss[k]) && r[k].center == ss[k].center && r[k].translation == ss[k].translation)
            && (forall k :: 0 <= k < |ss| && k != i ==> r[k].recentlyHit == ss[k].recentlyHit)
            && (forall k :: 0 <= k <= i ==> k == i || r[k] == ss[k])
            && (forall k :: i < k < |ss| && FirstBallHit(ss, i, i + 1) != Some(k) ==> r[k] == ss[k])
  {
  }

  /**
   * At most one collision per ball: a ball-ball hit exchanges momentum and
   * starts the cooldown; otherwise an edge hit keeps the speed; otherwise
   * nothing changes.
   */
  lemma ResolveOutcomes(ss: seq<BallState>, i: nat, edges: seq<Box>)
    requires i < |ss|
    ensures var r := Resolve(ss, i, edges);
            match FirstBallHit(ss, i, i + 1)
            case Some(j) =>
              && Add(r[i].velocity, r[j].velocity) == Add(ss[i].velocity, ss[j].velocity)
              && WasRecentlyHitIn(r[i].recentlyHit, ss[j].name)
            case None =>
              match FirstEdgeHit(ss[i], edges, 0)
              case Some(k) => r == ss[i := Bounced(ss[i], edges[k])] && LengthSq(r[i].velocity) == LengthSq(ss[i].velocity)
              case None => r == ss
  {
    match FirstBallHit(ss, i, i + 1)
    case Some(j) =>
      SwapConservesMomentum(ss[i].velocity, ss[j].velocity, Sub(ss[i].center, ss[j].center));
    case None =>
      match FirstEdgeHit(ss[i], edges, 0)
      case Some(k) =>
        ReflectKeepsSpeed(ss[i].velocity, Sub(ss[i].center, BoxIntersection(ss[i].center, ss[i].radius, edges[k])));
      case None =>
  }

  /** Ball `i`'s whole turn: its collision checks, then its own `applyPhysics`. */
  function Step(ss: seq<BallState>, i: nat, edges: seq<Box>, dt: real): seq<BallState>
    requires i < |ss|
  {
    var r := Resolve(ss, i, edges);
    r[i := Integrated(r[i], dt)]
  }

  /** The first `n` turns of a frame, in vector order. */
  function StepPrefix(ss: seq<BallState>, edges: seq<Box>, dt: real, n: nat): (r: seq<BallState>)
    requires n <= |ss|
    ensures |r| == |ss|
  {
    if n == 0 then ss
    else
      Step(StepPrefix(ss, edges, dt, n - 1), n - 1, edges, dt)
  }

  /** `applyPhysics`: every ball takes its turn once, in vector order. */
  function FrameStep(ss: seq<BallState>, edges: seq<Box>, dt: real): seq<BallState> {
    StepPrefix(ss, edges, dt, |ss|)
  }

  /** Another ball's turn changes at most this ball's velocity and cooldowns. */
  lemma StepKeepsOthersInPlace(ss: seq<BallState>, i: nat, edges: seq<Box>, dt: real, k: nat)
    requires i < k < |ss|
    ensures var r := Step(ss, i, edges, dt);
            |r| == |ss| && SameBall(r[k], ss[k]) && r[k].center == ss[k].center && r[k].translation == ss[k].translation
  {
    ResolveChangesOnlyVelocities(ss, i, edges);
  }

  /** A later ball's turn leaves this ball unchanged. */
  lemma StepKeepsEarlier(ss: seq<BallState>, i: nat, edges: seq<Box>, dt: real, k: nat)
    requires k < i < |ss|
    ensures |Step(ss, i, edges, dt)| == |ss| && Step(ss, i, edges, dt)[k] == ss[k]
  {
    ResolveChangesOnlyVelocities(ss, i, edges);
  }

  /** The `n`-th turn of a frame runs on the state the first `n - 1` turns left. */
  lemma StepPrefixUnfolds(ss: seq<BallState>, edges: seq<Box>, dt: real, n: nat)
    requires 0 < n <= |ss|
    ensures StepPrefix(ss, edges, dt, n) == Step(StepPrefix(ss, edges, dt, n - 1), n - 1, edges, dt)
  {
  }

  /** The `n`-th turn of a frame moves no later ball. */
  lemma StepPrefixKeepsLaterInPlace(ss: seq<BallState>, edges: seq<Box>, dt: real, n: nat, k: nat)
    requires 0 < n <= k < |ss|
    ensures var r := StepPrefix(ss, edges, dt, n);
            var p := StepPrefix(ss, edges, dt, n - 1);
            SameBall(r[k], p[k]) && r[k].center == p[k].center && r[k].translation == p[k].translation
  {
    StepPrefixUnfolds(ss, edges, dt, n);
    StepKeepsOthersInPlace(StepPrefix(ss, edges, dt, n - 1), n - 1, edges, dt, k);
  }

  /** Before ball `k`'s own turn, no earlier turn moves it: only its velocity and cooldowns may change. */
  lemma {:induction false} StepPrefixLeavesLaterInPlace(ss: seq<BallState>, edges: seq<Box>, dt: real, n: nat, k: nat)
    requires n <= k < |ss|
    ensures var r := StepPrefix(ss, edges, dt, n);
            SameBall(r[k], ss[k]) && r[k].center == ss[k].center && r[k].translation == ss[k].translation
  {
    if n > 0 {
      StepPrefixLeavesLaterInPlace(ss, edges, dt, n - 1, k);
      StepPrefixKeepsLaterInPlace(ss, edges, dt, n, k);
    }
  }

  /** The `n`-th turn of a frame leaves every earlier ball as the first `n - 1` turns left it. */
  lemma StepPrefixKeepsEarlier(ss: seq<BallState>, edges: seq<Box>, dt: real, n: nat, k: nat)
    requires k + 1 < n <= |ss|
    ensures StepPrefix(ss, edges, dt, n)[k] == StepPrefix(ss, edges, dt, n - 1)[k]
  {
    StepPrefixUnfolds(ss, edges, dt, n);
    StepKeepsEarlier(StepPrefix(ss, edges, dt, n - 1), n - 1, edges, dt, k);
  }

  /** After ball `k`'s turn, later turns leave it alone. */
  lemma {:induction false} StepPrefixSettles(ss: seq<BallState>, edges: seq<Box>, dt: real, n: nat, k: nat)
    requires k < n <= |ss|
    ensures StepPrefix(ss, edges, dt, n)[k] == StepPrefix(ss, edges, dt, k + 1)[k]
  {
    if n > k + 1 {
      StepPrefixSettles(ss, edges, dt, n - 1, k);
      StepPrefixKeepsEarlier(ss, edges, dt, n, k);
    }
  }

  /**
   * Each ball is integrated exactly once: its final center is its starting
   * center plus its final velocity times `dt`, and likewise its translation.
   */
  lemma FrameStepIntegratesOnce(ss: seq<BallState>, edges: seq<Box>, dt: real, k: nat)
    requires k < |ss|
    ensures var f := FrameStep(ss, edges, dt);
            && |f| == |ss|
            && SameBall(f[k], ss[k])
            && f[k].center == Add(ss[k].center, Scale(dt, f[k].velocity))
            && f[k].translation == Add(ss[k].translation, Scale(dt, f[k].velocity))
  {
    StepPrefixSettles(ss, edges, dt, |ss|, k);
    StepPrefixLeavesLaterInPlace(ss, edges, dt, k, k);
    StepIntegratesTurnTaker(StepPrefix(ss, edges, dt, k), k, edges, dt);
  }

  /** In ball `k`'s turn, it is integrated from its pre-turn center and translation. */
  lemma StepIntegratesTurnTaker(ss: seq<BallState>, k: nat, edges: seq<Box>, dt: real)
    requires k < |ss|
    ensures var t := Step(ss, k, edges, dt)[k];
            && SameBall(t, ss[k])
            && t.center == Add(ss[k].center, Scale(dt, t.velocity))
            && t.translation == Add(ss[k].translation, Scale(dt, t.velocity))
  {
    ResolveChangesOnlyVelocities(ss, k, edges);
  }

  /** The frame step keeps every ball's translation equal to its displacement. */
  lemma FrameStepKeepsTracking(ss: seq<BallState>, edges: seq<Box>, dt: real)
    requires AllTrack(ss)
    ensures AllTrack(FrameStep(ss, edges, dt))
  {
    forall k | 0 <= k < |FrameStep(ss, edges, dt)|
      ensures Tracks(FrameStep(ss, edges, dt)[k])
    {
      FrameStepIntegratesOnce(ss, edges, dt, k);
    }
  }

  // ---------------------------------------------------------------- strikeCue

  const UnitsToMeters: real := 1200.0

  /** The squared distance from the ray origin to where the ray meets ball `k`. */
  function HitDistanceSq(ss: seq<BallState>, ray: Ray, solver: RootFinder, k: nat): real
    requires k < |ss| && RayHit(ray, ss[k].center, ss[k].radius, solver).Some?
  {
    LengthSq(Sub(RayHit(ray, ss[k].center, ss[k].radius, solver).value, ray.origin))
  }

  predicate RayHitsBall(ss: seq<BallState>, ray: Ray, solver: RootFinder, k: nat)
    requires k < |ss|
  {
    RayHit(ray, ss[k].center, ss[k].radius, solver).Some?
  }

  /** Whether the ray meets any ball. */
  predicate AnyRayHit(ss: seq<BallState>, ray: Ray, solver: RootFinder) {
    exists m :: 0 <= m < |ss| && RayHitsBall(ss, ray, solver, m)
  }

  /**
   * Ball `k` is the one the cue strikes: it is hit, no hit ball is nearer,
   * and every earlier hit ball is strictly farther (ties go to the earliest).
   */
  predicate IsNearestHit(ss: seq<BallState>, ray: Ray, solver: RootFinder, k: nat) {
    && k < |ss| && RayHitsBall(ss, ray, solver, k)
    && (forall m :: 0 <= m < |ss| && RayHitsBall(ss, ray, solver, m) ==>
          HitDistanceSq(ss, ray, solver, k) <= HitDistanceSq(ss, ray, solver, m))
    && (forall m :: 0 <= m < k && RayHitsBall(ss, ray, solver, m) ==>
          HitDistanceSq(ss, ray, solver, k) < HitDistanceSq(ss, ray, solver, m))
  }

  /** The struck ball is unique. */
  lemma NearestHitUnique(ss: seq<BallState>, ray: Ray, solver: RootFinder, k1: nat, k2: nat)
    requires IsNearestHit(ss, ray, solver, k1) && IsNearestHit(ss, ray, solver, k2)
    ensures k1 == k2
  {
  }

  /** `lens[m]` is the true distance from the ray's origin to the point where the ray meets ball `m`. */
  ghost predicate HitLengths(ss: seq<BallState>, ray: Ray, solver: RootFinder, lens: seq<real>) {
    && |lens| == |ss|
    && forall m :: 0 <= m < |ss| && RayHitsBall(ss, ray, solver, m) ==>
         IsLengthOf(lens[m], Sub(RayHit(ray, ss[m].center, ss[m].radius, solver).value, ray.origin))
  }

  /** The nearest-hit choice stated with true distances, as `glm::length` computes them. */
  ghost predicate NearestByLength(ss: seq<BallState>, ray: Ray, solver: RootFinder, lens: seq<real>, k: nat)
    requires |lens| == |ss|
  {
    && k < |ss| && RayHitsBall(ss, ray, solver, k)
    && (forall m :: 0 <= m < |ss| && RayHitsBall(ss, ray, solver, m) ==> lens[k] <= lens[m])
    && (forall m :: 0 <= m < k && RayHitsBall(ss, ray, solver, m) ==> lens[k] < lens[m])
  }

  /** Comparing squared distances picks the same ball as comparing true distances. */
  lemma NearestHitByLength(ss: seq<BallState>, ray: Ray, solver: RootFinder, lens: seq<real>, k: nat)
    requires HitLengths(ss, ray, solver, lens)
    ensures IsNearestHit(ss, ray, solver, k) <==> NearestByLength(ss, ray, solver, lens, k)
  {
    if k < |ss| && RayHitsBall(ss, ray, solver, k) {
      var ak := Sub(RayHit(ray, ss[k].center, ss[k].radius, solver).value, ray.origin);
      forall m | 0 <= m < |ss| && RayHitsBall(ss, ray, solver, m)
        ensures lens[k] <= lens[m] <==> HitDistanceSq(ss, ray, solver, k) <= HitDistanceSq(ss, ray, solver, m)
        ensures lens[k] < lens[m] <==> HitDistanceSq(ss, ray, solver, k) < HitDistanceSq(ss, ray, solver, m)
      {
        var am := Sub(RayHit(ray, ss[m].center, ss[m].radius, solver).value, ray.origin);
        LengthLessIffSquared(lens[k], ak, lens[m], am);
        LengthLessIffSquared(lens[m], am, lens[k], ak);
      }
    }
  }

  /** The effect of the strike on the chosen ball: `springForward(ray, 1200 * power)`. */
  function Struck(ss: seq<BallState>, k: nat, ray: Ray, power: real, normalize: Vec3 -> Vec3): seq<BallState>
    requires k < |ss|
  {
    ss[k := Sprung(ss[k], ray, 1.0 * UnitsToMeters * power, normalize)]
  }

  /** A strike changes only the struck ball's velocity, and only horizontally. */
  lemma StruckChangesOneVelocity(ss: seq<BallState>, k: nat, ray: Ray, power: real, normalize: Vec3 -> Vec3)
    requires k < |ss|
    ensures var r := Struck(ss, k, ray, power, normalize);
            && |r| == |ss|
            && (forall m :: 0 <= m < |ss| && m != k ==> r[m] == ss[m])
            && r[k] == ss[k].(velocity := r[k].velocity)
            && r[k].velocity.y == ss[k].velocity.y
            && (Tracks(ss[k]) ==> Tracks(r[k]))
  {
    SprungKeepsVertical(ss[k], ray, 1.0 * UnitsToMeters * power, normalize);
  }

  // ---------------------------------------------------------------- resetBalls

  /** `resetBalls`: every ball reset. */
  function ResetAll(ss: seq<BallState>): (r: seq<BallState>)
    ensures |r| == |ss|
  {
    seq(|ss|, k requires 0 <= k < |ss| => ResetState(ss[k]))
  }

  /** After `resetBalls` every ball is back at its initial center, at rest; resetting again changes nothing. */
  lemma ResetAllRestores(ss: seq<BallState>)
    ensures forall k :: 0 <= k < |ss| ==>
              var r := ResetAll(ss)[k];
              SameBall(r, ss[k]) && r.center == ss[k].initialCenter && r.velocity == Zero && Tracks(r)
    ensures ResetAll(ResetAll(ss)) == ResetAll(ss)
  {
  }
}
