/**
 * A ball (Pool/Ball.hpp, Pool/Ball.cpp). The class keeps the fields the
 * program mutates; `BallState` is its abstract value, and the functions on
 * `BallState` say what each operation does to it. The render matrix `trans`
 * is only ever translated, so it is modelled by its accumulated translation.
 * The cooldown map holds timers by value, so it is a map from entity name to
 * remaining time, ticked with the timer's own rule `Ticked`.
 */
module Balls {
  import opened Geometry
  import opened Floats
  import opened Boxes
  import opened Wrappers
  import opened CountdownTimers
  import opened BallCollision

  datatype BallState = BallState(
    name: string,
    initialCenter: Vec3,
    radius: real,
    center: Vec3,
    velocity: Vec3,
    translation: Vec3,
    recentlyHit: map<string, real>)

  /** The render transform's translation is the displacement from the initial center. */
  predicate Tracks(s: BallState) {
    s.translation == Sub(s.center, s.initialCenter)
  }

  /** Every ball of a table tracks its displacement. */
  predicate AllTrack(ss: seq<BallState>) {
    forall k :: 0 <= k < |ss| ==> Tracks(ss[k])
  }

  /** Replacing one ball by one that tracks keeps the whole table tracking. */
  lemma UpdateKeepsTracking(ss: seq<BallState>, k: nat, t: BallState)
    requires AllTrack(ss) && k < |ss| && Tracks(t)
    ensures AllTrack(ss[k := t])
  {
  }

  /** Whether two states describe the same ball: name, radius and initial center agree. */
  predicate SameBall(s: BallState, t: BallState) {
    s.name == t.name && s.radius == t.radius && s.initialCenter == t.initialCenter
  }

  // ---------------------------------------------------------------- reset

  /** `reset`: back to the initial center, at rest, identity transform, no cooldowns. */
  function ResetState(s: BallState): BallState {
    s.(center := s.initialCenter, translation := Zero, velocity := Zero, recentlyHit := map[])
  }

  /** A reset ball is at its initial center, at rest, tracking, and remembers no hit. */
  lemma ResetRestores(s: BallState)
    ensures var r := ResetState(s);
            SameBall(r, s) && r.center == s.initialCenter && r.velocity == Zero
            && r.translation == Zero && Tracks(r)
            && r.recentlyHit == map[]
            && forall n :: !WasRecentlyHitIn(r.recentlyHit, n)
  {
  }

  /** Resetting twice is the same as resetting once. */
  lemma ResetIdempotent(s: BallState)
    ensures ResetState(ResetState(s)) == ResetState(s)
  {
  }

  // ---------------------------------------------------------------- cooldowns

  /** `wasRecentlyHit`: false without an entry, otherwise whether that entry's timer is ticking. */
  predicate WasRecentlyHitIn(m: map<string, real>, name: string)
    ensures WasRecentlyHitIn(m, name) <==> name in m && m[name] > 0.0
  {
    if name !in m then false else Active(m[name])
  }

  /** The cooldown map after a ball-ball hit: a fresh timer set to HIT_COOLDOWN for that name. */
  function Cooled(s: BallState, other: string): BallState {
    s.(recentlyHit := s.recentlyHit[other := HitCooldown])
  }

  /** Every timer of the map ticked by `dt`; no key is added or removed. */
  function TickAll(m: map<string, real>, dt: real): (r: map<string, real>)
    ensures r.Keys == m.Keys
    ensures forall k :: k in r ==> r[k] == Ticked(m[k], dt)
    ensures forall k :: k in r ==> r[k] >= 0.0 && r[k] >= m[k] - dt && (r[k] == 0.0 || r[k] == m[k] - dt)
  {
    map k | k in m :: Ticked(m[k], dt)
  }

  /** A hit is remembered once ticked for at least the cooldown, and only until then. */
  lemma CooldownLapses(m: map<string, real>, name: string, dt: real)
    requires name in m && m[name] == HitCooldown
    ensures WasRecentlyHitIn(TickAll(m, dt), name) <==> dt < HitCooldown
  {
  }

  // ---------------------------------------------------------------- hits(Entity)

  /** The ball arm of `hits(Entity)`: not recently hit, and the spheres touch. */
  predicate HitsBallNow(s: BallState, other: BallState) {
    !WasRecentlyHitIn(s.recentlyHit, other.name) && SpheresTouch(s.center, s.radius, other.center, other.radius)
  }

  /** In terms of the true center distance `d`: a hit is `d <= r1 + r2` outside the cooldown. */
  lemma HitsBallIffWithinRadii(s: BallState, other: BallState, d: real)
    requires IsLengthOf(d, Sub(s.center, other.center))
    ensures HitsBallNow(s, other) <==>
              !WasRecentlyHitIn(s.recentlyHit, other.name) && d <= s.radius + other.radius
  {
    SpheresTouchIffDistance(s.center, s.radius, other.center, other.radius, d);
  }

  /** Right after a ball-ball hit, the same pair does not hit again. */
  lemma ImmediateRepeatMisses(s: BallState, other: BallState)
    ensures !HitsBallNow(Cooled(s, other.name), other)
  {
    assert Cooled(s, other.name).recentlyHit[other.name] == HitCooldown;
  }

  /** Recording a hit changes only the entry of the other ball's name. */
  lemma CooledChangesOneEntry(s: BallState, other: string, n: string)
    requires n != other
    ensures WasRecentlyHitIn(Cooled(s, other).recentlyHit, n) <==> WasRecentlyHitIn(s.recentlyHit, n)
    ensures WasRecentlyHitIn(Cooled(s, other).recentlyHit, other)
  {
  }

  /** The box arm of `hits(Entity)`: not recently hit, and some cardinal point is in the box. */
  predicate HitsBoxNow(s: BallState, box: Box) {
    !WasRecentlyHitIn(s.recentlyHit, box.name) && TouchesBox(s.center, s.radius, box)
  }

  // ---------------------------------------------------------------- springForward, applyPhysics

  /** `springForward`: the cue impulse along the normalized center-minus-origin direction. */
  function Sprung(s: BallState, ray: Ray, distance: real, normalize: Vec3 -> Vec3): BallState {
    s.(velocity := Add(s.velocity, CueImpulse(normalize(Sub(s.center, ray.origin)), distance)))
  }

  /** A cue strike never changes the vertical velocity, position or cooldowns. */
  lemma SprungKeepsVertical(s: BallState, ray: Ray, distance: real, normalize: Vec3 -> Vec3)
    ensures var t := Sprung(s, ray, distance, normalize);
            t.velocity.y == s.velocity.y && t.center == s.center && t.recentlyHit == s.recentlyHit
            && SameBall(t, s) && (Tracks(s) ==> Tracks(t))
  {
  }

  /** `applyPhysics`: friction, then both the center and the translation advance by `v dt`, then every timer ticks. */
  function Integrated(s: BallState, dt: real): BallState {
    var v := FrictionStep(s.velocity, dt);
    s.(velocity := v, center := Add(s.center, Scale(dt, v)), translation := Add(s.translation, Scale(dt, v)),
       recentlyHit := TickAll(s.recentlyHit, dt))
  }

  /** Integration keeps the translation equal to the displacement from the initial center. */
  lemma IntegratedTracks(s: BallState, dt: real)
    requires Tracks(s)
    ensures Tracks(Integrated(s, dt))
  {
  }

  /**
   * One integration step: a moving ball's velocity becomes `v (1 - 1.8 dt)`, a
   * nearly still one keeps its velocity, and the center moves by the new
   * velocity times `dt`.
   */
  lemma IntegratedMotion(s: BallState, dt: real)
    ensures var t := Integrated(s, dt);
            && SameBall(t, s)
            && (NearlyStill(s.velocity) ==> t.velocity == s.velocity)
            && (!NearlyStill(s.velocity) ==> t.velocity == Scale(1.0 - FrictionCoeff * dt, s.velocity))
            && t.center == Add(s.center, Scale(dt, t.velocity))
            && t.recentlyHit.Keys == s.recentlyHit.Keys
  {
  }

  // ---------------------------------------------------------------- the class

  class Ball {
    const name: string
    const initialCenter: Vec3
    const radius: real
    var center: Vec3
    var velocity: Vec3
    var translation: Vec3
    var recentlyHit: map<string, real>

    function State(): BallState
      reads this
    {
      BallState(name, initialCenter, radius, center, velocity, translation, recentlyHit)
    }

    ghost predicate Valid()
      reads this
    {
      Tracks(State())
    }

    /** The constructor stores name, center and radius, then calls `reset`. */
    constructor (name: string, center: Vec3, radius: real)
      ensures State() == ResetState(BallState(name, center, radius, center, Zero, Zero, map[]))
      ensures Valid()
    {
      this.name := name;
      this.initialCenter := center;
      this.radius := radius;
      this.center := center;
      new;
      Reset();
    }

    method Reset()
      modifies this
      ensures State() == ResetState(old(State()))
      ensures Valid()
    {
      center := initialCenter;
      translation := Zero;
      velocity := Zero;
      recentlyHit := map[];
    }

    predicate WasRecentlyHit(otherName: string)
      reads this
    {
      WasRecentlyHitIn(recentlyHit, otherName)
    }

    /**
     * `hits(Entity)` on a ball: when the spheres touch outside the cooldown,
     * start this ball's cooldown for the other's name; the other ball is not written.
     */
    method HitsBall(other: Ball) returns (hit: bool)
      modifies this
      ensures hit == HitsBallNow(old(State()), old(other.State()))
      ensures State() == if hit then Cooled(old(State()), other.name) else old(State())
    {
      if WasRecentlyHit(other.name) {
        return false;
      }
      if SpheresTouch(center, radius, other.center, other.radius) {
        recentlyHit := recentlyHit[other.name := HitCooldown];
        return true;
      }
      return false;
    }

    /** `isHittingBox`: tests the four cardinal points in order and stops at the first inside the box. */
    method IsHittingBox(box: Box) returns (hit: bool)
      ensures hit == TouchesBox(center, radius, box)
    {
      var corners := CardinalPoints(center, radius);
      var k := 0;
      while k < |corners|
        invariant 0 <= k <= |corners|
        invariant forall m :: 0 <= m < k ==> !box.ContainsPoint(corners[m])
      {
        if box.ContainsPoint(corners[k]) {
          return true;
        }
        k := k + 1;
      }
      return false;
    }

    /** `hits(Entity)` on a box: never writes the cooldown map; on a hit, reports the contact point. */
    method HitsBox(box: Box) returns (hit: bool, contact: Vec3)
      ensures hit == HitsBoxNow(State(), box)
      ensures hit ==> contact == BoxIntersection(center, radius, box)
    {
      contact := Zero;
      if WasRecentlyHit(box.name) {
        return false, contact;
      }
      hit := IsHittingBox(box);
      if hit {
        contact := BoxIntersection(center, radius, box);
      }
    }

    /** `hits(Ray)`: the selected root's point on the ray, if any. */
    method HitsRay(ray: Ray, solver: RootFinder) returns (hit: bool, point: Vec3)
      ensures hit == RayHit(ray, center, radius, solver).Some?
      ensures hit ==> point == RayHit(ray, center, radius, solver).value
    {
      match RayHit(ray, center, radius, solver)
      case None =>
        hit, point := false, Zero;
      case Some(p) =>
        hit, point := true, p;
    }

    method SpringForward(ray: Ray, distance: real, normalize: Vec3 -> Vec3)
      modifies this
      ensures State() == Sprung(old(State()), ray, distance, normalize)
    {
      var simpleDirection := normalize(Sub(center, ray.origin));
      velocity := Add(velocity, CueImpulse(simpleDirection, distance));
    }

    /** `applyPhysics`: the friction and position update, then every cooldown timer ticked in place. */
    method ApplyPhysics(dt: real)
      modifies this
      ensures State() == Integrated(old(State()), dt)
    {
      velocity := FrictionStep(velocity, dt);
      center := Add(center, Scale(dt, velocity));
      translation := Add(translation, Scale(dt, velocity));
      TickTimers(dt);
    }

    /** The loop over `recentlyHit` that ticks each timer by `dt`. */
    method TickTimers(dt: real)
      modifies this
      ensures recentlyHit == TickAll(old(recentlyHit), dt)
      ensures center == old(center) && velocity == old(velocity) && translation == old(translation)
    {
      ghost var timers := recentlyHit;
      var pending := recentlyHit.Keys;
      while pending != {}
        invariant recentlyHit.Keys == timers.Keys
        invariant pending <= timers.Keys
        invariant center == old(center) && velocity == old(velocity) && translation == old(translation)
        invariant forall n :: n in recentlyHit ==>
                    recentlyHit[n] == if n in pending then timers[n] else Ticked(timers[n], dt)
        decreases pending
      {
        var n :| n in pending;
        recentlyHit := recentlyHit[n := Ticked(recentlyHit[n], dt)];
        pending := pending - {n};
      }
      assert recentlyHit == TickAll(timers, dt);
    }
  }
}
