/**
 * The table (Pool/Pool.hpp, Pool/Pool.cpp): the balls, edge boxes, surface
 * box and node-to-ball index that the simulation updates, with the frame
 * step, the cue strike, scene loading and the ball reset. Each method is
 * proved against the value-level rule in PoolPhysics or Scene.
 */
module PoolGame {
  import opened Geometry
  import opened Wrappers
  import opened Boxes
  import opened BallCollision
  import opened Balls
  import opened PoolPhysics
  import opened Scene

  /** The abstract values of a sequence of balls, in order. */
  function StatesOf(bs: seq<Ball>): (r: seq<BallState>)
    reads bs
    ensures |r| == |bs|
    ensures forall k {:trigger r[k]} :: 0 <= k < |bs| ==> r[k] == bs[k].State()
    decreases |bs|
  {
    if bs == [] then [] else [bs[0].State()] + StatesOf(bs[1..])
  }

  class Pool {
    var balls: seq<Ball>
    var edges: seq<Box>
    var poolSurface: Box
    var geoToBall: map<int, int>
    var strikePower: real

    /** No ball object appears twice in the vector (each element is its own object). */
    ghost predicate Distinct()
      reads this
    {
      forall a, b :: 0 <= a < b < |balls| ==> balls[a] != balls[b]
    }

    ghost predicate Valid()
      reads this, balls
    {
      && Distinct()
      && AllTrack(States())
      && IndexValid(Loaded())
    }

    function States(): seq<BallState>
      reads this, balls
    {
      StatesOf(balls)
    }

    /** The table before loading: no balls or edges, a default surface, strike power 0.5. */
    constructor ()
      ensures balls == [] && edges == [] && poolSurface == DefaultBox() && geoToBall == map[]
      ensures strikePower == 0.5
      ensures Valid()
    {
      balls := [];
      edges := [];
      poolSurface := DefaultBox();
      geoToBall := map[];
      strikePower := 0.5;
    }

    // ---------------------------------------------------------------- applyPhysics

    /** `balls[i]->hits(*balls[j])`: only ball `i`'s cooldowns can change. */
    method TestBallPair(i: nat, j: nat) returns (hit: bool)
      requires Distinct() && i < |balls| && j < |balls|
      modifies balls[i]
      ensures hit == HitsBallNow(old(States())[i], old(States())[j])
      ensures hit ==> States() == old(States())[i := Cooled(old(States())[i], old(States())[j].name)]
      ensures !hit ==> States() == old(States())
    {
      hit := balls[i].HitsBall(balls[j]);
    }

    /** Overwrites the velocity of ball `i` and nothing else. */
    method SetVelocity(i: nat, v: Vec3)
      requires Distinct() && i < |balls|
      modifies balls[i]
      ensures States() == old(States())[i := old(States())[i].(velocity := v)]
    {
      balls[i].velocity := v;
    }

    /** The ball-ball scan of ball `i`: later balls in order, responding to the first hit. */
    method CollideWithBalls(i: nat) returns (isHit: bool)
      requires Distinct() && i < |balls|
      modifies balls
      ensures isHit == FirstBallHit(old(States()), i, i + 1).Some?
      ensures isHit ==> States() == BallResponse(old(States()), i, FirstBallHit(old(States()), i, i + 1).value)
      ensures !isHit ==> States() == old(States())
    {
      ghost var start := States();
      var j := i + 1;
      while j < |balls|
        invariant i + 1 <= j <= |balls|
        invariant States() == start
        invariant FirstBallHit(start, i, i + 1) == FirstBallHit(start, i, j)
      {
        var hit := TestAndRespond(start, i, j);
        if hit {
          assert FirstBallHit(start, i, j) == Some(j);
          return true;
        }
        FirstBallHitSkips(start, i, j);
        j := j + 1;
      }
      return false;
    }

    /** One step of the ball-ball scan: the test of ball `j`, and the response if it is hit. */
    method TestAndRespond(ghost start: seq<BallState>, i: nat, j: nat) returns (hit: bool)
      requires Distinct() && i < j < |balls| && States() == start
      modifies balls[i], balls[j]
      ensures hit == HitsBallNow(start[i], start[j])
      ensures hit ==> States() == BallResponse(start, i, j)
      ensures !hit ==> States() == start
    {
      hit := TestBallPair(i, j);
      if hit {
        RespondToBallHit(start, i, j);
      }
    }

    /**
     * The response to ball `i` hitting ball `j`, once `i`'s cooldown for `j`
     * is set: the two balls exchange the velocity components along the line
     * between their centers.
     */
    method RespondToBallHit(ghost start: seq<BallState>, i: nat, j: nat)
      requires Distinct() && i < |balls| == |start| && j < |balls| && i != j
      requires States() == start[i := Cooled(start[i], start[j].name)]
      modifies balls[i], balls[j]
      ensures States() == BallResponse(start, i, j)
    {
      BallResponseInOrder(start, i, j);
      var normal := Sub(balls[i].center, balls[j].center);
      var (vi, vj) := SwapNormal(balls[i].velocity, balls[j].velocity, normal);
      SetVelocity(i, vi);
      SetVelocity(j, vj);
    }

    /** The edge scan of ball `i`: edges in order, reflecting off the first hit. */
    method CollideWithEdges(i: nat) returns (isHit: bool)
      requires Distinct() && i < |balls|
      modifies balls[i]
      ensures var first := FirstEdgeHit(old(States())[i], edges, 0);
              && isHit == first.Some?
              && (isHit ==> States() == old(States())[i := Bounced(old(States())[i], edges[first.value])])
              && (!isHit ==> States() == old(States()))
    {
      ghost var start := States();
      var k := 0;
      while k < |edges|
        invariant 0 <= k <= |edges|
        invariant States() == start
        invariant FirstEdgeHit(start[i], edges, 0) == FirstEdgeHit(start[i], edges, k)
      {
        var hit, contact := balls[i].HitsBox(edges[k]);
        if hit {
          assert FirstEdgeHit(start[i], edges, k) == Some(k);
          var normal := Sub(balls[i].center, contact);
          SetVelocity(i, Reflect(balls[i].velocity, normal));
          return true;
        }
        FirstEdgeHitSkips(start[i], edges, k);
        k := k + 1;
      }
      return false;
    }

    /** Ball `i`'s own integration step. */
    method IntegrateBall(i: nat, dt: real)
      requires Distinct() && i < |balls|
      modifies balls[i]
      ensures States() == old(States())[i := Integrated(old(States())[i], dt)]
    {
      balls[i].ApplyPhysics(dt);
    }

    /**
     * `applyPhysics`: for each ball in order, the ball-ball scan, the edge
     * scan if no ball was hit, then the ball's own integration.
     */
    method ApplyPhysics(dt: real)
      requires Valid()
      modifies balls
      ensures Valid()
      ensures States() == FrameStep(old(States()), edges, dt)
    {
      TakeTurns(dt);
      FrameStepKeepsTracking(old(States()), edges, dt);
    }

    /** The collision part of ball `i`'s turn: the ball scan, then the edge scan if no ball was hit. */
    method Collide(i: nat)
      requires Distinct() && i < |balls|
      modifies balls
      ensures States() == Resolve(old(States()), i, edges)
    {
      var isHit := CollideWithBalls(i);
      if !isHit {
        isHit := CollideWithEdges(i);
      }
    }

    /** Ball `i`'s turn: its collisions, then its own integration. */
    method Turn(i: nat, dt: real)
      requires Distinct() && i < |balls|
      modifies balls
      ensures States() == Step(old(States()), i, edges, dt)
    {
      Collide(i);
      IntegrateBall(i, dt);
    }

    /** The loop of `applyPhysics`: every ball's turn, in vector order. */
    method TakeTurns(dt: real)
      requires Distinct()
      modifies balls
      ensures States() == FrameStep(old(States()), edges, dt)
    {
      ghost var start := States();
      var i := 0;
      while i < |balls|
        invariant 0 <= i <= |balls|
        invariant States() == StepPrefix(start, edges, dt, i)
      {
        NextTurn(start, i, dt);
        i := i + 1;
      }
    }

    /** Turn `i` extends a frame begun at `start` by one more ball. */
    method NextTurn(ghost start: seq<BallState>, i: nat, dt: real)
      requires Distinct() && i < |balls| == |start|
      requires States() == StepPrefix(start, edges, dt, i)
      modifies balls
      ensures States() == StepPrefix(start, edges, dt, i + 1)
    {
      Turn(i, dt);
    }

    // ---------------------------------------------------------------- strikeCue

    /**
     * The first loop of `strikeCue`: the balls the ray hits, in vector order,
     * with their hit points.
     */
    method CollectHits(ray: Ray, solver: RootFinder)
      returns (intersections: seq<Vec3>, hitBalls: seq<Ball>, ghost hitIndices: seq<nat>)
      ensures |intersections| == |hitBalls| == |hitIndices|
      ensures forall t :: 0 <= t < |hitIndices| ==>
                hitIndices[t] < |balls| && RayHitsBall(States(), ray, solver, hitIndices[t])
                && hitBalls[t] == balls[hitIndices[t]]
                && intersections[t] == RayHit(ray, States()[hitIndices[t]].center, States()[hitIndices[t]].radius, solver).value
      ensures forall t, u :: 0 <= t < u < |hitIndices| ==> hitIndices[t] < hitIndices[u]
      ensures forall m :: 0 <= m < |balls| && RayHitsBall(States(), ray, solver, m) ==> m in hitIndices
    {
      intersections, hitBalls, hitIndices := [], [], [];
      var i := 0;
      while i < |balls|
        invariant 0 <= i <= |balls|
        invariant |intersections| == |hitBalls| == |hitIndices|
        invariant forall t :: 0 <= t < |hitIndices| ==>
                    hitIndices[t] < i && RayHitsBall(States(), ray, solver, hitIndices[t])
                    && hitBalls[t] == balls[hitIndices[t]]
                    && intersections[t] == RayHit(ray, States()[hitIndices[t]].center, States()[hitIndices[t]].radius, solver).value
        invariant forall t, u :: 0 <= t < u < |hitIndices| ==> hitIndices[t] < hitIndices[u]
        invariant forall m :: 0 <= m < i && RayHitsBall(States(), ray, solver, m) ==> m in hitIndices
      {
        var hit, point := balls[i].HitsRay(ray, solver);
        assert balls[i].State() == States()[i];
        if hit {
          intersections := intersections + [point];
          hitBalls := hitBalls + [balls[i]];
          hitIndices := hitIndices + [i];
        }
        i := i + 1;
      }
    }

    /**
     * `strikeCue`: collect the balls the ray hits with their hit points, pick
     * the nearest hit (the first of equals), and spring that ball forward.
     * Distances are compared squared.
     */
    method StrikeCue(ray: Ray, solver: RootFinder, normalize: Vec3 -> Vec3)
      requires Valid()
      modifies balls
      ensures Valid()
      ensures !AnyRayHit(old(States()), ray, solver) ==> States() == old(States())
      ensures AnyRayHit(old(States()), ray, solver) ==>
                exists k :: IsNearestHit(old(States()), ray, solver, k)
                            && States() == Struck(old(States()), k, ray, strikePower, normalize)
    {
      var intersections, hitBalls, hitIndices := CollectHits(ray, solver);
      if intersections == [] {
        return;
      }
      var chosen := Nearest(intersections, ray.origin);
      ghost var k := hitIndices[chosen];
      NearestOfCollected(States(), ray, solver, intersections, hitIndices, chosen);
      var nearestBall := hitBalls[chosen];
      StrikeNearest(nearestBall, k, ray, solver, normalize);
    }

    /** The end of `strikeCue`: `springForward(ray, cueDistance * strikePower)` on the nearest hit ball, the `k`-th. */
    method StrikeNearest(ball: Ball, ghost k: nat, ray: Ray, ghost solver: RootFinder, normalize: Vec3 -> Vec3)
      requires Valid() && k < |balls| && balls[k] == ball && IsNearestHit(States(), ray, solver, k)
      modifies ball
      ensures States() == Struck(old(States()), k, ray, strikePower, normalize)
      ensures IsNearestHit(old(States()), ray, solver, k)
      ensures Valid()
    {
      var cueDistance := 1.0 * UnitsToMeters;
      ball.SpringForward(ray, cueDistance * strikePower, normalize);
      SprungKeepsVertical(old(States())[k], ray, cueDistance * strikePower, normalize);
      UpdateKeepsTracking(old(States()), k, Sprung(old(States())[k], ray, cueDistance * strikePower, normalize));
    }

    // ---------------------------------------------------------------- initEntities

    function Loaded(): Entities
      reads this, balls
    {
      Entities(poolSurface, edges, States(), geoToBall)
    }

    /** One iteration of the loop of `initEntities`, for a child whose name does not throw. */
    method AddChild(child: SceneNode)
      requires Valid() && Classify(child.name) != Throws
      modifies this
      ensures Valid()
      ensures Loaded() == AddNode(old(Loaded()), child)
      ensures strikePower == old(strikePower)
    {
      ghost var before := Loaded();
      var kind := Classify(child.name);
      if kind == Surface {
        poolSurface := Box(child.name, child.center, child.extents);
        assert Loaded() == before.(surface := poolSurface);
      } else if kind == Edge {
        edges := edges + [Box(child.name, child.center, child.extents)];
        assert Loaded() == before.(edges := edges);
      } else if kind == BallNode {
        var ball := new Ball(child.name, child.center, 1.0);
        balls := balls + [ball];
        geoToBall := geoToBall[child.nodeId := |balls| - 1];
        assert States() == before.balls + [NewBall(child.name, child.center, 1.0)];
        assert Loaded() == before.(balls := States(), geoToBall := geoToBall);
      }
      AddNodeKeepsIndexValid(before, child);
    }

    /**
     * `initEntities`: classify each root child by name and append the surface,
     * edge or ball it describes; a name that makes `substr` throw ends the
     * loading with `ok == false`.
     */
    method InitEntities(children: seq<SceneNode>) returns (ok: bool)
      requires Valid()
      modifies this
      ensures Valid()
      ensures LoadNodes(old(Loaded()), children) == (Loaded(), ok)
      ensures strikePower == old(strikePower)
    {
      var k := 0;
      while k < |children|
        invariant 0 <= k <= |children|
        invariant Valid()
        invariant strikePower == old(strikePower)
        invariant LoadNodes(old(Loaded()), children) == LoadNodes(Loaded(), children[k..])
      {
        var child := children[k];
        assert children[k..][0] == child && children[k..][1..] == children[k + 1..];
        if Classify(child.name) == Throws {
          return false;
        }
        AddChild(child);
        k := k + 1;
      }
      return true;
    }

    // ---------------------------------------------------------------- resetBalls

    method ResetBalls()
      requires Valid()
      modifies balls
      ensures Valid()
      ensures States() == ResetAll(old(States()))
    {
      var i := 0;
      while i < |balls|
        invariant 0 <= i <= |balls|
        invariant forall m :: 0 <= m < |balls| ==>
                    States()[m] == if m < i then ResetState(old(States())[m]) else old(States())[m]
      {
        balls[i].Reset();
        i := i + 1;
      }
      ResetAllRestores(old(States()));
    }
  }

  /**
   * The second loop of `strikeCue`: the index of the nearest point, keeping
   * the earliest of equally near points.
   */
  method Nearest(points: seq<Vec3>, origin: Vec3) returns (chosen: nat)
    requires |points| > 0
    ensures chosen < |points|
    ensures forall w :: 0 <= w < |points| ==>
              LengthSq(Sub(points[chosen], origin)) <= LengthSq(Sub(points[w], origin))
    ensures forall w :: 0 <= w < chosen ==>
              LengthSq(Sub(points[chosen], origin)) < LengthSq(Sub(points[w], origin))
  {
    chosen := 0;
    var nearestDistance := LengthSq(Sub(points[0], origin));
    var u := 0;
    while u < |points|
      invariant 0 <= u <= |points|
      invariant chosen < |points| && chosen <= u
      invariant nearestDistance == LengthSq(Sub(points[chosen], origin))
      invariant forall w :: 0 <= w < u ==> nearestDistance <= LengthSq(Sub(points[w], origin))
      invariant forall w :: 0 <= w < chosen ==> nearestDistance < LengthSq(Sub(points[w], origin))
    {
      var distanceFromRay := LengthSq(Sub(points[u], origin));
      if distanceFromRay < nearestDistance {
        nearestDistance := distanceFromRay;
        chosen := u;
      }
      u := u + 1;
    }
  }

  /**
   * The scan over the collected hits picks the entry whose ball is the
   * nearest hit of the whole table.
   */
  lemma NearestOfCollected(ss: seq<BallState>, ray: Ray, solver: RootFinder,
                           points: seq<Vec3>, indices: seq<nat>, chosen: nat)
    requires |points| == |indices| && chosen < |indices|
    requires forall t :: 0 <= t < |indices| ==>
               indices[t] < |ss| && RayHitsBall(ss, ray, solver, indices[t])
               && points[t] == RayHit(ray, ss[indices[t]].center, ss[indices[t]].radius, solver).value
    requires forall t, u :: 0 <= t < u < |indices| ==> indices[t] < indices[u]
    requires forall m :: 0 <= m < |ss| && RayHitsBall(ss, ray, solver, m) ==> m in indices
    requires forall w :: 0 <= w < |points| ==>
               LengthSq(Sub(points[chosen], ray.origin)) <= LengthSq(Sub(points[w], ray.origin))
    requires forall w :: 0 <= w < chosen ==>
               LengthSq(Sub(points[chosen], ray.origin)) < LengthSq(Sub(points[w], ray.origin))
    ensures IsNearestHit(ss, ray, solver, indices[chosen])
  {
    var k := indices[chosen];
    forall m | 0 <= m < |ss| && RayHitsBall(ss, ray, solver, m)
      ensures HitDistanceSq(ss, ray, solver, k) <= HitDistanceSq(ss, ray, solver, m)
      ensures m < k ==> HitDistanceSq(ss, ray, solver, k) < HitDistanceSq(ss, ray, solver, m)
    {
      var u :| 0 <= u < |indices| && indices[u] == m;
      if m < k {
        assert u < chosen;
      }
    }
  }
}
