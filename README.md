# Pool table simulation: ball motion and collision bookkeeping in Dafny

This project models the simulation core of a small OpenGL billiards program.
Each frame, `Pool::applyPhysics` gives every ball one turn, in vector order:
- it tests the later balls and then the table edges;
- it resolves at most one collision, either by exchanging normal velocity components with another ball or by reflecting off an edge;
- it then integrates the ball's own motion: linear friction, the position update, and the per-object hit cooldowns.

`Pool::strikeCue` picks the ball nearest to the camera ray and gives it the cue impulse. `Pool::initEntities` classifies the scene's root children by name into the table surface, edge boxes and balls. Around this core sit small state holders:
- the saturating `CountdownTimer`;
- the epsilon comparisons of `floats.cpp`;
- `RangeClamp`, `KeyStates` and `MouseStates`;
- the header decode of the BMP texture loader.

Modelling conventions:
- Vectors are `Vec3` over `real`. Float rounding is not modelled.
- Every length comparison is made on squared lengths. Lemmas (`BallCollision.SpheresTouchIffDistance`, `BallCollision.NearlyStillIffZeroLength`, `PoolPhysics.NearestHitByLength`) show that the squared test agrees with the test on the true length.
- `normalize`, used by `springForward`, and the root finder `quadraticRoots` are parameters of the operations that call them.
- The ball and table responses are written without square roots. `PoolPhysics.SwapMatchesSource` and `PoolPhysics.ReflectionMatchesSource` prove that they equal the source's expressions wherever those are defined.

Each component takes the form it has in the source:
- `Ball`, `Pool`, `CountdownTimer`, `RangeClamp`, `KeyStates` and `MouseStates` are classes whose methods update fields.
- The methods of `Ball`, `Pool` and `MouseStates` are proved against a function on the class's abstract value: `Ball.State()`, `Pool.States()`, `Pool.Loaded()` or `MouseStates.CursorState()`.
- The methods of `CountdownTimer`, `RangeClamp` and `KeyStates` are specified directly on their fields: the remaining time, the two bounds, and the key table.
- The properties the program relies on are lemmas about those functions. Examples:
  - each ball is integrated once per frame;
  - collisions conserve momentum or keep speed;
  - a ball is hit at most once per cooldown;
  - ties in the cue-ball choice go to the earliest ball;
  - loading appends in order.

Modules, one per file: `Geometry`, `Floats`, `CountdownTimers`, `Boxes`, `Wrappers`, `BallCollision`, `Balls`, `PoolPhysics`, `Scene`, `PoolGame`, `RangeClamps`, `KeyTables`, `MouseInput`, `BmpHeaders`.

## Model

| member | source | states |
|---|---|---|
| Floats.Abs | Pool/floats.cpp:21-23 | the absolute value is non-negative and is the argument or its negation |
| Floats.IsZero | Pool/floats.cpp:21-23 | `isZero(f)` holds exactly when `-1e-7 <= f <= 1e-7` |
| Floats.IsPos | Pool/floats.cpp:13-15 | `isPos(f)` holds exactly when `f > 1e-7` |
| Floats.IsNeg | Pool/floats.cpp:17-19 | `isNeg(f)` holds exactly when `f < -1e-7` |
| Floats.IsEq | Pool/floats.cpp:9-11 | `isEq(a, b)` holds exactly when `b` is within epsilon of `a` |
| Floats.SignTrichotomy | Pool/floats.cpp:13-23 | every value is zero, positive or negative; never both positive and negative; zero excludes both |
| Floats.IsEqReflexiveSymmetric | Pool/floats.cpp:9-11 | `isEq` is reflexive and symmetric |
| Floats.IsNegIsPosOfNegation | Pool/floats.cpp:13-19 | `isNeg(f)` exactly when `isPos(-f)` |
| CountdownTimers.Active | Pool/CountdownTimer.cpp:22-24 | a timer is ticking exactly when its remaining time is strictly positive; a timer at 0 is stopped |
| CountdownTimers.Ticked | Pool/CountdownTimer.cpp:14-19 | the remaining time after a tick is `max(time - dt, 0)`: non-negative, at least `time - dt`, and either 0 or `time - dt` |
| CountdownTimers.TickAtZeroStaysZero | Pool/CountdownTimer.cpp:14-19 | a stopped timer ticked by `dt >= 0` stays at 0 |
| CountdownTimers.TickPastRemainingDeactivates | Pool/CountdownTimer.cpp:14-24 | ticking by at least the remaining time stops the timer |
| CountdownTimers.SumNonNegative | Pool/CountdownTimer.cpp:14-19 | a sequence of non-negative frame times has a non-negative total |
| CountdownTimers.CooldownExpires | Pool/CountdownTimer.cpp:14-24 | after ticks totalling at least the time set, the timer is at 0 |
| CountdownTimers.TicksNeverRaise | Pool/CountdownTimer.cpp:14-19 | non-negative ticks keep the remaining time between 0 and its start |
| CountdownTimers.CountdownTimer.constructor | Pool/CountdownTimer.cpp:4-6 | a new timer holds 0 and is not ticking |
| CountdownTimers.CountdownTimer.Set | Pool/CountdownTimer.cpp:9-11 | `set(t)` stores `t` unclamped, so `getTime()` returns `t`; the timer is ticking exactly when `t > 0` |
| CountdownTimers.CountdownTimer.Tick | Pool/CountdownTimer.cpp:14-19 | the new remaining time is `Ticked(old, dt)`, is non-negative, and is 0 when `dt >= old` |
| CountdownTimers.CountdownTimer.IsTicking | Pool/CountdownTimer.cpp:22-24 | `isTicking()` reads the timer without changing it and reports `Active` of the remaining time |
| CountdownTimers.CountdownTimer.GetTime | Pool/CountdownTimer.cpp:27-29 | `getTime()` reads the remaining time without changing it |
| Boxes.Box.ContainsPoint | Pool/Box.cpp:16-29 | containment is the inclusive test on x and z around the center by half the extents |
| Boxes.DefaultBox | Pool/Box.cpp:12-14 | the default box has type BOX, name "noname", and zero center and extents |
| Boxes.DefaultBoxContainsOnlyOrigin | Pool/Box.cpp:12-29 | the default box contains exactly the points with `x == 0` and `z == 0` |
| Boxes.ContainsPointIgnoresY | Pool/Box.cpp:29 | the y coordinate never affects containment |
| Boxes.ContainsOwnCenter | Pool/Box.cpp:17-29 | with non-negative x and z extents, a box contains its center |
| Boxes.NegativeExtentContainsNothing | Pool/Box.cpp:17-29 | a negative x or z extent makes the footprint empty |
| BallCollision.SpheresTouch | Pool/Ball.cpp:49-50 | the ball-ball contact test: the center distance is at most the sum of the radii; `SpheresTouchIffDistance` ties it to the true distance |
| BallCollision.SpheresTouchIffDistance | Pool/Ball.cpp:49-50 | the squared sphere test holds exactly when the true center distance is `<= r1 + r2` |
| BallCollision.SpheresTouchSymmetric | Pool/Ball.cpp:49-50 | the sphere test is symmetric in the two balls |
| BallCollision.CardinalPoints | Pool/Ball.cpp:72-77 | there are four cardinal points, all at the center's height |
| BallCollision.TouchesBox | Pool/Ball.cpp:71-86 | `isHittingBox`: some one of the ball's four cardinal points lies in the box's footprint |
| BallCollision.TouchesBoxIffSomeCardinal | Pool/Ball.cpp:71-86 | the box test holds exactly when one of `center ± (r,0,0)`, `center ± (0,0,r)` is in the box |
| BallCollision.BoxIntersection | Pool/Ball.cpp:88-132 | the contact point is always one of the four cardinal points |
| BallCollision.ZeroOffsetTakesLastBranch | Pool/Ball.cpp:100-131 | a zero x or z offset from the box center falls into the final branch of the quadrant table |
| BallCollision.ContactNormalIsAxisRadius | Pool/Ball.cpp:88-132 | center minus contact point is `±r` along x or along z |
| BallCollision.RayQuadratic | Pool/Ball.cpp:135-144 | the coefficients `A`, `B`, `C` handed to `quadraticRoots`: their roots `t` are the parameters where `origin + t * direction` is at distance `r` from the center (`RayHitOnSphere`) |
| BallCollision.SelectRoot | Pool/Ball.cpp:150-176 | no roots: miss. One root: miss exactly when `isNeg`, otherwise that root. Two roots: miss exactly when neither `isPos`; a hit is an `isPos` root no larger than any other `isPos` root |
| BallCollision.SelectedRootNotBehind | Pool/Ball.cpp:150-176 | a selected root is never below `-epsilon` |
| BallCollision.RayHit | Pool/Ball.cpp:134-179 | the ray hits exactly when a root is selected; the point is `origin + t * direction` |
| BallCollision.RayHitOnSphere | Pool/Ball.cpp:134-179 | if the selected root solves the quadratic, the hit point lies on the sphere |
| BallCollision.RayHitsNearSideOfBall | Pool/Ball.cpp:136-179 | a ray from `(0,0,-10)` along +z at the unit ball at the origin, with the solver reporting roots 11 and 9, hits the near side at `(0,0,-1)` |
| BallCollision.ExampleRootChoice | Pool/Ball.cpp:160-172 | of two positive roots the smaller is taken, whichever order the solver reports them in |
| BallCollision.NearlyStill | Pool/Ball.cpp:239 | the stillness test `isZero(length(v))`, on the squared length; `NearlyStillIffZeroLength` ties it to the true length |
| BallCollision.NearlyStillIffZeroLength | Pool/Ball.cpp:239 | the squared stillness test agrees with `isZero(length(v))` |
| BallCollision.FrictionStep | Pool/Ball.cpp:208-248 | a nearly still velocity is kept; otherwise it becomes `v * (1 - 1.8 dt)` |
| BallCollision.FrictionSlowsWithoutReversing | Pool/Ball.cpp:239-248 | for `0 < dt < 1/1.8`, friction strictly slows a moving ball and flips no velocity component |
| BallCollision.CueImpulse | Pool/Ball.cpp:182-190 | the impulse has no vertical part and is `0.2 * distance` times the horizontal direction |
| BallCollision.CueImpulseBounded | Pool/Ball.cpp:182-190 | for a unit direction the impulse is at most `0.2 * distance` long |
| Balls.ResetState | Pool/Ball.cpp:29-39 | `reset`: the center goes back to the initial center, the transform to identity, the velocity to zero, and the cooldown map is cleared; name and radius stay |
| Balls.ResetRestores | Pool/Ball.cpp:29-39 | after `reset` the ball is at its initial center, at rest, with identity transform and an empty cooldown map |
| Balls.ResetIdempotent | Pool/Ball.cpp:29-39 | resetting twice equals resetting once |
| Balls.WasRecentlyHitIn | Pool/Ball.cpp:276-283 | a name is recently hit exactly when it has an entry whose timer is positive |
| Balls.Cooled | Pool/Ball.cpp:53-54 | a ball-ball hit gives the other ball's name a fresh timer set to HIT_COOLDOWN, replacing any earlier one; no other entry changes (`CooledChangesOneEntry`) |
| Balls.TickAll | Pool/Ball.cpp:256-258 | ticking the cooldown map keeps its keys and sets every entry to its own timer ticked by `dt`: `t - dt`, or 0 once that would be negative |
| Balls.CooldownLapses | Pool/Ball.cpp:254-256 | a cooldown just set to HIT_COOLDOWN (0.1) is still active after a tick exactly when `dt < 0.1` |
| Balls.HitsBallNow | Pool/Ball.cpp:41-57 | the ball arm of `hits(Entity)` returns true exactly when the other ball is not recently hit and the spheres touch |
| Balls.HitsBallIffWithinRadii | Pool/Ball.cpp:41-57 | a ball-ball hit happens exactly when the name is not recently hit and the center distance is `<= r1 + r2` |
| Balls.ImmediateRepeatMisses | Pool/Ball.cpp:41-57 | right after a hit, the same pair does not hit again |
| Balls.CooledChangesOneEntry | Pool/Ball.cpp:53-54 | recording a hit marks that name recently hit and leaves every other name's status as it was |
| Balls.HitsBoxNow | Pool/Ball.cpp:41-69 | the box arm of `hits(Entity)` returns true exactly when the box is not recently hit and `isHittingBox` holds |
| Balls.Sprung | Pool/Ball.cpp:182-190 | `springForward` adds the horizontal cue impulse along the normalized direction from the ray's origin to the center; nothing else changes |
| Balls.SprungKeepsVertical | Pool/Ball.cpp:182-190 | a cue strike changes only the horizontal velocity: center, cooldowns and identity stay, and tracking is kept |
| Balls.Integrated | Pool/Ball.cpp:208-258 | `applyPhysics` on one ball: friction, then center and translation advance by the new velocity times `dt`, then every cooldown ticks |
| Balls.IntegratedTracks | Pool/Ball.cpp:253-254 | integration keeps the render translation equal to center minus initial center |
| Balls.IntegratedMotion | Pool/Ball.cpp:239-258 | integration applies the friction step, moves the center by the new velocity times `dt`, and keeps the cooldown keys |
| Balls.Ball.constructor | Pool/Ball.cpp:23-27 | a new ball is the reset state of its name, center and radius |
| Balls.Ball.Reset | Pool/Ball.cpp:29-39 | the new state is `ResetState` of the old one, and tracking holds |
| Balls.Ball.WasRecentlyHit | Pool/Ball.cpp:276-283 | `wasRecentlyHit` reads the cooldown map without inserting and reports `WasRecentlyHitIn` |
| Balls.Ball.HitsBall | Pool/Ball.cpp:41-57 | returns the ball-ball hit test on the states before the call; on a hit only this ball's cooldown entry for the other is written; on a miss nothing changes |
| Balls.Ball.IsHittingBox | Pool/Ball.cpp:71-86 | the loop over the cardinal points returns exactly `TouchesBox` |
| Balls.Ball.HitsBox | Pool/Ball.cpp:41-69 | a box hit needs no cooldown for the box and a touching cardinal point; the contact is the quadrant-table point; the cooldown map is not written |
| Balls.Ball.HitsRay | Pool/Ball.cpp:134-179 | returns exactly `RayHit` for the ball's center and radius |
| Balls.Ball.SpringForward | Pool/Ball.cpp:182-190 | the new state is `Sprung` of the old one |
| Balls.Ball.ApplyPhysics | Pool/Ball.cpp:208-258 | the new state is `Integrated` of the old one |
| Balls.Ball.TickTimers | Pool/Ball.cpp:256-258 | the loop over the map ticks every timer by `dt` and changes no other field |
| PoolPhysics.SwapNormal | Pool/Pool.cpp:1037-1044 | the equal-mass response: each ball keeps its tangential velocity and takes the other's normal velocity (`SwapExchangesNormalParts`, `SwapConservesMomentum`, `SwapMatchesSource`) |
| PoolPhysics.SwapConservesMomentum | Pool/Pool.cpp:1037-1044 | the sum of the two velocities is unchanged by a ball-ball response |
| PoolPhysics.SwapExchangesNormalParts | Pool/Pool.cpp:1037-1044 | the normal components are exchanged and each tangential remainder is kept |
| PoolPhysics.SwapMatchesSource | Pool/Pool.cpp:1037-1044 | with `n = d / length(d)` and `d != 0`, the response as written equals `SwapNormal` |
| PoolPhysics.AlongDot | Pool/Pool.cpp:1039-1040 | the projection onto the normal keeps the dot product with the normal |
| PoolPhysics.Reflect | Pool/Pool.cpp:1061-1091 | the edge response: the velocity mirrored in the plane of the contact normal, which negates its normal part and keeps its speed (`ReflectNegatesNormalPart`, `ReflectKeepsSpeed`, `ReflectionMatchesSource`) |
| PoolPhysics.ReflectNegatesNormalPart | Pool/Pool.cpp:1086-1091 | reflection negates the velocity's component along the normal |
| PoolPhysics.ReflectInvolution | Pool/Pool.cpp:1086-1091 | reflecting twice in the same normal gives the velocity back |
| PoolPhysics.ReflectKeepsSpeed | Pool/Pool.cpp:1086-1091 | reflection preserves the speed |
| PoolPhysics.ReflectOffXAxis | Pool/Pool.cpp:1058-1060 | against an x-axis normal, only the x velocity flips |
| PoolPhysics.ReflectOffZAxis | Pool/Pool.cpp:1058-1060 | against a z-axis normal, only the z velocity flips |
| PoolPhysics.ReflectionMatchesSource | Pool/Pool.cpp:1061-1091 | `ggReflection(v, n) * length(v)` as written equals `Reflect(v, n)` wherever both lengths are non-zero |
| PoolPhysics.FirstBallHit | Pool/Pool.cpp:1034-1047 | the scan returns the first later ball that is hit, and a miss means no later ball is hit |
| PoolPhysics.FirstEdgeHit | Pool/Pool.cpp:1052-1067 | the scan returns the first edge that is hit, in vector order, and a miss means no edge is hit |
| PoolPhysics.Bounced | Pool/Pool.cpp:1061-1063 | an edge hit sets the ball's velocity to its reflection in center minus the box contact point; nothing else changes |
| PoolPhysics.BallResponse | Pool/Pool.cpp:1036-1046 | ball `i` hitting ball `j` starts `i`'s cooldown for `j` and exchanges their normal velocity parts; no other ball changes |
| PoolPhysics.BallResponseInOrder | Pool/Pool.cpp:1036-1046 | a ball-ball response is the turn-taker's cooldown write followed by the two velocity writes, each reading the state the previous one left |
| PoolPhysics.Resolve | Pool/Pool.cpp:1031-1080 | a turn's collision: the first later ball hit, else the first edge hit, else nothing (`ResolveOutcomes`, `ResolveChangesOnlyVelocities`) |
| PoolPhysics.ResolveChangesOnlyVelocities | Pool/Pool.cpp:1030-1080 | a turn's collision changes only velocities and the turn-taker's cooldowns; it touches only the turn-taker and the one ball it hit |
| PoolPhysics.ResolveOutcomes | Pool/Pool.cpp:1030-1080 | at most one collision per ball: a ball hit conserves momentum and starts the cooldown; otherwise an edge hit keeps the speed; otherwise nothing changes |
| PoolPhysics.Step | Pool/Pool.cpp:1030-1083 | one ball's turn: its collision response, then its own `applyPhysics` |
| PoolPhysics.StepPrefix | Pool/Pool.cpp:1029-1084 | the first `n` turns of a frame in vector order, keeping the number of balls |
| PoolPhysics.FrameStep | Pool/Pool.cpp:1029-1084 | a frame of `applyPhysics`: every ball takes its turn once, in vector order (`FrameStepIntegratesOnce`) |
| PoolPhysics.StepKeepsEarlier | Pool/Pool.cpp:1029-1084 | a later ball's turn leaves earlier balls unchanged |
| PoolPhysics.StepKeepsOthersInPlace | Pool/Pool.cpp:1029-1084 | another ball's turn moves no ball other than it |
| PoolPhysics.StepPrefixLeavesLaterInPlace | Pool/Pool.cpp:1029-1084 | before its own turn a ball has not moved |
| PoolPhysics.StepPrefixSettles | Pool/Pool.cpp:1029-1084 | after its own turn a ball is not changed by later turns |
| PoolPhysics.FrameStepIntegratesOnce | Pool/Pool.cpp:1029-1084 | over a whole frame each ball is integrated exactly once: final center and translation are start plus `dt` times final velocity |
| PoolPhysics.StepIntegratesTurnTaker | Pool/Pool.cpp:1082 | in its turn a ball is integrated from its pre-turn center and translation |
| PoolPhysics.FrameStepKeepsTracking | Pool/Pool.cpp:1029-1084 | a frame keeps every ball's translation equal to its displacement |
| PoolPhysics.IsNearestHit | Pool/Pool.cpp:997-1024 | the ball `strikeCue` picks: the ray hits it, no hit ball is nearer, and every earlier hit ball is strictly farther |
| PoolPhysics.NearestHitByLength | Pool/Pool.cpp:1013-1024 | choosing by squared distance picks exactly the ball that choosing by the true distance `glm::length` picks |
| PoolPhysics.NearestHitUnique | Pool/Pool.cpp:1013-1024 | at most one ball is the nearest hit |
| PoolPhysics.Struck | Pool/Pool.cpp:1025-1026 | a strike applies `springForward(ray, 1200 * strikePower)` to the chosen ball and to no other |
| PoolPhysics.StruckChangesOneVelocity | Pool/Pool.cpp:1025-1026 | a strike changes only the struck ball, and of it only the horizontal velocity: center, translation, cooldowns and identity stay |
| PoolPhysics.ResetAll | Pool/Pool.cpp:935-939 | resetting keeps the number of balls |
| PoolPhysics.ResetAllRestores | Pool/Pool.cpp:935-939 | after `resetBalls` every ball is at its initial center, at rest, tracking; resetting again changes nothing |
| PoolGame.StatesOf | Pool/Pool.cpp:1029-1030 | the abstract value of the ball vector lists each ball's state in order |
| PoolGame.Pool.constructor | Pool/Pool.cpp:40-61 | the table starts with no balls or edges, a default surface box, and strike power 0.5 |
| PoolGame.Pool.TestBallPair | Pool/Pool.cpp:1036 | one ball-ball test changes only the tested ball's cooldowns, as `HitsBallNow` says |
| PoolGame.Pool.SetVelocity | Pool/Pool.cpp:1043-1063 | a velocity write changes only that ball's velocity |
| PoolGame.Pool.CollideWithBalls | Pool/Pool.cpp:1034-1047 | the inner scan reports a hit exactly when `FirstBallHit` finds one, and the state is then `BallResponse` to that ball |
| PoolGame.Pool.TestAndRespond | Pool/Pool.cpp:1036-1046 | one step of the ball scan: the test reports `HitsBallNow`, and a hit leaves `BallResponse`, a miss leaves every ball as it was |
| PoolGame.Pool.RespondToBallHit | Pool/Pool.cpp:1037-1045 | after the cooldown write, the two velocity writes leave exactly `BallResponse` |
| PoolGame.Pool.CollideWithEdges | Pool/Pool.cpp:1050-1067 | the edge scan reports a hit exactly when `FirstEdgeHit` finds one, and the ball then bounces off that edge |
| PoolGame.Pool.IntegrateBall | Pool/Pool.cpp:1082 | a ball's `applyPhysics` changes only that ball |
| PoolGame.Pool.Collide | Pool/Pool.cpp:1031-1080 | the collision part of a turn is `Resolve` |
| PoolGame.Pool.Turn | Pool/Pool.cpp:1030-1083 | a whole turn is `Step` |
| PoolGame.Pool.TakeTurns | Pool/Pool.cpp:1029-1084 | the loop over the balls is `FrameStep` |
| PoolGame.Pool.NextTurn | Pool/Pool.cpp:1029-1084 | each turn extends the frame's prefix of turns by that ball's `Step` |
| PoolGame.Pool.ApplyPhysics | Pool/Pool.cpp:1029-1084 | the new states are `FrameStep` of the old ones, and every ball keeps tracking |
| PoolGame.Pool.CollectHits | Pool/Pool.cpp:999-1007 | the first loop collects, in order, exactly the balls the ray hits with their hit points |
| PoolGame.Nearest | Pool/Pool.cpp:1013-1023 | the scan returns a nearest point, and every earlier point is strictly farther |
| PoolGame.NearestOfCollected | Pool/Pool.cpp:1013-1023 | the point the scan picks belongs to the nearest hit ball of the whole table |
| PoolGame.Pool.StrikeCue | Pool/Pool.cpp:997-1027 | no hit leaves every ball unchanged; otherwise exactly the nearest hit ball (ties to the earliest) is sprung with `1200 * strikePower` |
| PoolGame.Pool.StrikeNearest | Pool/Pool.cpp:1025-1026 | `springForward(ray, cueDistance * strikePower)` on the nearest hit ball leaves exactly the table `Struck` describes, and keeps every ball tracking |
| PoolGame.Pool.AddChild | Pool/Pool.cpp:351-371 | one root child that does not throw is added as `AddNode` says |
| PoolGame.Pool.InitEntities | Pool/Pool.cpp:350-372 | loading leaves the surface, edges, balls and index as `LoadNodes` computes, and reports `false` where `substr` throws |
| PoolGame.Pool.ResetBalls | Pool/Pool.cpp:935-939 | the new states are `ResetAll` of the old ones |
| Scene.Classify | Pool/Pool.cpp:352-366 | the name tests of `initEntities` in their order, including the throwing `substr` on a name shorter than 4 (`ClassifyByName`) |
| Scene.ClassifyByName | Pool/Pool.cpp:352-366 | "poolsurface" is the surface; other names ending in "FeltEdge" are edges; other names ending in "Ball" are balls; names shorter than 4 throw |
| Scene.LoadSucceedsIffNoShortName | Pool/Pool.cpp:350-372 | loading completes exactly when no child's name throws |
| Scene.AddNode | Pool/Pool.cpp:352-370 | one non-throwing child sets the surface, appends an edge box, or appends a radius-1 ball and indexes it; other names change nothing (`AddNodeAppends`) |
| Scene.LoadNodes | Pool/Pool.cpp:350-372 | the loop over the root's children: each is added in order, and a throw stops it with what was added so far and `false` (`LoadSucceedsIffNoShortName`, `LoadAppendsInOrder`) |
| Scene.AddNodeAppends | Pool/Pool.cpp:352-370 | one non-throwing child appends its own edge box or radius-1 ball, if any, and nothing else |
| Scene.LoadAppendsEdges | Pool/Pool.cpp:350-372 | a completed load appends exactly the edge nodes' boxes to the edges, in order |
| Scene.LoadAppendsBalls | Pool/Pool.cpp:350-372 | a completed load appends exactly the ball nodes' radius-1 balls to the balls, in order |
| Scene.LoadAppendsInOrder | Pool/Pool.cpp:350-372 | a completed load appends exactly the edge nodes to the edges and the ball nodes, as radius-1 balls, to the balls, in order |
| Scene.LoadKeepsIndexValid | Pool/Pool.cpp:366-370 | every node-to-ball index entry names a ball that exists, and no ball is removed |
| Scene.AddBallIndexesIt | Pool/Pool.cpp:366-370 | a ball node's id maps to the index of the radius-1 ball it just produced |
| RangeClamps.Clamped | Pool/RangeClamp.hpp:49-58 | with the max set, the result is `<= max`; with the min set and no max or `min <= max`, it is `>= min`; a value inside the active bounds is unchanged; the result is the value or an active bound |
| RangeClamps.UnboundedIsIdentity | Pool/RangeClamp.hpp:33-58 | with no bound set the clamp changes nothing |
| RangeClamps.ClampIdempotent | Pool/RangeClamp.hpp:49-58 | clamping twice equals clamping once |
| RangeClamps.InvertedBoundsGiveMax | Pool/RangeClamp.hpp:51-57 | with `min > max` every value ends at `max` |
| RangeClamps.ClampMonotonic | Pool/RangeClamp.hpp:49-58 | the clamp never reorders two values |
| RangeClamps.RangeClamp.constructor | Pool/RangeClamp.hpp:33-38 | the default clamp has neither bound set |
| RangeClamps.RangeClamp.WithRange | Pool/RangeClamp.hpp:41-46 | the two-argument clamp has both bounds set to the given values |
| RangeClamps.RangeClamp.Clamp | Pool/RangeClamp.hpp:49-58 | the two in-place steps compute `Clamped` |
| RangeClamps.RangeClamp.SetMin | Pool/RangeClamp.hpp:61-65 | records the minimum and enables it; the maximum is untouched |
| RangeClamps.RangeClamp.SetMax | Pool/RangeClamp.hpp:68-72 | records the maximum and enables it; the minimum is untouched |
| RangeClamps.RangeClamp.UnsetMin | Pool/RangeClamp.hpp:75-78 | disables only the minimum |
| RangeClamps.RangeClamp.UnsetMax | Pool/RangeClamp.hpp:81-84 | disables only the maximum |
| KeyTables.HeldIn | Pool/KeyStates.cpp:6-13 | a key with no entry is not held; otherwise its entry says whether it is held |
| KeyTables.UnseenKeyNotHeld | Pool/KeyStates.cpp:6-9 | a key with no entry is not held |
| KeyTables.WriteAffectsOnlyThatKey | Pool/KeyStates.cpp:15-21 | writing one key's flag makes it report that flag and leaves every other key's report unchanged |
| KeyTables.KeyStates.constructor | Pool/KeyStates.cpp:3-4 | a new table is empty and reports no key held |
| KeyTables.KeyStates.IsKeyHeldDown | Pool/KeyStates.cpp:6-13 | `isKeyHeldDown` reads the table without inserting and reports `HeldIn` |
| KeyTables.KeyStates.SetKeyPressed | Pool/KeyStates.cpp:15-17 | the key is then held; every other key reports as before |
| KeyTables.KeyStates.SetKeyReleased | Pool/KeyStates.cpp:19-21 | the key is then not held; every other key reports as before |
| MouseInput.CursorSet | Pool/MouseStates.cpp:24-29 | locked: the cache is unchanged; unlocked: both positions are stored; the lock flag is kept |
| MouseInput.CursorSetIdempotent | Pool/MouseStates.cpp:24-29 | storing the same positions twice equals storing them once |
| MouseInput.LockedIgnoresAll | Pool/MouseStates.cpp:24-29 | while locked, any sequence of position updates leaves the cache as it was |
| MouseInput.UnlockedKeepsLast | Pool/MouseStates.cpp:24-29 | while unlocked, a sequence of position updates leaves the last one cached |
| MouseInput.MouseStates.constructor | Pool/MouseStates.cpp:8-11 | a new mouse state is unlocked with an empty key table |
| MouseInput.MouseStates.GetCursorPos | Pool/MouseStates.cpp:14-16 | `getCursorPos` reads the cached position without changing any field |
| MouseInput.MouseStates.GetNormalizedCursorPos | Pool/MouseStates.cpp:19-21 | `getNormalizedCursorPos` reads the cached normalized position without changing any field |
| MouseInput.MouseStates.IsCursorLocked | Pool/MouseStates.cpp:42-44 | `isCursorLocked` reads the lock flag without changing any field |
| MouseInput.MouseStates.GetCursorMode | Pool/MouseStates.cpp:47-49 | `getCursorMode` reads the stored mode without changing any field |
| MouseInput.MouseStates.SetCursorPos | Pool/MouseStates.cpp:24-29 | the cursor cache becomes `CursorSet` of the old one; mode and keys are untouched |
| MouseInput.MouseStates.LockCursor | Pool/MouseStates.cpp:37-39 | the cursor is then locked; positions, mode and keys are untouched |
| MouseInput.MouseStates.UnlockCursor | Pool/MouseStates.cpp:32-34 | the cursor is then unlocked; positions, mode and keys are untouched |
| MouseInput.MouseStates.SetCursorMode | Pool/MouseStates.cpp:52-54 | `getCursorMode` then returns the mode set; cursor cache and keys are untouched |
| BmpHeaders.LeU32 | Pool/TextureLoader.cpp:111-114 | a field read is an unsigned 32-bit value |
| BmpHeaders.DecodeEncodeU32 | Pool/TextureLoader.cpp:111-114 | the little-endian read inverts the little-endian write |
| BmpHeaders.LeU32Local | Pool/TextureLoader.cpp:111-114 | a field read depends only on its own four bytes |
| BmpHeaders.DecodeBmp | Pool/TextureLoader.cpp:89-134 | `loadBMP_custom` on a file's bytes: no bitmap when it cannot be opened, is shorter than 54 bytes or lacks "BM"; otherwise the header fields with the size and offset defaults, and the pixel bytes after the header (`DecodeFailsIff`, `DecodedFields`, `PixelsFollowHeader`) |
| BmpHeaders.DecodeFailsIff | Pool/TextureLoader.cpp:97-108 | loading fails exactly when the file cannot be opened, is shorter than 54 bytes, or lacks the "BM" signature |
| BmpHeaders.DecodedFields | Pool/TextureLoader.cpp:111-118 | width and height come from offsets 0x12 and 0x16; size and data offset come from 0x22 and 0x0A, with 0 replaced by `width*height*3 mod 2^32` and by 54 |
| BmpHeaders.PixelsFollowHeader | Pool/TextureLoader.cpp:121-124 | the pixels are the bytes right after the 54-byte header: at most `imageSize` of them, and all of them when the file is long enough |
| BmpHeaders.DataPosDoesNotSeek | Pool/TextureLoader.cpp:111-124 | the data-offset field never affects the pixels read |
| BmpHeaders.HeaderRoundTrip | Pool/TextureLoader.cpp:97-124 | an encoded header with non-zero size and offset, followed by its pixels, decodes to exactly those fields and pixels |

## Left out

- Rendering, shaders, GL buffers, ImGui, GLFW event handling, the camera, time keeping and `main`: these are foreign calls and trigonometric float code, not simulation logic. The camera is not part of this model; `strikeCue` takes its ray as a parameter.
- `quadraticRoots` is not part of this model. `hits(Ray)` takes the root finder as a parameter and is proved for whatever roots it reports.
- `normalize` and `length`: `normalize` is a parameter of `springForward`, and lengths are compared squared. Float rounding is left out; all arithmetic is on reals.
- The render matrix `trans` is modelled by its accumulated translation only. The program only ever translates it.
- PoolPhysics.SwapNormal: the source normalises the center difference, which gives NaN for coincident centers. With distance 0 the model leaves both velocities unchanged. They agree whenever the source's value is defined (`SwapMatchesSource`).
- PoolPhysics.Reflect: `ggReflection` normalises both vectors, which gives NaN for a zero velocity or a zero normal. With a zero normal the model returns the velocity unchanged. They agree whenever the source's value is defined (`ReflectionMatchesSource`).
- The contact point that `hits(Entity)` computes for a ball-ball hit (`normalize(other - this) + this`) is left out, because its only caller discards it. The box contact point is modelled.
- Scene nodes are given with their world-space center and extents. The matrix products that compute them from the node's transforms are not modelled, and neither is the Lua scene import.
- Boxes.DefaultBox: `Box()` leaves `m_center` and `m_extents` to glm's default constructor. The model takes them as zero vectors, which is what a zero-initialising glm build gives. The same holds for the Pool's initial `m_poolSurface` (`PoolGame.Pool.constructor`) and for `glm::vec3 deltaVelocity;` in `applyPhysics`. A glm build that leaves vectors uninitialised would give an indeterminate default box and an indeterminate velocity for a nearly still ball.
- PoolGame.Pool.constructor: the source also sets the cursor mode and initialises GL handles, render flags and gravity. The model keeps only the simulation fields.
- RangeClamps.RangeClamp.constructor: the source leaves the bound values uninitialised. The model sets them to 0 and promises nothing about them.
- MouseInput.MouseStates.constructor: the source leaves the positions and the cursor mode uninitialised. The model sets them to zero and promises only that the cursor is unlocked and the key table is empty. MouseStates derives from KeyStates in the source; here it holds a KeyStates component.
- BmpHeaders.DecodeBmp: a file shorter than `54 + imageSize` leaves the rest of the pixel buffer uninitialised in the source. The model returns only the bytes actually read. The file handle, `new[]`, `fclose` and `glGenTextures` are left out.
- Pool.initEntities: an `std::out_of_range` from `substr` is modelled as stopping the load and returning `false`. The nodes added before the throw are kept. In the source nothing catches the exception: `init()` calls `initEntities()` without a handler (Pool/Pool.cpp:115), so it propagates out of `init()` and the following `resetAll()` does not run. The model does not capture that propagation.
- The commented-out spin, sliding, rolling and surface-collision code, the DDS loader, and the unused gravity member are dead code and are not modelled.
