# Collision engine of the Swing collision simulator

A Dafny model of the collision engine of the collision simulator (RaynerGWH/CollisionSimulator).
The engine keeps a list of bodies, each a circle or an axis-aligned rectangle. While it runs,
every timer tick does three things in order:

1. each body moves by its velocity times the elapsed time, scaled by the speed multiplier;
2. every pair i < j of the list is checked, and the lower-indexed body of an overlapping pair
   handles the collision;
3. every body is corrected against the four walls of the 600 × 400 area.

The model has two layers.

- **Value layer.** It is made of functions on `BodyState` values (position, velocity, mass,
  kind). Each response of the source becomes one function:
  - `ResolveCircles` for circle/circle;
  - `ResolveCircleRect` for circle/rectangle, built from `ContactOf` and `Respond`;
  - `ResolveRects` for rectangle/rectangle;
  - `WallCorrected` for the walls.

  The detector's scan becomes `Detect`, and the tick becomes `Tick`. What the source promises
  is proved about these functions:
  - momentum is conserved, and the collisions are perfectly elastic (kinetic energy is kept and
    the normal speed is reversed);
  - the push-apart keeps the centre of mass and leaves the bodies just touching;
  - the separating-velocity guards, the snap-to-face fallback with its tie order, and the
    one-axis rule for rectangles;
  - wall containment and kept speed;
  - every pair is visited once, in lexicographic order.
- **Object layer.** The bodies are a class `Shapes.Body`, whose `x, y, vx, vy` are updated in
  place. The detector runs over a `seq<Body>` with nested loops, and `Engine.GameEngine` holds
  the list, the running flag, the clock and the speed multiplier. Each method is proved to
  leave the objects in the state the matching value function computes from the state before
  the call.

Java `double` is modelled as `real`. `Math.sqrt` is a parameter `sqrt: real -> real`.
- Facts that need the real root take `IsSqrt(sqrt)`: on a non-negative argument the result is
  non-negative and squares back to it.
- Momentum and centre-of-mass facts hold for any function in its place.

The clock is replaced by a parameter `now` (milliseconds) on the calls that read it.

Four behaviours of the code are kept as written.
- `GameRectangle.handleCollision` has no separating-velocity guard: a pair of rectangles is
  resolved whenever it is called. `RectCollisions.RectsTurnSeparatingPairRound` shows an
  overlapping pair that is already moving apart being turned back towards each other.
- `update` accepts any elapsed time, a negative one included.
- The constructors of `Circle` and `GameRectangle` do not check mass or size. The model requires
  positive ones, as explained under "Left out".
- The collision routine is chosen by the receiver: a rectangle hands a circle to
  `Circle.handleCollision`, with itself as the argument.

## Model

| member | source | states |
|---|---|---|
| Bodies.Moved | src/shapes/Circle.java:26-29 | an Euler step changes the position by velocity × dt and keeps velocity, mass and size |
| Bodies.MovedZero | src/shapes/GameRectangle.java:28-31 | a step of length zero changes nothing |
| Geometry.RectsOverlap | src/shapes/GameRectangle.java:50-55 | the rectangle/rectangle test: true unless one box ends strictly before the other starts on some axis; its meaning is proved in `RectsOverlapIffCommonPoint` |
| Geometry.RectsOverlapSymmetric | src/shapes/GameRectangle.java:52-55 | the rectangle/rectangle test gives the same answer for both argument orders |
| Geometry.RectsOverlapIffCommonPoint | src/shapes/GameRectangle.java:52-55 | the test holds exactly when the closed rectangles share a point, so touching edges count as overlap |
| Geometry.ClosestPointNearest | src/shapes/GameRectangle.java:59-60 | the clamped point lies in the rectangle, no point of the rectangle is nearer the centre, and a centre inside is its own closest point |
| Geometry.RectCircleOverlap | src/shapes/GameRectangle.java:56-69 | the rectangle/circle test: squared distance from the centre to the clamped point below radius²; its meaning is proved in `RectCircleOverlapIffShared` |
| Geometry.RectCircleOverlapIffShared | src/shapes/GameRectangle.java:59-68 | the rectangle/circle test (squared distance to the clamped point below radius²) holds exactly when some point of the rectangle lies strictly inside the circle |
| Geometry.CirclesOverlap | src/shapes/Circle.java:47-52 | the circle/circle test: root of the squared centre distance below r1 + r2; proved equal to the squared test in `CirclesOverlapSquared` |
| Geometry.CirclesOverlapSymmetric | src/shapes/Circle.java:47-52 | the circle/circle test is symmetric |
| Geometry.CirclesOverlapSquared | src/shapes/Circle.java:49-52 | with the real root, distance < r1 + r2 is the same as squared distance < (r1 + r2)² |
| Geometry.Collided | src/shapes/Circle.java:46-58 | `collidedWith` for every pair of kinds, a circle handing a rectangle to the rectangle's test; proved symmetric in `CollidedSymmetric` |
| Geometry.CollidedSymmetric | src/shapes/Circle.java:53-55 | `collidedWith` gives the same answer for both argument orders, because a circle hands a rectangle to the rectangle's test |
| Impulses.ExchangeConservesMomentum | src/shapes/Circle.java:92-95 | adding j·m2·n to one velocity and subtracting j·m1·n from the other keeps the total momentum, for any impulse and normal |
| Impulses.ExchangeKeepsEnergy | src/shapes/Circle.java:89-95 | with a unit normal and the elastic impulse (twice the normal speed over the total mass), the exchange keeps the kinetic energy |
| Impulses.ExchangeReversesSpeed | src/shapes/Circle.java:89-95 | the same exchange reverses the relative speed along the normal |
| Impulses.ExchangeLikeConservesMomentum | src/shapes/Circle.java:92-95 | any pair with the velocities and masses of an exchange has the momentum of the pair before it |
| Impulses.ExchangeLikeKeepsEnergy | src/shapes/Circle.java:89-95 | any pair with the velocities and masses of an elastic exchange along a unit normal has the energy of the pair before it |
| Impulses.ExchangeLikeReversesSpeed | src/shapes/Circle.java:89-95 | any such pair has the reversed relative normal speed |
| CircleCollisions.PushedApart | src/shapes/Circle.java:98-108 | the push-apart changes only positions |
| CircleCollisions.ResolveCircles | src/shapes/Circle.java:62-108 | the circle/circle response keeps masses and radii |
| CircleCollisions.CirclesSkipUnlessApproaching | src/shapes/Circle.java:70-72 | when the centres coincide, or the normal speed dvn is positive, both circles are left exactly as they were |
| CircleCollisions.CirclesChangeWhenClosing | src/shapes/Circle.java:85-95 | with the real root, circles that are closing (dvn < 0) always get a new velocity for the first circle |
| CircleCollisions.CirclesConserveMomentum | src/shapes/Circle.java:62-108 | the circle/circle response keeps the total momentum on both axes, in every branch and for any square root |
| CircleCollisions.CirclesKeepEnergy | src/shapes/Circle.java:62-108 | with the real root, the response keeps the total kinetic energy: the collision is perfectly elastic |
| CircleCollisions.CirclesReverseNormalSpeed | src/shapes/Circle.java:78-95 | with the real root, an approaching pair leaves with its relative normal speed reversed |
| CircleCollisions.PushedApartKeepsCentre | src/shapes/Circle.java:99-108 | moving the circles by the overlap in the ratio of the other's mass keeps the mass-weighted centre on both axes |
| CircleCollisions.PushedApartGap | src/shapes/Circle.java:99-108 | the push-apart moves the second centre away from the first by the overlap along the normal |
| CircleCollisions.CirclesKeepCentreOfMass | src/shapes/Circle.java:62-108 | the response never moves the mass-weighted centre of the pair |
| CircleCollisions.CirclesPushApart | src/shapes/Circle.java:98-108 | an approaching overlapping pair ends with the offset between the centres lengthened by the full overlap along the normal |
| CircleCollisions.UnitNormal | src/shapes/Circle.java:66-75 | with the real root, the normalised direction between distinct centres is a unit vector |
| CircleCollisions.CirclesEndTouching | src/shapes/Circle.java:98-108 | with the real root, an approaching overlapping pair ends exactly touching: the centres are r1 + r2 apart |
| CircleCollisions.HeadOnExample | src/shapes/Circle.java:62-108 | equal circles meeting head on swap velocities and end touching |
| CircleRectCollisions.NearestFace | src/shapes/Circle.java:129-156 | the chosen side has the least penetration distance, and ties go to left, then right, then top, then bottom |
| CircleRectCollisions.Snapped | src/shapes/Circle.java:136-156 | the snap keeps mass and radius |
| CircleRectCollisions.SnappedOutward | src/shapes/Circle.java:136-156 | the snap puts the centre one radius outside the chosen side, turns the velocity component across that side outwards with its size kept, leaves the other coordinate and component alone, and so keeps the kinetic energy |
| CircleRectCollisions.SnappedClear | src/shapes/Circle.java:136-156 | a circle snapped to any side of a rectangle no longer overlaps it |
| CircleRectCollisions.ContactOf | src/shapes/Circle.java:126-161 | forming the contact keeps mass and radius |
| CircleRectCollisions.ContactKeepsEnergy | src/shapes/Circle.java:126-161 | forming the contact never changes the circle's kinetic energy |
| CircleRectCollisions.ContactKeepsUnsnapped | src/shapes/Circle.java:157-161 | a centre at least EPSILON from the rectangle is not moved by the contact step |
| CircleRectCollisions.ContactNormalUnit | src/shapes/Circle.java:126-161 | with the real root, the contact normal (a side's outward normal, or the normalised offset from the closest point) is a unit vector |
| CircleRectCollisions.PushedOut | src/shapes/Circle.java:185-192 | the push-out changes only the position |
| CircleRectCollisions.Respond | src/shapes/Circle.java:164-192 | the response keeps masses and sizes and never moves the rectangle |
| CircleRectCollisions.ResolveCircleRect | src/shapes/Circle.java:109-193 | the circle/rectangle response keeps masses and sizes, and the rectangle's position never changes |
| CircleRectCollisions.RespondSeparating | src/shapes/Circle.java:171-172 | a circle moving away from the rectangle keeps only the snap, and the rectangle is untouched |
| CircleRectCollisions.RespondKeepsSnappedPlace | src/shapes/Circle.java:185 | the circle is never pushed out unless its distance exceeded EPSILON |
| CircleRectCollisions.RespondConservesMomentum | src/shapes/Circle.java:164-192 | the response keeps the momentum of the contact circle and the rectangle |
| CircleRectCollisions.RespondKeepsEnergy | src/shapes/Circle.java:164-192 | along a unit normal, the response keeps their kinetic energy |
| CircleRectCollisions.RespondReversesSpeed | src/shapes/Circle.java:164-182 | along a unit normal, an approaching circle leaves with its normal speed relative to the rectangle reversed |
| CircleRectCollisions.CircleRectActsOnlyOnOverlap | src/shapes/Circle.java:119-124 | with the real root, distance < radius is the overlap test, and a pair the test reports apart is returned unchanged |
| CircleRectCollisions.CircleRectConserveMomentum | src/shapes/Circle.java:109-193 | an overlapping pair keeps the momentum of the circle as the contact step left it, plus that of the rectangle |
| CircleRectCollisions.CircleRectKeepsEnergy | src/shapes/Circle.java:109-193 | with the real root, an overlapping pair keeps the kinetic energy of the original circle plus that of the rectangle, snap included |
| CircleRectCollisions.CircleRectEndTouching | src/shapes/Circle.java:157-192 | with the real root, that circle ends exactly touching the rectangle: its distance to the closest point is its radius |
| CircleRectCollisions.CircleRectSnapClears | src/shapes/Circle.java:127-192 | a circle whose centre was snapped out ends clear of the rectangle, whatever the impulse did |
| RectCollisions.ResolveRects | src/shapes/GameRectangle.java:75-125 | the rectangle/rectangle response keeps masses and sizes |
| RectCollisions.ElasticVelocities | src/shapes/GameRectangle.java:96-97 | the 1-D elastic formulas; proved to be the elastic impulse exchange in `ElasticVelocitiesImpulse` and to swap equal masses in `ElasticEqualMassesSwap` |
| RectCollisions.Separated | src/shapes/GameRectangle.java:100-106 | the mass-ratio separation, its direction set by the order of the centres; its gap and kept centre of mass are proved in `SeparatedGap` |
| RectCollisions.ElasticVelocitiesImpulse | src/shapes/GameRectangle.java:96-97 | the 1-D elastic formulas are the elastic impulse exchange with a unit normal |
| RectCollisions.ElasticEqualMassesSwap | src/shapes/GameRectangle.java:96-97 | with equal masses the 1-D formulas swap the two velocities |
| RectCollisions.SeparatedGap | src/shapes/GameRectangle.java:100-106 | the separation widens the gap by the overlap in the direction of the centres' order and keeps the mass-weighted position |
| RectCollisions.RectsOneAxis | src/shapes/GameRectangle.java:89-125 | only one axis is resolved: X when overlapX < overlapY, otherwise Y (ties go to Y); the other axis's positions and velocities are untouched |
| RectCollisions.AxisUnit | src/shapes/GameRectangle.java:89 | the chosen axis is a unit vector |
| RectCollisions.RectsAsExchangeX | src/shapes/GameRectangle.java:89-97 | on the X axis the new velocities are the elastic exchange along (1, 0) |
| RectCollisions.RectsAsExchangeY | src/shapes/GameRectangle.java:107-115 | on the Y axis the new velocities are the elastic exchange along (0, 1) |
| RectCollisions.RectsAsExchange | src/shapes/GameRectangle.java:89-125 | the new velocities are the elastic exchange along the chosen axis |
| RectCollisions.RectsConserveMomentum | src/shapes/GameRectangle.java:91-97 | the response keeps the total momentum on both axes |
| RectCollisions.RectsKeepEnergy | src/shapes/GameRectangle.java:89-125 | the response keeps the total kinetic energy |
| RectCollisions.RectsReverseSpeed | src/shapes/GameRectangle.java:89-125 | the relative speed along the chosen axis is reversed |
| RectCollisions.RectsEqualMassesSwap | src/shapes/GameRectangle.java:96-97 | equal masses swap their velocities on the chosen axis |
| RectCollisions.RectsKeepCentreOfMass | src/shapes/GameRectangle.java:99-124 | the mass-weighted position is kept on both axes |
| RectCollisions.RectsEndTouching | src/shapes/GameRectangle.java:99-124 | afterwards the overlap on the resolved axis is zero: the centres are exactly half the summed widths (or heights) apart |
| RectCollisions.RectsTurnSeparatingPairRound | src/shapes/GameRectangle.java:74-125 | with no separating-velocity guard, an overlapping pair that is already moving apart gets its velocities swapped back towards each other |
| Responses.Resolve | src/shapes/GameRectangle.java:74-130 | `handleCollision` for every pair of kinds keeps masses and sizes |
| Responses.MixedPairDelegates | src/shapes/GameRectangle.java:126-129 | a rectangle given a circle gives the outcome of the circle given the rectangle, and the rectangle does not move |
| Responses.MixedPairIgnoredWhenApart | src/shapes/Circle.java:121-124 | with the real root, a circle and a rectangle that the test reports apart are unchanged, in either order |
| Responses.ResolveConservesMomentum | src/shapes/Circle.java:61-194 | without a snap, every response keeps the pair's momentum |
| Walls.WallCorrected | src/shapes/Circle.java:197-218 | the wall check keeps mass and size |
| Walls.WallAxis | src/shapes/Circle.java:199-207 | the low-wall then high-wall check on one axis; its properties are proved in `WallAxisProperties` |
| Walls.WallAxisProperties | src/shapes/GameRectangle.java:133-143 | on one axis: the speed is kept, a body that fits ends between the walls, one already between them is untouched, and a body that poked out is sent back in |
| Walls.WallsContain | src/shapes/GameRectangle.java:133-154 | a body no larger than the area ends inside it (a circle's centre in [r, W − r] × [r, H − r], a rectangle in [0, W − w] × [0, H − h]) |
| Walls.WallsKeepSpeed | src/shapes/Circle.java:197-218 | the wall check keeps \|vx\| and \|vy\| |
| Walls.WallsIdleInside | src/shapes/Circle.java:197-218 | a body inside the area is left as it is |
| Walls.WallsIdempotent | src/shapes/Circle.java:197-218 | a second wall check changes nothing |
| Walls.WallsTurnInwards | src/shapes/GameRectangle.java:133-154 | a body beyond the low wall leaves moving inwards, and so does one beyond only the high wall |
| Shapes.Body.Circle | src/shapes/Circle.java:16-24 | a new circle is at rest at the given centre |
| Shapes.Body.Rect | src/shapes/GameRectangle.java:16-25 | a new rectangle is at rest at the given corner |
| Shapes.Body.SetVelocity | src/shapes/Circle.java:252-255 | only the velocity is replaced |
| Shapes.Body.Move | src/shapes/GameRectangle.java:28-31 | the body takes the Euler step `Moved` in place |
| Shapes.Body.HandleWallCollision | src/shapes/Circle.java:197-218 | the body is left in the state `WallCorrected` computes from the old state |
| Shapes.Body.HandleCollision | src/shapes/GameRectangle.java:74-130 | the receiver and the argument are left in the states `Resolve` computes, including the delegation of a rectangle to a circle |
| Shapes.Body.CollideCircles | src/shapes/Circle.java:62-108 | both circles are left in the states `ResolveCircles` computes |
| Shapes.Body.CollideCircleRect | src/shapes/Circle.java:109-193 | circle and rectangle are left in the states `ResolveCircleRect` computes, including a snap that a separating circle keeps |
| Shapes.Body.CollideRects | src/shapes/GameRectangle.java:75-125 | both rectangles are left in the states `ResolveRects` computes |
| Detector.ShapesModelled | src/app/CollisionDetector.java:22-23 | the test and response given to the scan are the shapes' own, and the response keeps masses and sizes |
| Detector.PairsFromMembers | src/app/CollisionDetector.java:17-18 | the pairs still to come are the rest of the current row and every pair of the later rows |
| Detector.PairsFromSorted | src/app/CollisionDetector.java:17-18 | those pairs come in strictly increasing lexicographic order |
| Detector.PairOrderExactlyOnce | src/app/CollisionDetector.java:17-18 | the scan visits exactly the pairs i < j < n, each once, in lexicographic order |
| Detector.StepPair | src/app/CollisionDetector.java:19-24 | a visit keeps the length of the list |
| Detector.StepPairEffect | src/app/CollisionDetector.java:19-24 | a visit changes only its two bodies, and only when the lower-indexed one reports an overlap on the current states, in which case they get the response |
| Detector.ScanRow | src/app/CollisionDetector.java:18-25 | the inner loop of row i as a recursion over j; keeps the length of the list, and is the row's pairs applied in order by `ScanRowVisits` |
| Detector.ScanFrom | src/app/CollisionDetector.java:17-26 | the outer loop as a recursion over i; keeps the length of the list, and is every remaining pair applied in order by `ScanFromVisits` |
| Detector.Detect | src/app/CollisionDetector.java:16-27 | `detectAndResolveCollisions` on a list of states; keeps the length of the list, and visits `PairOrder` by `DetectVisitsPairOrder` |
| Detector.ScanRowVisits | src/app/CollisionDetector.java:18-25 | the inner loop applies the pairs of its row in order |
| Detector.ScanFromVisits | src/app/CollisionDetector.java:17-26 | the outer loop from row i applies every remaining pair in order |
| Detector.DetectVisitsPairOrder | src/app/CollisionDetector.java:16-27 | the detector is the pairs of `PairOrder` applied one after the other, each on the states the earlier visits left |
| Detector.ApplyPairsIdle | src/app/CollisionDetector.java:22 | pairs none of which overlaps change nothing |
| Detector.DetectKeepsShapes | src/app/CollisionDetector.java:16-27 | the detector keeps the length of the list and every mass and size |
| Detector.DetectIdleWhenApart | src/app/CollisionDetector.java:22 | when no two bodies overlap, the detector changes nothing |
| Detector.WallAll | src/app/CollisionDetector.java:35-39 | the wall pass gives each body its own wall check and nothing else |
| Detector.WallAllContains | src/app/CollisionDetector.java:35-39 | after the wall pass every body that fits is inside the area, and a second pass changes nothing |
| Detector.DetectAndResolveCollisions | src/app/CollisionDetector.java:16-27 | the nested loops over the bodies leave them in the states `Detect` computes from the states before |
| Detector.ResolveRow | src/app/CollisionDetector.java:18-25 | the inner loop leaves the bodies in the states `ScanRow` computes |
| Detector.VisitPair | src/app/CollisionDetector.java:19-24 | `shapes[i]` handles the collision with `shapes[j]` exactly when it reports an overlap on the current states |
| Detector.CheckWallCollisions | src/app/CollisionDetector.java:35-39 | every body gets its wall check once, in list order, and nothing else changes |
| Engine.DeltaTime | src/control/GameEngine.java:102-104 | the step length: elapsed milliseconds over 1000 times the multiplier; zero when the multiplier is zero or no time has passed, and not negative for a non-negative multiplier and a clock that did not go back |
| Engine.Tick | src/control/GameEngine.java:106-115 | one update of the shape list: move, then the pair scan, then the walls; keeps the number of shapes |
| Engine.MoveAll | src/control/GameEngine.java:108-110 | every body takes one step of the same length |
| Engine.TickKeepsShapes | src/control/GameEngine.java:101-121 | an update keeps the number of shapes and every mass and size |
| Engine.TickAtZeroMultiplier | src/control/GameEngine.java:104 | with multiplier 0 (its initial value) the step length is zero and no body moves before the collisions |
| Engine.TickIdleAtRest | src/control/GameEngine.java:101-121 | a scene with no overlaps and every body inside the area is unchanged by an update of step length zero |
| Engine.TickContains | src/control/GameEngine.java:101-121 | after an update every body that fits is inside the area, whatever the step length and the collisions did |
| Engine.GameEngine.constructor | src/control/GameEngine.java:22-37 | a new engine is stopped, has no shapes and has speed multiplier 0 |
| Engine.GameEngine.SetSpeedMultiplier | src/control/GameEngine.java:39-41 | only the multiplier changes |
| Engine.GameEngine.GetSpeedMultiplier | src/control/GameEngine.java:43-45 | returns the last value set |
| Engine.GameEngine.IsRunning | src/control/GameEngine.java:96-98 | returns the running flag |
| Engine.GameEngine.GetShapes | src/control/GameEngine.java:91-93 | returns the list of shapes |
| Engine.GameEngine.Start | src/control/GameEngine.java:52-58 | the engine runs afterwards; a running engine is left exactly as it was; a stopped one restarts its clock |
| Engine.GameEngine.Stop | src/control/GameEngine.java:60-63 | the engine is stopped and nothing else changes |
| Engine.GameEngine.Reset | src/control/GameEngine.java:67-73 | the engine is stopped and has no shapes |
| Engine.GameEngine.AddShape | src/control/GameEngine.java:76-81 | the shape is appended at the end and the earlier entries stay |
| Engine.GameEngine.ClearShapes | src/control/GameEngine.java:84-89 | the list is empty afterwards, whatever it held, so clearing twice is clearing once |
| Engine.GameEngine.Update | src/control/GameEngine.java:101-121 | the shapes end in the states `Tick` computes: move by the elapsed seconds × multiplier, then the pair scan, then the walls; the clock is set to now |
| Engine.GameEngine.TimerTick | src/control/GameEngine.java:29-36 | an update happens only while the engine runs; otherwise nothing changes; the multiplier is never changed |
| Engine.UpdateShapes | src/control/GameEngine.java:107-115 | the three passes over the shapes compose to `Tick` |
| Engine.MoveShapes | src/control/GameEngine.java:107-110 | the move loop gives every shape its Euler step |

## Left out

- Drawing, bounds, the Swing timer, the repaint callback and the control panel are not part
  of this model. The timer callback is `TimerTick`, and the current time is a parameter.
- IEEE-754 doubles: rounding, NaN and infinities are not modelled; arithmetic is exact on `real`.
- Java `long` overflow of the clock difference is not modelled (`int` is unbounded).
- `Math.sqrt` is a parameter. Properties that depend on the root, such as end distances, unit
  normals and energy, require `IsSqrt(sqrt)`.
- Masses and sizes are required to be positive (`Valid`). The source does not check them, but
  the control panel only offers masses from 0.1 and sizes from 10. With a zero total mass the
  source would divide by zero.
- Engine.GameEngine.AddShape: requires the shape not to be in the list already. The control
  panel always adds a freshly built shape. A repeated object would make the pair scan hand a
  body to itself, and the model keeps the shapes distinct.
- A negative elapsed time is not rejected, as in the source.
- CircleRectCollisions.CircleRectConserveMomentum: states momentum relative to the circle as
  the contact step left it. The snap reflects one velocity component of a circle whose centre
  was inside the rectangle, and that reflection does not keep momentum.
- Responses.ResolveConservesMomentum: requires that no snap happens, for the same reason.
- RESTITUTION is the constant 1.0, as in the source. Energy and reverse-speed facts hold for
  that value only.
- The `Shape` interface is represented by the single class `Shapes.Body` with a `Kind` field.
  The getters are field reads.
