/** The game engine (`GameEngine`): the list of shapes, the running flag, the time of the
    last update and the speed multiplier. While it runs, every timer tick moves all shapes
    by the elapsed time scaled by the multiplier, resolves the collisions between them and
    then applies the walls of the simulation area. The clock is a parameter: each call that
    reads it in the source takes the current time in milliseconds instead. */
module Engine {
  import opened Numerics
  import opened Bodies
  import opened Geometry
  import opened Walls
  import opened Detector
  import opened Shapes

  /** The step length of an update: the milliseconds since the last update, in seconds,
      times the speed multiplier. */
  function DeltaTime(lastUpdateTime: int, now: int, multiplier: real): (dt: real)
    ensures multiplier == 0.0 || now == lastUpdateTime ==> dt == 0.0
    ensures 0.0 <= multiplier && lastUpdateTime <= now ==> 0.0 <= dt
  {
    (now - lastUpdateTime) as real / 1000.0 * multiplier
  }

  /** Every body takes one step of length dt. */
  function MoveAll(s: seq<BodyState>, dt: real): (r: seq<BodyState>)
    ensures |r| == |s| && forall k :: 0 <= k < |s| ==> r[k] == Moved(s[k], dt)
  {
    if s == [] then [] else [Moved(s[0], dt)] + MoveAll(s[1..], dt)
  }

  /** One update of the shape list with step length dt: move, collide, walls. */
  function Tick(s: seq<BodyState>, dt: real, sqrt: real -> real): (r: seq<BodyState>)
    ensures |r| == |s|
  {
    WallAll(Detect(MoveAll(s, dt), ShapesTest(sqrt), ShapesResponse(sqrt)), SIMULATION_WIDTH, SIMULATION_HEIGHT)
  }

  /** An update keeps the number of shapes and every mass and shape. */
  lemma TickKeepsShapes(s: seq<BodyState>, dt: real, sqrt: real -> real)
    ensures SameShapes(Tick(s, dt, sqrt), s)
  {
    var moved := MoveAll(s, dt);
    ShapesModelled(sqrt);
    DetectKeepsShapes(moved, ShapesTest(sqrt), ShapesResponse(sqrt));
  }

  /** With multiplier zero (the initial value) an update takes a step of length zero, so
      nothing moves: the update only resolves the current overlaps and applies the walls. */
  lemma TickAtZeroMultiplier(s: seq<BodyState>, lastUpdateTime: int, now: int, sqrt: real -> real)
    ensures DeltaTime(lastUpdateTime, now, 0.0) == 0.0
    ensures Tick(s, DeltaTime(lastUpdateTime, now, 0.0), sqrt) ==
            WallAll(Detect(s, ShapesTest(sqrt), ShapesResponse(sqrt)), SIMULATION_WIDTH, SIMULATION_HEIGHT)
  {
    var moved := MoveAll(s, 0.0);
    forall k | 0 <= k < |s|
      ensures moved[k] == s[k]
    {
      MovedZero(s[k]);
    }
    assert moved == s;
  }

  /** A scene at rest inside the area without overlaps stays as it is under updates with
      multiplier zero. */
  lemma TickIdleAtRest(s: seq<BodyState>, sqrt: real -> real)
    requires forall a, b :: 0 <= a < b < |s| ==> !Collided(s[a], s[b], sqrt)
    requires forall k :: 0 <= k < |s| ==> Inside(s[k], SIMULATION_WIDTH, SIMULATION_HEIGHT)
    ensures Tick(s, 0.0, sqrt) == s
  {
    TickAtZeroMultiplier(s, 0, 0, sqrt);
    DetectIdleWhenApart(s, ShapesTest(sqrt), ShapesResponse(sqrt));
    forall k | 0 <= k < |s|
      ensures WallAll(s, SIMULATION_WIDTH, SIMULATION_HEIGHT)[k] == s[k]
    {
      WallsIdleInside(s[k], SIMULATION_WIDTH, SIMULATION_HEIGHT);
    }
  }

  /** After an update every shape that fits in the simulation area lies inside it,
      whatever the step length and the collisions did. */
  lemma TickContains(s: seq<BodyState>, dt: real, sqrt: real -> real)
    requires forall k :: 0 <= k < |s| ==> s[k].Valid() && Fits(s[k].kind, SIMULATION_WIDTH, SIMULATION_HEIGHT)
    ensures |Tick(s, dt, sqrt)| == |s|
    ensures forall k :: 0 <= k < |s| ==> Inside(Tick(s, dt, sqrt)[k], SIMULATION_WIDTH, SIMULATION_HEIGHT)
  {
    var moved := MoveAll(s, dt);
    ShapesModelled(sqrt);
    DetectKeepsShapes(moved, ShapesTest(sqrt), ShapesResponse(sqrt));
    var collided := Detect(moved, ShapesTest(sqrt), ShapesResponse(sqrt));
    assert forall k :: 0 <= k < |s| ==> collided[k].SameShape(s[k]);
    WallAllContains(collided, SIMULATION_WIDTH, SIMULATION_HEIGHT);
  }

  class GameEngine {
    var shapes: seq<Body>
    var isRunning: bool
    var lastUpdateTime: int
    var speedMultiplier: real

    /** The shapes are distinct objects with positive mass and sizes. */
    ghost predicate Valid()
      reads this
    {
      Distinct(shapes) && BodiesValid(shapes)
    }

    /** A stopped engine with no shapes; the multiplier has Java's default value 0. */
    constructor(now: int)
      ensures Valid()
      ensures shapes == [] && !isRunning && lastUpdateTime == now && speedMultiplier == 0.0
    {
      shapes := [];
      isRunning := false;
      lastUpdateTime := now;
      speedMultiplier := 0.0;
    }

    method SetSpeedMultiplier(multiplier: real)
      modifies this
      ensures speedMultiplier == multiplier
      ensures shapes == old(shapes) && isRunning == old(isRunning) && lastUpdateTime == old(lastUpdateTime)
    {
      speedMultiplier := multiplier;
    }

    /** The value of the last `SetSpeedMultiplier`, or 0 before the first. */
    method GetSpeedMultiplier() returns (multiplier: real)
      ensures multiplier == speedMultiplier
    {
      multiplier := speedMultiplier;
    }

    method IsRunning() returns (running: bool)
      ensures running == isRunning
    {
      running := isRunning;
    }

    method GetShapes() returns (list: seq<Body>)
      ensures list == shapes
    {
      list := shapes;
    }

    /** Starts a stopped engine and restarts its clock; an engine already running is left
        exactly as it is. */
    method Start(now: int)
      modifies this
      ensures isRunning
      ensures old(isRunning) ==> lastUpdateTime == old(lastUpdateTime)
      ensures !old(isRunning) ==> lastUpdateTime == now
      ensures shapes == old(shapes) && speedMultiplier == old(speedMultiplier)
    {
      if !isRunning {
        isRunning := true;
        lastUpdateTime := now;
      }
    }

    method Stop()
      modifies this
      ensures !isRunning
      ensures shapes == old(shapes) && lastUpdateTime == old(lastUpdateTime) && speedMultiplier == old(speedMultiplier)
    {
      isRunning := false;
    }

    /** Stops the engine and removes every shape. */
    method Reset()
      modifies this
      ensures Valid() && !isRunning && shapes == []
      ensures lastUpdateTime == old(lastUpdateTime) && speedMultiplier == old(speedMultiplier)
    {
      Stop();
      shapes := [];
    }

    /** Appends a shape to the end of the list. */
    method AddShape(shape: Body)
      requires Valid() && shape !in shapes && shape.Valid()
      modifies this
      ensures Valid() && shapes == old(shapes) + [shape]
      ensures isRunning == old(isRunning) && lastUpdateTime == old(lastUpdateTime) && speedMultiplier == old(speedMultiplier)
    {
      shapes := shapes + [shape];
    }

    /** Removes every shape; clearing an empty list changes nothing. */
    method ClearShapes()
      modifies this
      ensures Valid() && shapes == []
      ensures isRunning == old(isRunning) && lastUpdateTime == old(lastUpdateTime) && speedMultiplier == old(speedMultiplier)
    {
      shapes := [];
    }

    /** One update at time `now`: every shape moves by the scaled elapsed time, then the
        collisions are resolved, then the walls are applied; the clock is set to `now`. */
    method Update(now: int, sqrt: real -> real)
      requires Valid()
      modifies this, shapes
      ensures Valid() && shapes == old(shapes) && lastUpdateTime == now
      ensures isRunning == old(isRunning) && speedMultiplier == old(speedMultiplier)
      ensures States(shapes) == Tick(old(States(shapes)), DeltaTime(old(lastUpdateTime), now, speedMultiplier), sqrt)
    {
      ghost var start := States(shapes);
      var deltaTime := (now - lastUpdateTime) as real / 1000.0;
      deltaTime := deltaTime * speedMultiplier;
      assert deltaTime == DeltaTime(lastUpdateTime, now, speedMultiplier);
      lastUpdateTime := now;
      assert States(shapes) == start;
      UpdateShapes(shapes, deltaTime, sqrt);
    }

    /** The timer callback: an update while the engine runs, nothing otherwise. */
    method TimerTick(now: int, sqrt: real -> real)
      requires Valid()
      modifies this, shapes
      ensures Valid() && shapes == old(shapes) && isRunning == old(isRunning)
      ensures speedMultiplier == old(speedMultiplier)
      ensures old(isRunning) ==> lastUpdateTime == now
      ensures old(isRunning) ==>
                States(shapes) == Tick(old(States(shapes)), DeltaTime(old(lastUpdateTime), now, speedMultiplier), sqrt)
      ensures !old(isRunning) ==> lastUpdateTime == old(lastUpdateTime) && States(shapes) == old(States(shapes))
    {
      if isRunning {
        Update(now, sqrt);
      }
    }
  }

  /** The shape work of an update with step length `deltaTime`: move every shape, resolve
      the collisions, apply the walls of the simulation area. */
  method UpdateShapes(bodies: seq<Body>, deltaTime: real, sqrt: real -> real)
    requires Distinct(bodies) && BodiesValid(bodies)
    modifies bodies
    ensures States(bodies) == Tick(old(States(bodies)), deltaTime, sqrt)
  {
    ghost var start := States(bodies);
    MoveShapes(bodies, deltaTime);
    ghost var moved := States(bodies);
    ShapesModelled(sqrt);
    HoldsStates(bodies, moved);
    DetectAndResolveCollisions(bodies, sqrt, ShapesTest(sqrt), ShapesResponse(sqrt), moved);
    ghost var collided := States(bodies);
    HoldsStates(bodies, Detect(moved, ShapesTest(sqrt), ShapesResponse(sqrt)));
    CheckWallCollisions(bodies, SIMULATION_WIDTH, SIMULATION_HEIGHT);
    assert moved == MoveAll(start, deltaTime) && collided == Detect(moved, ShapesTest(sqrt), ShapesResponse(sqrt));
    assert States(bodies) == WallAll(collided, SIMULATION_WIDTH, SIMULATION_HEIGHT);
  }

  /** The move loop of an update: every shape in the list takes one step. */
  method MoveShapes(bodies: seq<Body>, deltaTime: real)
    requires Distinct(bodies) && BodiesValid(bodies)
    modifies bodies
    ensures States(bodies) == MoveAll(old(States(bodies)), deltaTime)
  {
    for k := 0 to |bodies|
      invariant forall m :: 0 <= m < k ==> bodies[m].State() == Moved(old(bodies[m].State()), deltaTime)
      invariant forall m :: k <= m < |bodies| ==> bodies[m].State() == old(bodies[m].State())
    {
      bodies[k].Move(deltaTime);
    }
  }
}
