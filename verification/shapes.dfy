/** The simulated bodies as mutable objects (`Circle` and `GameRectangle`). Position and
    velocity are updated in place; mass and shape are fixed at construction. Every routine
    is proved to leave the body (or the pair of bodies) in the state that the matching
    function of the value model computes from the state before the call. */
module Shapes {
  import opened Numerics
  import opened Bodies
  import opened Geometry
  import opened CircleCollisions
  import opened CircleRectCollisions
  import opened RectCollisions
  import opened Walls
  import opened Responses

  class Body {
    var x: real
    var y: real
    var vx: real
    var vy: real
    const mass: real
    const kind: Kind

    /** The body's current value. */
    function State(): BodyState
      reads this
    {
      BodyState(x, y, vx, vy, mass, kind)
    }

    /** Positive mass and sizes. */
    predicate Valid()
    {
      0.0 < mass && kind.Valid()
    }

    /** A circle centred at (x, y), at rest. */
    constructor Circle(x: real, y: real, radius: real, mass: real)
      ensures State() == BodyState(x, y, 0.0, 0.0, mass, Kind.Circle(radius))
    {
      this.x, this.y := x, y;
      this.mass, this.kind := mass, Kind.Circle(radius);
      this.vx, this.vy := 0.0, 0.0;
    }

    /** A rectangle with top-left corner (x, y), at rest. */
    constructor Rect(x: real, y: real, width: real, height: real, mass: real)
      ensures State() == BodyState(x, y, 0.0, 0.0, mass, Kind.Rect(width, height))
    {
      this.x, this.y := x, y;
      this.mass, this.kind := mass, Kind.Rect(width, height);
      this.vx, this.vy := 0.0, 0.0;
    }

    method SetVelocity(vx: real, vy: real)
      modifies this
      ensures State() == old(State()).(vx := vx, vy := vy)
    {
      this.vx := vx;
      this.vy := vy;
    }

    /** One Euler step. */
    method Move(deltaTime: real)
      modifies this
      ensures State() == Moved(old(State()), deltaTime)
    {
      x := x + vx * deltaTime;
      y := y + vy * deltaTime;
    }

    /** Left, right, top and bottom wall in turn; a circle reaches its radius beyond its
        centre, a rectangle its width and height beyond its corner. */
    method HandleWallCollision(width: int, height: int)
      modifies this
      ensures State() == WallCorrected(old(State()), width, height)
    {
      var lo, hiX, hiY := LowReach(kind), HighReachX(kind), HighReachY(kind);
      if x - lo < 0.0 {
        x := lo;
        vx := Abs(vx);
      }
      if x + hiX > width as real {
        x := width as real - hiX;
        vx := -Abs(vx);
      }
      assert (x, vx) == WallAxis(old(x), old(vx), lo, hiX, width as real);
      if y - lo < 0.0 {
        y := lo;
        vy := Abs(vy);
      }
      if y + hiY > height as real {
        y := height as real - hiY;
        vy := -Abs(vy);
      }
      assert (y, vy) == WallAxis(old(y), old(vy), lo, hiY, height as real);
    }

    /** `handleCollision(other)`: each kind runs its own routine, and a rectangle hands a
        circle argument over to the circle, with itself as the argument. */
    method HandleCollision(other: Body, sqrt: real -> real)
      requires this != other && Valid() && other.Valid()
      modifies this, other
      decreases if kind.Rect? && other.kind.Circle? then 1 else 0
      ensures (State(), other.State()) == Resolve(old(State()), old(other.State()), sqrt)
    {
      if kind.Rect? {
        if other.kind.Rect? {
          CollideRects(other);
        } else {
          other.HandleCollision(this, sqrt);
        }
      } else if other.kind.Circle? {
        CollideCircles(other, sqrt);
      } else {
        CollideCircleRect(other, sqrt);
      }
    }

    /** Overwrites position and velocity with those of `s`. */
    method SetState(s: BodyState)
      modifies this
      ensures State() == old(State()).(x := s.x, y := s.y, vx := s.vx, vy := s.vy)
    {
      x, y, vx, vy := s.x, s.y, s.vx, s.vy;
    }

    /** Circle against circle: nothing happens for coincident centres or separating
        circles; otherwise both velocities and both positions are replaced. */
    method CollideCircles(other: Body, sqrt: real -> real)
      requires this != other && kind.Circle? && other.kind.Circle? && Valid() && other.Valid()
      modifies this, other
      ensures (State(), other.State()) == ResolveCircles(old(State()), old(other.State()), sqrt)
    {
      var a, b := State(), other.State();
      if CentreDistance(a, b, sqrt) == 0.0 || NormalSpeed(a, b, sqrt) > 0.0 {
        return;
      }
      var res := ResolveCircles(a, b, sqrt);
      SetState(res.0);
      other.SetState(res.1);
    }

    /** Circle against rectangle. A centre inside the rectangle is snapped out first, and
        that change stays even when the circle then turns out to be moving away; otherwise
        the circle gets its new velocity and position, and the rectangle only its new
        velocity, through `SetVelocity`. */
    method CollideCircleRect(rect: Body, sqrt: real -> real)
      requires this != rect && kind.Circle? && rect.kind.Rect? && Valid() && rect.Valid()
      modifies this, rect
      ensures (State(), rect.State()) == ResolveCircleRect(old(State()), old(rect.State()), sqrt)
    {
      var c, r := State(), rect.State();
      var distance := RectGap(c, r, sqrt);
      if distance >= kind.radius {
        return;
      }
      var contact := ContactOf(c, r, sqrt);
      SetState(contact.body);
      if ContactSpeed(contact, r) > 0.0 {
        return;
      }
      var res := Respond(contact, r, distance);
      SetState(res.0);
      rect.SetVelocity(res.1.vx, res.1.vy);
    }

    /** Rectangle against rectangle: only the velocity and position along the axis of least
        overlap are written, on both bodies. */
    method CollideRects(other: Body)
      requires this != other && kind.Rect? && other.kind.Rect? && Valid() && other.Valid()
      modifies this, other
      ensures (State(), other.State()) == ResolveRects(old(State()), old(other.State()))
    {
      var a, b := State(), other.State();
      var res := ResolveRects(a, b);
      if OverlapX(a, b) < OverlapY(a, b) {
        vx, x := res.0.vx, res.0.x;
        other.vx, other.x := res.1.vx, res.1.x;
      } else {
        vy, y := res.0.vy, res.0.y;
        other.vy, other.y := res.1.vy, res.1.y;
      }
    }
  }
}
