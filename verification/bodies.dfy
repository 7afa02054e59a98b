/** The value of a simulated body at one instant: position, velocity, mass and shape.
    A circle's (x, y) is its centre; a rectangle's (x, y) is its top-left corner, with y
    growing downwards as on the screen. */
module Bodies {

  datatype Kind = Circle(radius: real) | Rect(width: real, height: real)
  {
    /** Sizes are positive (the control panel only offers sizes from 10 to 100). */
    predicate Valid()
    {
      match this
      case Circle(r) => 0.0 < r
      case Rect(w, h) => 0.0 < w && 0.0 < h
    }
  }

  datatype BodyState = BodyState(x: real, y: real, vx: real, vy: real, mass: real, kind: Kind)
  {
    /** Mass is positive (the control panel only offers masses from 0.1 to 10) and so is
        every size. */
    predicate Valid()
    {
      0.0 < mass && kind.Valid()
    }

    /** Same mass and same geometry: what no routine of the engine ever changes. */
    predicate SameShape(other: BodyState)
    {
      mass == other.mass && kind == other.kind
    }

    /** x and y components of the momentum. */
    function MomentumX(): real { mass * vx }
    function MomentumY(): real { mass * vy }

    /** Kinetic energy. */
    function Energy(): real { mass * (vx * vx + vy * vy) / 2.0 }
  }

  /** One explicit Euler step of length dt at constant velocity. */
  function Moved(s: BodyState, dt: real): (r: BodyState)
    ensures r.x - s.x == s.vx * dt && r.y - s.y == s.vy * dt
    ensures r.vx == s.vx && r.vy == s.vy && r.SameShape(s)
  {
    s.(x := s.x + s.vx * dt, y := s.y + s.vy * dt)
  }

  /** A step of length zero changes nothing. */
  lemma MovedZero(s: BodyState)
    ensures Moved(s, 0.0) == s
  {
  }
}
