/** Wall handling (`handleWallCollision`): a body that pokes out through a wall of the
    width x height area is put back flush against that wall with its velocity component
    across the wall turned inwards. The four walls are checked in the order left, right,
    top, bottom. */
module Walls {
  import opened Numerics
  import opened Bodies

  /** How far a body reaches from its reference point towards lower and higher x and y: a
      circle reaches its radius each way from its centre, a rectangle reaches nothing
      before its top-left corner and its width or height after it. */
  function LowReach(k: Kind): real
  {
    match k
    case Circle(r) => r
    case Rect(_, _) => 0.0
  }

  function HighReachX(k: Kind): real
  {
    match k
    case Circle(r) => r
    case Rect(w, _) => w
  }

  function HighReachY(k: Kind): real
  {
    match k
    case Circle(r) => r
    case Rect(_, h) => h
  }

  /** The body lies within the area, touching allowed. */
  predicate Inside(s: BodyState, width: int, height: int)
  {
    0.0 <= s.x - LowReach(s.kind) && s.x + HighReachX(s.kind) <= width as real &&
    0.0 <= s.y - LowReach(s.kind) && s.y + HighReachY(s.kind) <= height as real
  }

  /** The body is small enough to lie within the area. */
  predicate Fits(k: Kind, width: int, height: int)
  {
    LowReach(k) + HighReachX(k) <= width as real && LowReach(k) + HighReachY(k) <= height as real
  }

  /** One axis: first the low wall at 0, then the high wall at `size`. `lo` and `hi` are
      the body's reach below and above its coordinate `p`; the result is the new
      coordinate and velocity. */
  function WallAxis(p: real, v: real, lo: real, hi: real, size: real): (real, real)
  {
    var first := if p - lo < 0.0 then (lo, Abs(v)) else (p, v);
    if first.0 + hi > size then (size - hi, -Abs(first.1)) else first
  }

  /** `s.handleWallCollision(width, height)`. */
  function WallCorrected(s: BodyState, width: int, height: int): (r: BodyState)
    ensures r.SameShape(s)
  {
    var ax := WallAxis(s.x, s.vx, LowReach(s.kind), HighReachX(s.kind), width as real);
    var ay := WallAxis(s.y, s.vy, LowReach(s.kind), HighReachY(s.kind), height as real);
    s.(x := ax.0, vx := ax.1, y := ay.0, vy := ay.1)
  }

  // ---------------------------------------------------------------------------
  // One axis

  /** A body that fits between the walls ends between them; whatever happens the speed
      along the axis is kept; a body already between the walls is left alone; one that
      poked out through the low wall moves away from it and one that poked out only
      through the high wall moves away from that. */
  lemma WallAxisProperties(p: real, v: real, lo: real, hi: real, size: real)
    ensures var q := WallAxis(p, v, lo, hi, size);
            Abs(q.1) == Abs(v)
    ensures 0.0 <= lo && lo + hi <= size ==>
              var q := WallAxis(p, v, lo, hi, size);
              0.0 <= q.0 - lo && q.0 + hi <= size
    ensures 0.0 <= p - lo && p + hi <= size ==> WallAxis(p, v, lo, hi, size) == (p, v)
    ensures lo + hi <= size && p - lo < 0.0 ==> 0.0 <= WallAxis(p, v, lo, hi, size).1
    ensures 0.0 <= p - lo && p + hi > size ==> WallAxis(p, v, lo, hi, size).1 <= 0.0
  {
  }

  // ---------------------------------------------------------------------------
  // Whole body

  /** A body that fits in the area is inside it after the wall check. */
  lemma WallsContain(s: BodyState, width: int, height: int)
    requires s.Valid() && Fits(s.kind, width, height)
    ensures Inside(WallCorrected(s, width, height), width, height)
  {
    WallAxisProperties(s.x, s.vx, LowReach(s.kind), HighReachX(s.kind), width as real);
    WallAxisProperties(s.y, s.vy, LowReach(s.kind), HighReachY(s.kind), height as real);
  }

  /** The wall check never changes a speed component's magnitude, so it keeps the
      kinetic energy. */
  lemma WallsKeepSpeed(s: BodyState, width: int, height: int)
    ensures var r := WallCorrected(s, width, height);
            Abs(r.vx) == Abs(s.vx) && Abs(r.vy) == Abs(s.vy)
  {
    WallAxisProperties(s.x, s.vx, LowReach(s.kind), HighReachX(s.kind), width as real);
    WallAxisProperties(s.y, s.vy, LowReach(s.kind), HighReachY(s.kind), height as real);
  }

  /** A body inside the area is left exactly as it is. */
  lemma WallsIdleInside(s: BodyState, width: int, height: int)
    requires Inside(s, width, height)
    ensures WallCorrected(s, width, height) == s
  {
    WallAxisProperties(s.x, s.vx, LowReach(s.kind), HighReachX(s.kind), width as real);
    WallAxisProperties(s.y, s.vy, LowReach(s.kind), HighReachY(s.kind), height as real);
  }

  /** For a body that fits, a second wall check changes nothing. */
  lemma WallsIdempotent(s: BodyState, width: int, height: int)
    requires s.Valid() && Fits(s.kind, width, height)
    ensures WallCorrected(WallCorrected(s, width, height), width, height) == WallCorrected(s, width, height)
  {
    WallsContain(s, width, height);
    WallsIdleInside(WallCorrected(s, width, height), width, height);
  }

  /** A body that crossed the left wall is turned to move rightwards (or to stand), one that
      crossed the top wall to move downwards (or to stand). */
  lemma WallsTurnInwards(s: BodyState, width: int, height: int)
    requires s.Valid() && Fits(s.kind, width, height)
    ensures s.x - LowReach(s.kind) < 0.0 ==> 0.0 <= WallCorrected(s, width, height).vx
    ensures s.y - LowReach(s.kind) < 0.0 ==> 0.0 <= WallCorrected(s, width, height).vy
    ensures 0.0 <= s.x - LowReach(s.kind) && s.x + HighReachX(s.kind) > width as real ==>
              WallCorrected(s, width, height).vx <= 0.0
    ensures 0.0 <= s.y - LowReach(s.kind) && s.y + HighReachY(s.kind) > height as real ==>
              WallCorrected(s, width, height).vy <= 0.0
  {
    WallAxisProperties(s.x, s.vx, LowReach(s.kind), HighReachX(s.kind), width as real);
    WallAxisProperties(s.y, s.vy, LowReach(s.kind), HighReachY(s.kind), height as real);
  }
}
