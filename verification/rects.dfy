/** Collision response of two rectangles (`GameRectangle.handleCollision` with a rectangle
    argument): a one-dimensional elastic collision on the axis along which the boxes overlap
    least, followed by a push-apart on that axis in inverse proportion to the masses. */
module RectCollisions {
  import opened Numerics
  import opened Bodies
  import opened Impulses

  function CentreX(s: BodyState): real
    requires s.kind.Rect?
  {
    s.x + s.kind.width / 2.0
  }

  function CentreY(s: BodyState): real
    requires s.kind.Rect?
  {
    s.y + s.kind.height / 2.0
  }

  /** Depth of overlap along x: half the summed widths less the distance between the
      centres (negative when the boxes are apart on that axis). */
  function OverlapX(a: BodyState, b: BodyState): real
    requires a.kind.Rect? && b.kind.Rect?
  {
    (a.kind.width + b.kind.width) / 2.0 - Abs(CentreX(a) - CentreX(b))
  }

  function OverlapY(a: BodyState, b: BodyState): real
    requires a.kind.Rect? && b.kind.Rect?
  {
    (a.kind.height + b.kind.height) / 2.0 - Abs(CentreY(a) - CentreY(b))
  }

  /** Velocities after a one-dimensional elastic collision of masses m1, m2 moving at v1, v2. */
  function ElasticVelocities(m1: real, m2: real, v1: real, v2: real): (real, real)
    requires 0.0 < m1 + m2
  {
    var totalMass := m1 + m2;
    (((m1 - m2) * v1 + 2.0 * m2 * v2) / totalMass, ((m2 - m1) * v2 + 2.0 * m1 * v1) / totalMass)
  }

  /** Positions after the push-apart on one axis: each body moves away from the other by the
      overlap times the other's share of the total mass; the first body moves towards
      negative coordinates unless its centre c1 is not below c2. */
  function Separated(p1: real, p2: real, c1: real, c2: real, overlap: real, m1: real, m2: real): (real, real)
    requires 0.0 < m1 + m2
  {
    var totalMass := m1 + m2;
    if c1 < c2 then (p1 - overlap * (m2 / totalMass), p2 + overlap * (m1 / totalMass))
    else (p1 + overlap * (m2 / totalMass), p2 - overlap * (m1 / totalMass))
  }

  /** `a.handleCollision(b)` for two rectangles: the x axis is resolved when the x overlap
      is strictly smaller, the y axis otherwise (ties go to y). */
  function ResolveRects(a: BodyState, b: BodyState): (r: (BodyState, BodyState))
    requires a.kind.Rect? && b.kind.Rect? && a.Valid() && b.Valid()
    ensures r.0.SameShape(a) && r.1.SameShape(b)
  {
    var overlapX := OverlapX(a, b);
    var overlapY := OverlapY(a, b);
    if overlapX < overlapY then
      var v := ElasticVelocities(a.mass, b.mass, a.vx, b.vx);
      var p := Separated(a.x, b.x, CentreX(a), CentreX(b), overlapX, a.mass, b.mass);
      (a.(vx := v.0, x := p.0), b.(vx := v.1, x := p.1))
    else
      var v := ElasticVelocities(a.mass, b.mass, a.vy, b.vy);
      var p := Separated(a.y, b.y, CentreY(a), CentreY(b), overlapY, a.mass, b.mass);
      (a.(vy := v.0, y := p.0), b.(vy := v.1, y := p.1))
  }

  // ---------------------------------------------------------------------------
  // The one-dimensional pieces

  /** The impulse form of the elastic velocities: the first body gains j*m2 and the second
      loses j*m1, with j = 2*(v2 - v1)/(m1 + m2). */
  lemma ElasticVelocitiesImpulse(m1: real, m2: real, v1: real, v2: real, j: real)
    requires 0.0 < m1 + m2 && j * (m1 + m2) == 2.0 * (v2 - v1)
    ensures ElasticVelocities(m1, m2, v1, v2).0 == v1 + j * m2 * 1.0
    ensures ElasticVelocities(m1, m2, v1, v2).1 == v2 - j * m1 * 1.0
  {
    var m := m1 + m2;
    var k := 1.0 / m;
    assert j == 2.0 * (v2 - v1) * k;
    assert ((m1 - m2) * v1 + 2.0 * m2 * v2) / m == ((m1 - m2) * v1 + 2.0 * m2 * v2) * k;
    assert ((m2 - m1) * v2 + 2.0 * m1 * v1) / m == ((m2 - m1) * v2 + 2.0 * m1 * v1) * k;
    assert (m1 - m2) * v1 + 2.0 * m2 * v2 == v1 * m + 2.0 * (v2 - v1) * m2;
    assert (m2 - m1) * v2 + 2.0 * m1 * v1 == v2 * m - 2.0 * (v2 - v1) * m1;
    assert m * k == 1.0;
  }

  /** Equal masses exchange their velocities. */
  lemma ElasticEqualMassesSwap(m: real, v1: real, v2: real)
    requires 0.0 < m
    ensures ElasticVelocities(m, m, v1, v2) == (v2, v1)
  {
    var t := m + m;
    DivideProduct((m - m) * v1 + 2.0 * m * v2, t, v2);
    DivideProduct((m - m) * v2 + 2.0 * m * v1, t, v1);
    assert ElasticVelocities(m, m, v1, v2).0 == v2;
    assert ElasticVelocities(m, m, v1, v2).1 == v1;
  }

  /** The push-apart widens the gap between the centres on that axis by exactly the overlap
      and keeps the mass-weighted position. */
  lemma SeparatedGap(p1: real, p2: real, c1: real, c2: real, overlap: real, m1: real, m2: real)
    requires 0.0 < m1 + m2
    ensures var q := Separated(p1, p2, c1, c2, overlap, m1, m2);
            (c1 < c2 ==> q.1 - q.0 == (p2 - p1) + overlap) &&
            (c2 <= c1 ==> q.0 - q.1 == (p1 - p2) + overlap)
    ensures var q := Separated(p1, p2, c1, c2, overlap, m1, m2);
            Moment(m1, q.0, m2, q.1) == Moment(m1, p1, m2, p2)
  {
    var m := m1 + m2;
    assert m1 / m + m2 / m == 1.0;
    assert overlap * (m1 / m) + overlap * (m2 / m) == overlap * (m1 / m + m2 / m);
    assert m1 * (overlap * (m2 / m)) == overlap * (m1 * m2 / m);
    assert m2 * (overlap * (m1 / m)) == overlap * (m1 * m2 / m);
  }

  // ---------------------------------------------------------------------------
  // Properties of the rectangle response

  /** Only the chosen axis changes: the x axis when its overlap is strictly smaller, the y
      axis otherwise. */
  lemma RectsOneAxis(a: BodyState, b: BodyState)
    requires a.kind.Rect? && b.kind.Rect? && a.Valid() && b.Valid()
    ensures var r := ResolveRects(a, b);
            if OverlapX(a, b) < OverlapY(a, b) then
              r.0.y == a.y && r.0.vy == a.vy && r.1.y == b.y && r.1.vy == b.vy
            else
              r.0.x == a.x && r.0.vx == a.vx && r.1.x == b.x && r.1.vx == b.vx
  {
  }

  /** The unit normal of the resolved axis: (1, 0) when x is resolved, (0, 1) otherwise. */
  function AxisX(a: BodyState, b: BodyState): real
    requires a.kind.Rect? && b.kind.Rect?
  {
    if OverlapX(a, b) < OverlapY(a, b) then 1.0 else 0.0
  }

  function AxisY(a: BodyState, b: BodyState): real
    requires a.kind.Rect? && b.kind.Rect?
  {
    if OverlapX(a, b) < OverlapY(a, b) then 0.0 else 1.0
  }

  /** The axis normal is a unit vector. */
  lemma AxisUnit(a: BodyState, b: BodyState)
    requires a.kind.Rect? && b.kind.Rect?
    ensures NormSq(AxisX(a, b), AxisY(a, b)) == 1.0
  {
  }

  /** A response on the x axis changes the velocities as the elastic impulse along (1, 0)
      does. */
  lemma RectsAsExchangeX(a: BodyState, b: BodyState)
    requires a.kind.Rect? && b.kind.Rect? && a.Valid() && b.Valid()
    requires OverlapX(a, b) < OverlapY(a, b)
    ensures var e := Exchange(a, b, ElasticImpulse(a, b, 1.0, 0.0), 1.0, 0.0);
            Motion(ResolveRects(a, b).0) == Motion(e.0) && Motion(ResolveRects(a, b).1) == Motion(e.1)
  {
    ElasticImpulseScaled(a, b, 1.0, 0.0);
    RelativeSpeedIs(a, b, 1.0, 0.0);
    ElasticVelocitiesImpulse(a.mass, b.mass, a.vx, b.vx, ElasticImpulse(a, b, 1.0, 0.0));
    var e := Exchange(a, b, ElasticImpulse(a, b, 1.0, 0.0), 1.0, 0.0);
    var r := ResolveRects(a, b);
    assert r.0.vx == e.0.vx && r.0.vy == e.0.vy && r.1.vx == e.1.vx && r.1.vy == e.1.vy;
  }

  /** A response on the y axis changes the velocities as the elastic impulse along (0, 1)
      does. */
  lemma RectsAsExchangeY(a: BodyState, b: BodyState)
    requires a.kind.Rect? && b.kind.Rect? && a.Valid() && b.Valid()
    requires OverlapY(a, b) <= OverlapX(a, b)
    ensures var e := Exchange(a, b, ElasticImpulse(a, b, 0.0, 1.0), 0.0, 1.0);
            Motion(ResolveRects(a, b).0) == Motion(e.0) && Motion(ResolveRects(a, b).1) == Motion(e.1)
  {
    ElasticImpulseScaled(a, b, 0.0, 1.0);
    RelativeSpeedIs(a, b, 0.0, 1.0);
    ElasticVelocitiesImpulse(a.mass, b.mass, a.vy, b.vy, ElasticImpulse(a, b, 0.0, 1.0));
    var e := Exchange(a, b, ElasticImpulse(a, b, 0.0, 1.0), 0.0, 1.0);
    var r := ResolveRects(a, b);
    assert r.0.vx == e.0.vx && r.0.vy == e.0.vy && r.1.vx == e.1.vx && r.1.vy == e.1.vy;
  }

  /** The velocities after the response are those of the elastic impulse exchange along
      the axis normal. */
  lemma RectsAsExchange(a: BodyState, b: BodyState)
    requires a.kind.Rect? && b.kind.Rect? && a.Valid() && b.Valid()
    ensures var e := Exchange(a, b, ElasticImpulse(a, b, AxisX(a, b), AxisY(a, b)), AxisX(a, b), AxisY(a, b));
            Motion(ResolveRects(a, b).0) == Motion(e.0) && Motion(ResolveRects(a, b).1) == Motion(e.1)
  {
    if OverlapX(a, b) < OverlapY(a, b) {
      RectsAsExchangeX(a, b);
    } else {
      RectsAsExchangeY(a, b);
    }
  }

  /** The response conserves total momentum on both axes. */
  lemma RectsConserveMomentum(a: BodyState, b: BodyState)
    requires a.kind.Rect? && b.kind.Rect? && a.Valid() && b.Valid()
    ensures var r := ResolveRects(a, b);
            r.0.MomentumX() + r.1.MomentumX() == a.MomentumX() + b.MomentumX() &&
            r.0.MomentumY() + r.1.MomentumY() == a.MomentumY() + b.MomentumY()
  {
    RectsAsExchange(a, b);
    ExchangeLikeConservesMomentum(a, b, ResolveRects(a, b).0, ResolveRects(a, b).1,
                                  ElasticImpulse(a, b, AxisX(a, b), AxisY(a, b)), AxisX(a, b), AxisY(a, b));
  }

  /** The response keeps the total kinetic energy. */
  lemma RectsKeepEnergy(a: BodyState, b: BodyState)
    requires a.kind.Rect? && b.kind.Rect? && a.Valid() && b.Valid()
    ensures var r := ResolveRects(a, b);
            r.0.Energy() + r.1.Energy() == a.Energy() + b.Energy()
  {
    RectsAsExchange(a, b);
    AxisUnit(a, b);
    ExchangeLikeKeepsEnergy(a, b, ResolveRects(a, b).0, ResolveRects(a, b).1, AxisX(a, b), AxisY(a, b));
  }

  /** The relative velocity on the resolved axis is reversed. */
  lemma RectsReverseSpeed(a: BodyState, b: BodyState)
    requires a.kind.Rect? && b.kind.Rect? && a.Valid() && b.Valid()
    ensures var r := ResolveRects(a, b);
            RelativeSpeed(r.0, r.1, AxisX(a, b), AxisY(a, b)) == -RelativeSpeed(a, b, AxisX(a, b), AxisY(a, b))
  {
    RectsAsExchange(a, b);
    AxisUnit(a, b);
    ExchangeLikeReversesSpeed(a, b, ResolveRects(a, b).0, ResolveRects(a, b).1, AxisX(a, b), AxisY(a, b));
  }

  /** Equal masses swap their velocity components on the resolved axis. */
  lemma RectsEqualMassesSwap(a: BodyState, b: BodyState)
    requires a.kind.Rect? && b.kind.Rect? && a.Valid() && b.Valid() && a.mass == b.mass
    ensures var r := ResolveRects(a, b);
            if OverlapX(a, b) < OverlapY(a, b) then r.0.vx == b.vx && r.1.vx == a.vx
            else r.0.vy == b.vy && r.1.vy == a.vy
  {
    ElasticEqualMassesSwap(a.mass, a.vx, b.vx);
    ElasticEqualMassesSwap(a.mass, a.vy, b.vy);
  }

  /** The positions after a response on the x axis. */
  lemma RectsSeparatedX(a: BodyState, b: BodyState)
    requires a.kind.Rect? && b.kind.Rect? && a.Valid() && b.Valid()
    requires OverlapX(a, b) < OverlapY(a, b)
    ensures var r := ResolveRects(a, b);
            (r.0.x, r.1.x) == Separated(a.x, b.x, CentreX(a), CentreX(b), OverlapX(a, b), a.mass, b.mass) &&
            r.0.y == a.y && r.1.y == b.y
  {
  }

  /** The positions after a response on the y axis. */
  lemma RectsSeparatedY(a: BodyState, b: BodyState)
    requires a.kind.Rect? && b.kind.Rect? && a.Valid() && b.Valid()
    requires OverlapY(a, b) <= OverlapX(a, b)
    ensures var r := ResolveRects(a, b);
            (r.0.y, r.1.y) == Separated(a.y, b.y, CentreY(a), CentreY(b), OverlapY(a, b), a.mass, b.mass) &&
            r.0.x == a.x && r.1.x == b.x
  {
  }

  /** The push-apart keeps the mass-weighted position (the centre of mass) on both axes. */
  lemma RectsKeepCentreOfMass(a: BodyState, b: BodyState)
    requires a.kind.Rect? && b.kind.Rect? && a.Valid() && b.Valid()
    ensures var r := ResolveRects(a, b);
            Moment(a.mass, r.0.x, b.mass, r.1.x) == Moment(a.mass, a.x, b.mass, b.x) &&
            Moment(a.mass, r.0.y, b.mass, r.1.y) == Moment(a.mass, a.y, b.mass, b.y)
  {
    if OverlapX(a, b) < OverlapY(a, b) {
      RectsSeparatedX(a, b);
      SeparatedGap(a.x, b.x, CentreX(a), CentreX(b), OverlapX(a, b), a.mass, b.mass);
    } else {
      RectsSeparatedY(a, b);
      SeparatedGap(a.y, b.y, CentreY(a), CentreY(b), OverlapY(a, b), a.mass, b.mass);
    }
  }

  /** After the push-apart the boxes touch along the resolved axis: the overlap on that
      axis is exactly zero. */
  lemma RectsEndTouching(a: BodyState, b: BodyState)
    requires a.kind.Rect? && b.kind.Rect? && a.Valid() && b.Valid()
    ensures var r := ResolveRects(a, b);
            if OverlapX(a, b) < OverlapY(a, b) then OverlapX(r.0, r.1) == 0.0
            else OverlapY(r.0, r.1) == 0.0
  {
    SeparatedGap(a.x, b.x, CentreX(a), CentreX(b), OverlapX(a, b), a.mass, b.mass);
    SeparatedGap(a.y, b.y, CentreY(a), CentreY(b), OverlapY(a, b), a.mass, b.mass);
  }

  /** Unlike the circle routines, the rectangle response has no test for bodies that are
      already separating: two overlapping unit-mass 20x20 boxes moving apart at 10 are
      turned round to move towards each other. */
  lemma RectsTurnSeparatingPairRound()
    ensures var a := BodyState(0.0, 0.0, -10.0, 0.0, 1.0, Rect(20.0, 20.0));
            var b := BodyState(15.0, 0.0, 10.0, 0.0, 1.0, Rect(20.0, 20.0));
            ResolveRects(a, b) ==
              (BodyState(-2.5, 0.0, 10.0, 0.0, 1.0, Rect(20.0, 20.0)),
               BodyState(17.5, 0.0, -10.0, 0.0, 1.0, Rect(20.0, 20.0)))
  {
    var a := BodyState(0.0, 0.0, -10.0, 0.0, 1.0, Rect(20.0, 20.0));
    var b := BodyState(15.0, 0.0, 10.0, 0.0, 1.0, Rect(20.0, 20.0));
    assert OverlapX(a, b) == 5.0 && OverlapY(a, b) == 20.0;
  }
}
