/** Collision response of a circle (`Circle.handleCollision`): against another circle and
    against a rectangle. Each routine is a function from the two bodies before the call to
    the two bodies after it. */
module CircleCollisions {
  import opened Numerics
  import opened Bodies
  import opened Geometry
  import opened Impulses

  // ---------------------------------------------------------------------------
  // Circle / circle

  /** Distance from a's centre to b's centre, as the routine computes it. */
  function CentreDistance(a: BodyState, b: BodyState, sqrt: real -> real): real
  {
    sqrt(Dist2(b.x, b.y, a.x, a.y))
  }

  /** The collision normal: the vector from a's centre to b's, divided by the distance. */
  function NormalX(a: BodyState, b: BodyState, sqrt: real -> real): real
    requires CentreDistance(a, b, sqrt) != 0.0
  {
    (b.x - a.x) / CentreDistance(a, b, sqrt)
  }

  function NormalY(a: BodyState, b: BodyState, sqrt: real -> real): real
    requires CentreDistance(a, b, sqrt) != 0.0
  {
    (b.y - a.y) / CentreDistance(a, b, sqrt)
  }

  /** Velocity of b relative to a along the normal; positive means the circles separate. */
  function NormalSpeed(a: BodyState, b: BodyState, sqrt: real -> real): real
    requires CentreDistance(a, b, sqrt) != 0.0
  {
    RelativeSpeed(a, b, NormalX(a, b, sqrt), NormalY(a, b, sqrt))
  }

  /** True when `a.handleCollision(b)` does anything: the centres are apart and the
      circles are not already separating. */
  predicate CirclesApproach(a: BodyState, b: BodyState, sqrt: real -> real)
  {
    CentreDistance(a, b, sqrt) != 0.0 && NormalSpeed(a, b, sqrt) <= 0.0
  }

  /** The impulse of an elastic collision: twice the normal speed, times the restitution,
      over the total mass. */
  function CircleImpulse(a: BodyState, b: BodyState, sqrt: real -> real): real
    requires 0.0 < a.mass + b.mass && CentreDistance(a, b, sqrt) != 0.0
  {
    (2.0 * NormalSpeed(a, b, sqrt) * RESTITUTION) / (a.mass + b.mass)
  }

  /** The push-apart of two circles that overlap by `overlap` along the normal (nx, ny):
      each centre moves away from the other by the overlap times the other's share of the
      total mass. Nothing moves when the circles do not overlap. */
  function PushedApart(p: (BodyState, BodyState), overlap: real, nx: real, ny: real): (r: (BodyState, BodyState))
    requires 0.0 < p.0.mass + p.1.mass
    ensures Motion(r.0) == Motion(p.0) && Motion(r.1) == Motion(p.1)
  {
    if overlap > 0.0 then
      var totalMass := p.0.mass + p.1.mass;
      var moveRatio1 := p.1.mass / totalMass;
      var moveRatio2 := p.0.mass / totalMass;
      (p.0.(x := p.0.x - nx * overlap * moveRatio1, y := p.0.y - ny * overlap * moveRatio1),
       p.1.(x := p.1.x + nx * overlap * moveRatio2, y := p.1.y + ny * overlap * moveRatio2))
    else
      p
  }

  /** Circle/circle response: nothing for coincident centres or separating circles;
      otherwise the impulse exchange along the normal, then the push-apart. */
  function ResolveCircles(a: BodyState, b: BodyState, sqrt: real -> real): (r: (BodyState, BodyState))
    requires a.kind.Circle? && b.kind.Circle? && 0.0 < a.mass + b.mass
    ensures r.0.SameShape(a) && r.1.SameShape(b)
  {
    var distance := CentreDistance(a, b, sqrt);
    if distance == 0.0 then (a, b)
    else
      var nx := NormalX(a, b, sqrt);
      var ny := NormalY(a, b, sqrt);
      var dvn := NormalSpeed(a, b, sqrt);
      if dvn > 0.0 then (a, b)
      else
        var impulse := CircleImpulse(a, b, sqrt);
        var overlap := (a.kind.radius + b.kind.radius) - distance;
        PushedApart(Exchange(a, b, impulse, nx, ny), overlap, nx, ny)
  }

  /** An approaching pair is resolved by the exchange of the circle impulse along the
      normal followed by the push-apart by the overlap. */
  lemma CirclesAsExchange(a: BodyState, b: BodyState, sqrt: real -> real)
    requires a.kind.Circle? && b.kind.Circle? && 0.0 < a.mass + b.mass
    requires CirclesApproach(a, b, sqrt)
    ensures ResolveCircles(a, b, sqrt) ==
            PushedApart(Exchange(a, b, CircleImpulse(a, b, sqrt), NormalX(a, b, sqrt), NormalY(a, b, sqrt)),
                        (a.kind.radius + b.kind.radius) - CentreDistance(a, b, sqrt),
                        NormalX(a, b, sqrt), NormalY(a, b, sqrt))
  {
  }

  /** Coincident centres, or circles already moving apart: both bodies are left exactly
      as they were. */
  lemma CirclesSkipUnlessApproaching(a: BodyState, b: BodyState, sqrt: real -> real)
    requires a.kind.Circle? && b.kind.Circle? && 0.0 < a.mass + b.mass
    requires !CirclesApproach(a, b, sqrt)
    ensures ResolveCircles(a, b, sqrt) == (a, b)
  {
  }

  /** The velocities after an approaching pair is resolved: the impulse along the normal,
      weighted by the other body's mass, whatever the push-apart did. */
  lemma CirclesNewVelocities(a: BodyState, b: BodyState, sqrt: real -> real)
    requires a.kind.Circle? && b.kind.Circle? && 0.0 < a.mass + b.mass
    requires CirclesApproach(a, b, sqrt)
    ensures var r := ResolveCircles(a, b, sqrt);
            var e := Exchange(a, b, CircleImpulse(a, b, sqrt), NormalX(a, b, sqrt), NormalY(a, b, sqrt));
            Motion(r.0) == Motion(e.0) && Motion(r.1) == Motion(e.1)
  {
    CirclesAsExchange(a, b, sqrt);
  }

  /** A pair closing at a non-zero normal speed has its velocities changed. */
  lemma CirclesChangeWhenClosing(a: BodyState, b: BodyState, sqrt: real -> real)
    requires a.kind.Circle? && b.kind.Circle? && 0.0 < a.mass + b.mass
    requires a.Valid() && b.Valid()
    requires IsSqrt(sqrt) && CentreDistance(a, b, sqrt) != 0.0 && NormalSpeed(a, b, sqrt) < 0.0
    ensures ResolveCircles(a, b, sqrt).0.vx != a.vx || ResolveCircles(a, b, sqrt).0.vy != a.vy
  {
    var nx, ny := NormalX(a, b, sqrt), NormalY(a, b, sqrt);
    var impulse := CircleImpulse(a, b, sqrt);
    assert impulse < 0.0;
    var e := Exchange(a, b, impulse, nx, ny);
    CirclesNewVelocities(a, b, sqrt);
    UnitNormal(a, b, sqrt);
    if nx != 0.0 {
      assert impulse * b.mass != 0.0;
      assert impulse * b.mass * nx != 0.0;
    } else {
      assert impulse * b.mass * ny != 0.0;
    }
  }

  /** The impulse conserves total momentum on both axes, whatever the square root. */
  lemma CirclesConserveMomentum(a: BodyState, b: BodyState, sqrt: real -> real)
    requires a.kind.Circle? && b.kind.Circle? && 0.0 < a.mass + b.mass
    ensures var r := ResolveCircles(a, b, sqrt);
            r.0.MomentumX() + r.1.MomentumX() == a.MomentumX() + b.MomentumX() &&
            r.0.MomentumY() + r.1.MomentumY() == a.MomentumY() + b.MomentumY()
  {
    if CirclesApproach(a, b, sqrt) {
      CirclesNewVelocities(a, b, sqrt);
      ExchangeLikeConservesMomentum(a, b, ResolveCircles(a, b, sqrt).0, ResolveCircles(a, b, sqrt).1, CircleImpulse(a, b, sqrt),
                                    NormalX(a, b, sqrt), NormalY(a, b, sqrt));
    } else {
      CirclesSkipUnlessApproaching(a, b, sqrt);
    }
  }

  /** With a restitution of 1 the circle impulse is the elastic impulse along the normal. */
  lemma CircleImpulseIsElastic(a: BodyState, b: BodyState, sqrt: real -> real)
    requires 0.0 < a.mass + b.mass && CentreDistance(a, b, sqrt) != 0.0
    ensures CircleImpulse(a, b, sqrt) == ElasticImpulse(a, b, NormalX(a, b, sqrt), NormalY(a, b, sqrt))
  {
  }

  /** With the real square root the circle/circle response keeps the total kinetic
      energy. */
  lemma CirclesKeepEnergy(a: BodyState, b: BodyState, sqrt: real -> real)
    requires a.kind.Circle? && b.kind.Circle? && 0.0 < a.mass + b.mass
    requires IsSqrt(sqrt)
    ensures var r := ResolveCircles(a, b, sqrt);
            r.0.Energy() + r.1.Energy() == a.Energy() + b.Energy()
  {
    if CirclesApproach(a, b, sqrt) {
      CirclesNewVelocities(a, b, sqrt);
      UnitNormal(a, b, sqrt);
      CircleImpulseIsElastic(a, b, sqrt);
      ExchangeLikeKeepsEnergy(a, b, ResolveCircles(a, b, sqrt).0, ResolveCircles(a, b, sqrt).1,
                              NormalX(a, b, sqrt), NormalY(a, b, sqrt));
    } else {
      CirclesSkipUnlessApproaching(a, b, sqrt);
    }
  }

  /** With the real square root an approaching pair leaves with its normal speed
      reversed. */
  lemma CirclesReverseNormalSpeed(a: BodyState, b: BodyState, sqrt: real -> real)
    requires a.kind.Circle? && b.kind.Circle? && 0.0 < a.mass + b.mass
    requires IsSqrt(sqrt) && CirclesApproach(a, b, sqrt)
    ensures var r := ResolveCircles(a, b, sqrt);
            RelativeSpeed(r.0, r.1, NormalX(a, b, sqrt), NormalY(a, b, sqrt)) == -NormalSpeed(a, b, sqrt)
  {
    CirclesNewVelocities(a, b, sqrt);
    UnitNormal(a, b, sqrt);
    CircleImpulseIsElastic(a, b, sqrt);
    ExchangeLikeReversesSpeed(a, b, ResolveCircles(a, b, sqrt).0, ResolveCircles(a, b, sqrt).1,
                              NormalX(a, b, sqrt), NormalY(a, b, sqrt));
  }

  /** Moving p1 back by n*o*m2/M and p2 forward by n*o*m1/M widens the gap p2 - p1 by
      exactly n*o and keeps m1*p1 + m2*p2. */
  lemma MassWeightedSplit(p1: real, p2: real, n: real, o: real, m1: real, m2: real)
    requires 0.0 < m1 + m2
    ensures (p2 + n * o * (m1 / (m1 + m2))) - (p1 - n * o * (m2 / (m1 + m2))) == Shifted(p2 - p1, n, o)
    ensures Moment(m1, p1 - n * o * (m2 / (m1 + m2)), m2, p2 + n * o * (m1 / (m1 + m2))) == Moment(m1, p1, m2, p2)
  {
    var m := m1 + m2;
    assert m1 / m + m2 / m == 1.0;
    assert n * o * (m1 / m) + n * o * (m2 / m) == n * o * (m1 / m + m2 / m);
    assert m1 * (n * o * (m2 / m)) == n * o * (m1 * m2 / m);
    assert m2 * (n * o * (m1 / m)) == n * o * (m1 * m2 / m);
  }

  /** The push-apart of a pair standing where a and b stand, with their masses, keeps the
      mass-weighted centre m1*p1 + m2*p2 on both axes. */
  lemma PushedApartKeepsCentre(a: BodyState, b: BodyState, p: (BodyState, BodyState),
                               overlap: real, nx: real, ny: real)
    requires 0.0 < a.mass + b.mass
    requires p.0.x == a.x && p.0.y == a.y && p.0.mass == a.mass
    requires p.1.x == b.x && p.1.y == b.y && p.1.mass == b.mass
    ensures var r := PushedApart(p, overlap, nx, ny);
            Moment(a.mass, r.0.x, b.mass, r.1.x) == Moment(a.mass, a.x, b.mass, b.x) &&
            Moment(a.mass, r.0.y, b.mass, r.1.y) == Moment(a.mass, a.y, b.mass, b.y)
  {
    if overlap > 0.0 {
      MassWeightedSplit(a.x, b.x, nx, overlap, a.mass, b.mass);
      MassWeightedSplit(a.y, b.y, ny, overlap, a.mass, b.mass);
    }
  }

  /** The push-apart of an overlapping pair standing where a and b stand moves the centres
      apart along (nx, ny) by the whole overlap. */
  lemma PushedApartGap(a: BodyState, b: BodyState, p: (BodyState, BodyState),
                       overlap: real, nx: real, ny: real)
    requires 0.0 < a.mass + b.mass && 0.0 < overlap
    requires p.0.x == a.x && p.0.y == a.y && p.0.mass == a.mass
    requires p.1.x == b.x && p.1.y == b.y && p.1.mass == b.mass
    ensures var r := PushedApart(p, overlap, nx, ny);
            r.1.x - r.0.x == Shifted(b.x - a.x, nx, overlap) &&
            r.1.y - r.0.y == Shifted(b.y - a.y, ny, overlap)
  {
    MassWeightedSplit(a.x, b.x, nx, overlap, a.mass, b.mass);
    MassWeightedSplit(a.y, b.y, ny, overlap, a.mass, b.mass);
  }

  /** The push-apart leaves the mass-weighted centre m1*p1 + m2*p2 where it was. */
  lemma CirclesKeepCentreOfMass(a: BodyState, b: BodyState, sqrt: real -> real)
    requires a.kind.Circle? && b.kind.Circle? && 0.0 < a.mass + b.mass
    ensures var r := ResolveCircles(a, b, sqrt);
            Moment(a.mass, r.0.x, b.mass, r.1.x) == Moment(a.mass, a.x, b.mass, b.x) &&
            Moment(a.mass, r.0.y, b.mass, r.1.y) == Moment(a.mass, a.y, b.mass, b.y)
  {
    if CirclesApproach(a, b, sqrt) {
      CirclesAsExchange(a, b, sqrt);
      PushedApartKeepsCentre(a, b, Exchange(a, b, CircleImpulse(a, b, sqrt), NormalX(a, b, sqrt), NormalY(a, b, sqrt)),
                             (a.kind.radius + b.kind.radius) - CentreDistance(a, b, sqrt),
                             NormalX(a, b, sqrt), NormalY(a, b, sqrt));
    } else {
      CirclesSkipUnlessApproaching(a, b, sqrt);
    }
  }

  /** The push-apart moves the centres apart along the normal by the full overlap, so that
      b's centre ends up (r1 + r2) times the normal away from a's. */
  lemma CirclesPushApart(a: BodyState, b: BodyState, sqrt: real -> real)
    requires a.kind.Circle? && b.kind.Circle? && 0.0 < a.mass + b.mass
    requires CirclesApproach(a, b, sqrt)
    requires CentreDistance(a, b, sqrt) < a.kind.radius + b.kind.radius
    ensures var r := ResolveCircles(a, b, sqrt);
            var overlap := (a.kind.radius + b.kind.radius) - CentreDistance(a, b, sqrt);
            r.1.x - r.0.x == Shifted(b.x - a.x, NormalX(a, b, sqrt), overlap) &&
            r.1.y - r.0.y == Shifted(b.y - a.y, NormalY(a, b, sqrt), overlap)
  {
    CirclesAsExchange(a, b, sqrt);
    PushedApartGap(a, b, Exchange(a, b, CircleImpulse(a, b, sqrt), NormalX(a, b, sqrt), NormalY(a, b, sqrt)),
                   (a.kind.radius + b.kind.radius) - CentreDistance(a, b, sqrt),
                   NormalX(a, b, sqrt), NormalY(a, b, sqrt));
  }

  /** Dividing a non-zero vector by its length gives a unit vector. */
  lemma UnitVector(dx: real, dy: real, d: real)
    requires 0.0 < d && d * d == dx * dx + dy * dy
    ensures NormSq(dx / d, dy / d) == 1.0
  {
    var k := 1.0 / d;
    assert dx / d == dx * k;
    assert dy / d == dy * k;
    assert (dx * k) * (dx * k) + (dy * k) * (dy * k) == k * k * (dx * dx + dy * dy);
    assert k * k * (d * d) == 1.0;
  }

  /** With the real square root a non-zero centre distance is positive and the normal is a
      unit vector. */
  lemma UnitNormal(a: BodyState, b: BodyState, sqrt: real -> real)
    requires IsSqrt(sqrt) && CentreDistance(a, b, sqrt) != 0.0
    ensures 0.0 < CentreDistance(a, b, sqrt)
    ensures NormSq(NormalX(a, b, sqrt), NormalY(a, b, sqrt)) == 1.0
  {
    UnitVector(b.x - a.x, b.y - a.y, CentreDistance(a, b, sqrt));
  }

  /** Scaling the vector (dx, dy) of length d to length R: adding (R - d)/d of it gives a
      vector whose squared length is R*R. */
  lemma RescaledLength(dx: real, dy: real, d: real, rr: real)
    requires 0.0 < d && d * d == dx * dx + dy * dy
    ensures NormSq(Shifted(dx, dx / d, rr - d), Shifted(dy, dy / d, rr - d)) == rr * rr
  {
    var k := rr / d;
    assert dx + dx / d * (rr - d) == dx * k;
    assert dy + dy / d * (rr - d) == dy * k;
    assert (dx * k) * (dx * k) + (dy * k) * (dy * k) == k * k * (dx * dx + dy * dy);
    assert k * k * (d * d) == rr * rr;
  }

  /** Two points whose offset is the vector (dx, dy) of length d rescaled to length R are
      R apart. */
  lemma RescaledDistance(sqrt: real -> real, x1: real, y1: real, x2: real, y2: real,
                         dx: real, dy: real, d: real, rr: real)
    requires IsSqrt(sqrt) && 0.0 <= rr
    requires 0.0 < d && d == sqrt(NormSq(dx, dy))
    requires x2 - x1 == Shifted(dx, dx / d, rr - d) && y2 - y1 == Shifted(dy, dy / d, rr - d)
    ensures sqrt(Dist2(x2, y2, x1, y1)) == rr
  {
    assert 0.0 <= NormSq(dx, dy);
    RescaledLength(dx, dy, d, rr);
    Dist2OfDifferences(x2, y2, x1, y1, Shifted(dx, dx / d, rr - d), Shifted(dy, dy / d, rr - d));
    SqrtOfSquare(sqrt, Dist2(x2, y2, x1, y1), rr);
  }

  /** With the real square root, overlapping circles end exactly touching: the centre
      distance after the push-apart is the sum of the radii. */
  lemma CirclesEndTouching(a: BodyState, b: BodyState, sqrt: real -> real)
    requires a.kind.Circle? && b.kind.Circle? && 0.0 < a.mass + b.mass
    requires IsSqrt(sqrt) && CirclesApproach(a, b, sqrt)
    requires CentreDistance(a, b, sqrt) < a.kind.radius + b.kind.radius
    ensures var r := ResolveCircles(a, b, sqrt);
            CentreDistance(r.0, r.1, sqrt) == a.kind.radius + b.kind.radius
  {
    var r := ResolveCircles(a, b, sqrt);
    UnitNormal(a, b, sqrt);
    CirclesPushApart(a, b, sqrt);
    RescaledDistance(sqrt, r.0.x, r.0.y, r.1.x, r.1.y, b.x - a.x, b.y - a.y,
                     CentreDistance(a, b, sqrt), a.kind.radius + b.kind.radius);
  }

  /** A head-on collision of two equal circles of radius 10 and mass 1 whose centres are 19
      apart, closing at 100: they swap velocities and each moves back by half the overlap of
      1, leaving them touching at distance 20. */
  lemma HeadOnExample(sqrt: real -> real)
    requires IsSqrt(sqrt)
    ensures var a := BodyState(100.0, 100.0, 50.0, 0.0, 1.0, Circle(10.0));
            var b := BodyState(119.0, 100.0, -50.0, 0.0, 1.0, Circle(10.0));
            ResolveCircles(a, b, sqrt) ==
              (BodyState(99.5, 100.0, -50.0, 0.0, 1.0, Circle(10.0)),
               BodyState(119.5, 100.0, 50.0, 0.0, 1.0, Circle(10.0)))
  {
    var a := BodyState(100.0, 100.0, 50.0, 0.0, 1.0, Circle(10.0));
    var b := BodyState(119.0, 100.0, -50.0, 0.0, 1.0, Circle(10.0));
    SqrtOfSquare(sqrt, Dist2(b.x, b.y, a.x, a.y), 19.0);
    assert CentreDistance(a, b, sqrt) == 19.0;
    assert NormalX(a, b, sqrt) == 1.0 && NormalY(a, b, sqrt) == 0.0;
    assert NormalSpeed(a, b, sqrt) == -100.0;
    assert CircleImpulse(a, b, sqrt) == -100.0;
  }
}
