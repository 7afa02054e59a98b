/** The impulse exchange at the heart of every collision response: two bodies trade an
    impulse along a direction, in inverse proportion to their masses. The circle/circle,
    circle/rectangle and rectangle/rectangle responses are all instances of it. */
module Impulses {
  import opened Numerics
  import opened Bodies

  /** Velocity of b relative to a along the direction (nx, ny); positive means b moves away
      from a along it. */
  function RelativeSpeed(a: BodyState, b: BodyState, nx: real, ny: real): real
  {
    (b.vx - a.vx) * nx + (b.vy - a.vy) * ny
  }

  /** The definition of the relative speed, as a fact a proof can cite. */
  lemma RelativeSpeedIs(a: BodyState, b: BodyState, nx: real, ny: real)
    ensures RelativeSpeed(a, b, nx, ny) == (b.vx - a.vx) * nx + (b.vy - a.vy) * ny
  {
  }

  /** Two bodies trading the impulse j along (nx, ny): a's velocity changes by j times b's
      mass along the direction, b's by minus j times a's mass. */
  function Exchange(a: BodyState, b: BodyState, j: real, nx: real, ny: real): (r: (BodyState, BodyState))
    ensures r.0.x == a.x && r.0.y == a.y && r.0.SameShape(a)
    ensures r.1.x == b.x && r.1.y == b.y && r.1.SameShape(b)
  {
    (a.(vx := a.vx + j * b.mass * nx, vy := a.vy + j * b.mass * ny),
     b.(vx := b.vx - j * a.mass * nx, vy := b.vy - j * a.mass * ny))
  }

  /** The impulse of a perfectly elastic collision along the unit normal (nx, ny): twice
      the normal speed of b relative to a over the total mass. */
  function ElasticImpulse(a: BodyState, b: BodyState, nx: real, ny: real): real
    requires 0.0 < a.mass + b.mass
  {
    2.0 * RelativeSpeed(a, b, nx, ny) / (a.mass + b.mass)
  }

  /** The elastic impulse times the total mass is twice the normal speed. */
  lemma ElasticImpulseScaled(a: BodyState, b: BodyState, nx: real, ny: real)
    requires 0.0 < a.mass + b.mass
    ensures ElasticImpulse(a, b, nx, ny) * (a.mass + b.mass) == 2.0 * RelativeSpeed(a, b, nx, ny)
  {
  }

  /** What a collision response acts on or depends on, apart from the position: the
      velocity, the mass and the shape. */
  function Motion(s: BodyState): (real, real, real, Kind)
  {
    (s.vx, s.vy, s.mass, s.kind)
  }

  /** Two pairs of bodies that move alike have the same total momentum and kinetic energy
      and the same relative speed along any direction. */
  lemma MotionKeeps(s: BodyState, t: BodyState, s': BodyState, t': BodyState, nx: real, ny: real)
    requires Motion(s') == Motion(s) && Motion(t') == Motion(t)
    ensures s'.MomentumX() + t'.MomentumX() == s.MomentumX() + t.MomentumX()
    ensures s'.MomentumY() + t'.MomentumY() == s.MomentumY() + t.MomentumY()
    ensures s'.Energy() + t'.Energy() == s.Energy() + t.Energy()
    ensures RelativeSpeed(s', t', nx, ny) == RelativeSpeed(s, t, nx, ny)
  {
  }

  /** An impulse j*n applied as +j*m2*n to one body and -j*m1*n to the other leaves
      m1*v1 + m2*v2 unchanged. */
  lemma ImpulseBalance(m1: real, m2: real, v1: real, v2: real, j: real, n: real)
    ensures m1 * (v1 + j * m2 * n) + m2 * (v2 - j * m1 * n) == m1 * v1 + m2 * v2
  {
    assert m1 * (j * m2 * n) == m2 * (j * m1 * n);
  }

  /** Any exchange keeps the total momentum on both axes. */
  lemma ExchangeConservesMomentum(a: BodyState, b: BodyState, j: real, nx: real, ny: real)
    ensures var r := Exchange(a, b, j, nx, ny);
            r.0.MomentumX() + r.1.MomentumX() == a.MomentumX() + b.MomentumX() &&
            r.0.MomentumY() + r.1.MomentumY() == a.MomentumY() + b.MomentumY()
  {
    ImpulseBalance(a.mass, b.mass, a.vx, b.vx, j, nx);
    ImpulseBalance(a.mass, b.mass, a.vy, b.vy, j, ny);
  }

  /** Twice the kinetic energy of two bodies after the impulse j along n, as a polynomial
      identity: the change is j*m1*m2 times (j*(m1 + m2)*|n|^2 - 2*dvn). */
  lemma EnergyShift(m1: real, m2: real, ux: real, uy: real, wx: real, wy: real,
                    j: real, nx: real, ny: real)
    ensures m1 * ((ux + j * m2 * nx) * (ux + j * m2 * nx) + (uy + j * m2 * ny) * (uy + j * m2 * ny)) +
            m2 * ((wx - j * m1 * nx) * (wx - j * m1 * nx) + (wy - j * m1 * ny) * (wy - j * m1 * ny)) ==
            m1 * (ux * ux + uy * uy) + m2 * (wx * wx + wy * wy) +
            j * m1 * m2 * (j * (m1 + m2) * (nx * nx + ny * ny) - 2.0 * ((wx - ux) * nx + (wy - uy) * ny))
  {
  }

  /** The exchange of the impulse j along a unit normal keeps m1*|u|^2 + m2*|w|^2 when
      j*(m1 + m2) is twice the normal speed of the second body relative to the first. */
  lemma EnergyKept(m1: real, m2: real, ux: real, uy: real, wx: real, wy: real,
                   ux': real, uy': real, wx': real, wy': real, j: real, nx: real, ny: real)
    requires nx * nx + ny * ny == 1.0
    requires j * (m1 + m2) == 2.0 * ((wx - ux) * nx + (wy - uy) * ny)
    requires ux' == ux + j * m2 * nx && uy' == uy + j * m2 * ny
    requires wx' == wx - j * m1 * nx && wy' == wy - j * m1 * ny
    ensures m1 * (ux' * ux' + uy' * uy') + m2 * (wx' * wx' + wy' * wy') ==
            m1 * (ux * ux + uy * uy) + m2 * (wx * wx + wy * wy)
  {
    EnergyShift(m1, m2, ux, uy, wx, wy, j, nx, ny);
  }

  /** Two bodies whose masses are unchanged and whose mass-weighted squared speeds add up
      to the same total keep their total kinetic energy. */
  lemma PairEnergyKept(a: BodyState, b: BodyState, a': BodyState, b': BodyState)
    requires a'.mass == a.mass && b'.mass == b.mass
    requires a.mass * (a'.vx * a'.vx + a'.vy * a'.vy) + b.mass * (b'.vx * b'.vx + b'.vy * b'.vy) ==
             a.mass * (a.vx * a.vx + a.vy * a.vy) + b.mass * (b.vx * b.vx + b.vy * b.vy)
    ensures a'.Energy() + b'.Energy() == a.Energy() + b.Energy()
  {
  }

  /** Velocities changed by the impulse j along a unit normal, with j*(m1 + m2) equal to
      twice the normal speed s of b relative to a, keep the total kinetic energy and
      reverse that normal speed. */
  lemma VelocitiesKeepEnergy(a: BodyState, b: BodyState, a': BodyState, b': BodyState,
                             j: real, nx: real, ny: real, s: real)
    requires nx * nx + ny * ny == 1.0
    requires j * (a.mass + b.mass) == 2.0 * s
    requires s == (b.vx - a.vx) * nx + (b.vy - a.vy) * ny
    requires a'.mass == a.mass && b'.mass == b.mass
    requires a'.vx == a.vx + j * b.mass * nx && a'.vy == a.vy + j * b.mass * ny
    requires b'.vx == b.vx - j * a.mass * nx && b'.vy == b.vy - j * a.mass * ny
    ensures a'.Energy() + b'.Energy() == a.Energy() + b.Energy()
  {
    EnergyKept(a.mass, b.mass, a.vx, a.vy, b.vx, b.vy, a'.vx, a'.vy, b'.vx, b'.vy, j, nx, ny);
    PairEnergyKept(a, b, a', b');
  }

  lemma VelocitiesReverseSpeed(a: BodyState, b: BodyState, a': BodyState, b': BodyState,
                               j: real, nx: real, ny: real, s: real)
    requires nx * nx + ny * ny == 1.0
    requires j * (a.mass + b.mass) == 2.0 * s
    requires s == (b.vx - a.vx) * nx + (b.vy - a.vy) * ny
    requires a'.vx == a.vx + j * b.mass * nx && a'.vy == a.vy + j * b.mass * ny
    requires b'.vx == b.vx - j * a.mass * nx && b'.vy == b.vy - j * a.mass * ny
    ensures (b'.vx - a'.vx) * nx + (b'.vy - a'.vy) * ny == -s
  {
    assert (b'.vx - a'.vx) * nx + (b'.vy - a'.vy) * ny == s - j * (a.mass + b.mass) * (nx * nx + ny * ny);
  }

  /** The elastic exchange: along a unit normal, with j*(m1 + m2) equal to twice the
      normal speed of b relative to a, the total kinetic energy is kept. */
  lemma ExchangeKeepsEnergy(a: BodyState, b: BodyState, j: real, nx: real, ny: real)
    requires nx * nx + ny * ny == 1.0
    requires j * (a.mass + b.mass) == 2.0 * RelativeSpeed(a, b, nx, ny)
    ensures var r := Exchange(a, b, j, nx, ny);
            r.0.Energy() + r.1.Energy() == a.Energy() + b.Energy()
  {
    RelativeSpeedIs(a, b, nx, ny);
    VelocitiesKeepEnergy(a, b, Exchange(a, b, j, nx, ny).0, Exchange(a, b, j, nx, ny).1, j, nx, ny,
                         RelativeSpeed(a, b, nx, ny));
  }

  /** The elastic exchange reverses the normal speed of b relative to a. */
  lemma ExchangeReversesSpeed(a: BodyState, b: BodyState, j: real, nx: real, ny: real)
    requires nx * nx + ny * ny == 1.0
    requires j * (a.mass + b.mass) == 2.0 * RelativeSpeed(a, b, nx, ny)
    ensures var r := Exchange(a, b, j, nx, ny);
            RelativeSpeed(r.0, r.1, nx, ny) == -RelativeSpeed(a, b, nx, ny)
  {
    var r := Exchange(a, b, j, nx, ny);
    RelativeSpeedIs(a, b, nx, ny);
    RelativeSpeedIs(r.0, r.1, nx, ny);
    VelocitiesReverseSpeed(a, b, r.0, r.1, j, nx, ny, RelativeSpeed(a, b, nx, ny));
  }

  /** A response whose velocities are those of an exchange (whatever it does to the
      positions) conserves momentum like the exchange. */
  lemma ExchangeLikeConservesMomentum(a: BodyState, b: BodyState, a': BodyState, b': BodyState,
                                      j: real, nx: real, ny: real)
    requires Motion(a') == Motion(Exchange(a, b, j, nx, ny).0) && Motion(b') == Motion(Exchange(a, b, j, nx, ny).1)
    ensures a'.MomentumX() + b'.MomentumX() == a.MomentumX() + b.MomentumX()
    ensures a'.MomentumY() + b'.MomentumY() == a.MomentumY() + b.MomentumY()
  {
    var e := Exchange(a, b, j, nx, ny);
    ExchangeConservesMomentum(a, b, j, nx, ny);
    MotionKeeps(e.0, e.1, a', b', nx, ny);
  }

  /** A response whose velocities are those of the elastic exchange along a unit normal
      (whatever it does to the positions) keeps the total kinetic energy. */
  lemma ExchangeLikeKeepsEnergy(a: BodyState, b: BodyState, a': BodyState, b': BodyState, nx: real, ny: real)
    requires 0.0 < a.mass + b.mass && NormSq(nx, ny) == 1.0
    requires Motion(a') == Motion(Exchange(a, b, ElasticImpulse(a, b, nx, ny), nx, ny).0)
    requires Motion(b') == Motion(Exchange(a, b, ElasticImpulse(a, b, nx, ny), nx, ny).1)
    ensures a'.Energy() + b'.Energy() == a.Energy() + b.Energy()
  {
    var e := Exchange(a, b, ElasticImpulse(a, b, nx, ny), nx, ny);
    ElasticImpulseScaled(a, b, nx, ny);
    ExchangeKeepsEnergy(a, b, ElasticImpulse(a, b, nx, ny), nx, ny);
    MotionKeeps(e.0, e.1, a', b', nx, ny);
  }

  /** A response whose velocities are those of the elastic exchange along a unit normal
      reverses the normal speed of b relative to a. */
  lemma ExchangeLikeReversesSpeed(a: BodyState, b: BodyState, a': BodyState, b': BodyState, nx: real, ny: real)
    requires 0.0 < a.mass + b.mass && NormSq(nx, ny) == 1.0
    requires Motion(a') == Motion(Exchange(a, b, ElasticImpulse(a, b, nx, ny), nx, ny).0)
    requires Motion(b') == Motion(Exchange(a, b, ElasticImpulse(a, b, nx, ny), nx, ny).1)
    ensures RelativeSpeed(a', b', nx, ny) == -RelativeSpeed(a, b, nx, ny)
  {
    var e := Exchange(a, b, ElasticImpulse(a, b, nx, ny), nx, ny);
    ElasticImpulseScaled(a, b, nx, ny);
    ExchangeReversesSpeed(a, b, ElasticImpulse(a, b, nx, ny), nx, ny);
    MotionKeeps(e.0, e.1, a', b', nx, ny);
  }
}
