/** Constants of the simulator and the scalar helpers the collision code uses
    (Math.abs, Math.min, Math.max, Math.sqrt), with `double` taken as `real`. */
module Numerics {

  /** Size of the simulation area in pixels; the walls are x = 0, x = SIMULATION_WIDTH,
      y = 0 and y = SIMULATION_HEIGHT. */
  const SIMULATION_WIDTH: int := 600
  const SIMULATION_HEIGHT: int := 400

  /** Coefficient of restitution: 1.0 makes every collision perfectly elastic. */
  const RESTITUTION: real := 1.0

  /** A circle whose centre is closer than this to a rectangle counts as having its
      centre inside the rectangle. */
  const EPSILON: real := 0.0001

  function Abs(v: real): (r: real)
    ensures 0.0 <= r
    ensures r == v || r == -v
  {
    if v < 0.0 then -v else v
  }

  function Min(a: real, b: real): (r: real)
    ensures r <= a && r <= b
    ensures r == a || r == b
  {
    if a <= b then a else b
  }

  function Max(a: real, b: real): (r: real)
    ensures a <= r && b <= r
    ensures r == a || r == b
  {
    if a >= b then a else b
  }

  /** Squared length of the vector (x, y). */
  function NormSq(x: real, y: real): real
  {
    x * x + y * y
  }

  /** The coordinate p moved by t along a direction whose component on this axis is n. */
  function Shifted(p: real, n: real, t: real): real
  {
    p + n * t
  }

  /** Shifting commutes with measuring from another coordinate q. */
  lemma ShiftedRelative(p: real, q: real, n: real, t: real)
    ensures Shifted(p, n, t) - q == Shifted(p - q, n, t)
  {
  }

  /** The mass-weighted sum m1*p1 + m2*p2 of two coordinates; over the total mass it is
      the coordinate of the centre of mass. */
  function Moment(m1: real, p1: real, m2: real, p2: real): real
  {
    m1 * p1 + m2 * p2
  }

  /** A number and its absolute value have the same square. */
  lemma AbsSquare(v: real)
    ensures Abs(v) * Abs(v) == v * v
  {
  }

  /** `sqrt` is the platform square root: on every non-negative argument it returns the
      non-negative root. The collision routines take the square root as a parameter; only
      the facts that mention distances need this predicate. */
  ghost predicate IsSqrt(sqrt: real -> real)
  {
    forall v: real :: 0.0 <= v ==> 0.0 <= sqrt(v) && sqrt(v) * sqrt(v) == v
  }

  /** Dividing a product by one of its non-zero factors gives the other factor. */
  lemma DivideProduct(x: real, t: real, v: real)
    requires t != 0.0 && x == t * v
    ensures x / t == v
  {
  }

  /** Squaring is strictly monotone on the non-negative reals. */
  lemma SquareLess(a: real, b: real)
    requires 0.0 <= a < b
    ensures a * a < b * b
  {
    var d := b - a;
    assert 0.0 < d;
    assert b * b == a * a + d * (a + b);
    assert 0.0 < d * (a + b);
  }

  /** The square root of a square is the (non-negative) base. */
  lemma SqrtOfSquare(sqrt: real -> real, v: real, c: real)
    requires IsSqrt(sqrt)
    requires 0.0 <= c && v == c * c
    ensures sqrt(v) == c
  {
    var s := sqrt(v);
    assert 0.0 <= v;
    assert 0.0 <= s && s * s == c * c;
    if s < c {
      SquareLess(s, c);
    } else if c < s {
      SquareLess(c, s);
    }
  }

  /** Comparing a root with a non-negative bound is comparing the radicand with the
      bound's square. */
  lemma SqrtLessIff(sqrt: real -> real, v: real, c: real)
    requires IsSqrt(sqrt)
    requires 0.0 <= v && 0.0 <= c
    ensures sqrt(v) < c <==> v < c * c
  {
    var s := sqrt(v);
    assert 0.0 <= s && s * s == v;
    if s < c {
      SquareLess(s, c);
    } else {
      if c < s {
        SquareLess(c, s);
      }
    }
  }
}
