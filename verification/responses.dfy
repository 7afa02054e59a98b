/** `a.handleCollision(b)` for any two bodies: each shape runs its own routine for the
    other's kind, and a rectangle hands a circle to the circle's routine. */
module Responses {
  import opened Numerics
  import opened Bodies
  import opened Geometry
  import opened CircleCollisions
  import opened CircleRectCollisions
  import opened RectCollisions

  /** The states of a and b after `a.handleCollision(b)`. */
  function Resolve(a: BodyState, b: BodyState, sqrt: real -> real): (r: (BodyState, BodyState))
    requires a.Valid() && b.Valid()
    ensures r.0.SameShape(a) && r.1.SameShape(b)
  {
    match (a.kind, b.kind)
    case (Rect(_, _), Rect(_, _)) => ResolveRects(a, b)
    case (Rect(_, _), Circle(_)) =>
      var p := ResolveCircleRect(b, a, sqrt);
      (p.1, p.0)
    case (Circle(_), Circle(_)) => ResolveCircles(a, b, sqrt)
    case (Circle(_), Rect(_, _)) => ResolveCircleRect(a, b, sqrt)
  }

  /** Whichever of a circle and a rectangle receives the call, the outcome is the same: the
      rectangle delegates to the circle. The rectangle never moves. */
  lemma MixedPairDelegates(a: BodyState, b: BodyState, sqrt: real -> real)
    requires a.Valid() && b.Valid() && a.kind.Rect? && b.kind.Circle?
    ensures Resolve(a, b, sqrt).0 == Resolve(b, a, sqrt).1
    ensures Resolve(a, b, sqrt).1 == Resolve(b, a, sqrt).0
    ensures Resolve(a, b, sqrt).0.x == a.x && Resolve(a, b, sqrt).0.y == a.y
  {
  }

  /** With the real square root, a circle and a rectangle that the overlap test reports
      as apart are left unchanged by the response, in either order. (The circle/circle
      response has no such test of its own: it relies on being called only for pairs the
      detector reported.) */
  lemma MixedPairIgnoredWhenApart(a: BodyState, b: BodyState, sqrt: real -> real)
    requires a.Valid() && b.Valid() && a.kind.Circle? != b.kind.Circle?
    requires IsSqrt(sqrt) && !Collided(a, b, sqrt)
    ensures Resolve(a, b, sqrt) == (a, b)
  {
    if a.kind.Circle? {
      CircleRectActsOnlyOnOverlap(a, b, sqrt);
    } else {
      CircleRectActsOnlyOnOverlap(b, a, sqrt);
    }
  }

  /** Every response keeps the total momentum of the pair, except that a circle whose centre
      is snapped out of a rectangle has one velocity component reflected first; when no
      snap happens (the circle's centre is at least EPSILON from the rectangle) momentum is
      conserved for every pair of kinds. */
  lemma ResolveConservesMomentum(a: BodyState, b: BodyState, sqrt: real -> real)
    requires a.Valid() && b.Valid()
    requires a.kind.Circle? && b.kind.Rect? ==> EPSILON <= RectGap(a, b, sqrt)
    requires a.kind.Rect? && b.kind.Circle? ==> EPSILON <= RectGap(b, a, sqrt)
    ensures var r := Resolve(a, b, sqrt);
            r.0.MomentumX() + r.1.MomentumX() == a.MomentumX() + b.MomentumX() &&
            r.0.MomentumY() + r.1.MomentumY() == a.MomentumY() + b.MomentumY()
  {
    match (a.kind, b.kind)
    case (Rect(_, _), Rect(_, _)) => RectsConserveMomentum(a, b);
    case (Rect(_, _), Circle(_)) =>
      if RectGap(b, a, sqrt) < b.kind.radius {
        ContactKeepsUnsnapped(b, a, sqrt);
        CircleRectConserveMomentum(b, a, sqrt);
      }
    case (Circle(_), Circle(_)) => CirclesConserveMomentum(a, b, sqrt);
    case (Circle(_), Rect(_, _)) =>
      if RectGap(a, b, sqrt) < a.kind.radius {
        ContactKeepsUnsnapped(a, b, sqrt);
        CircleRectConserveMomentum(a, b, sqrt);
      }
  }
}
