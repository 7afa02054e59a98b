/** The overlap tests (`collidedWith`) for the three pairs of shape kinds. */
module Geometry {
  import opened Numerics
  import opened Bodies

  /** Squared Euclidean distance between two points. */
  function Dist2(x1: real, y1: real, x2: real, y2: real): real
  {
    NormSq(x1 - x2, y1 - y2)
  }

  lemma Dist2Symmetric(x1: real, y1: real, x2: real, y2: real)
    ensures Dist2(x1, y1, x2, y2) == Dist2(x2, y2, x1, y1)
    ensures 0.0 <= Dist2(x1, y1, x2, y2)
  {
  }

  /** The squared distance depends only on the coordinate differences. */
  lemma Dist2OfDifferences(x1: real, y1: real, x2: real, y2: real, ex: real, ey: real)
    requires x1 - x2 == ex && y1 - y2 == ey
    ensures Dist2(x1, y1, x2, y2) == NormSq(ex, ey)
  {
  }

  /** The closed region a rectangle covers, its edges included. */
  predicate InRect(r: BodyState, px: real, py: real)
    requires r.kind.Rect?
  {
    r.x <= px <= r.x + r.kind.width && r.y <= py <= r.y + r.kind.height
  }

  // ---------------------------------------------------------------------------
  // Rectangle / rectangle

  /** Axis-aligned box test: the boxes overlap unless one lies strictly beyond the other
      on some axis. */
  predicate RectsOverlap(a: BodyState, b: BodyState)
    requires a.kind.Rect? && b.kind.Rect?
  {
    !(a.x + a.kind.width < b.x ||
      b.x + b.kind.width < a.x ||
      a.y + a.kind.height < b.y ||
      b.y + b.kind.height < a.y)
  }

  lemma RectsOverlapSymmetric(a: BodyState, b: BodyState)
    requires a.kind.Rect? && b.kind.Rect?
    ensures RectsOverlap(a, b) == RectsOverlap(b, a)
  {
  }

  /** The box test holds exactly when the two closed rectangles share a point; in
      particular rectangles that only touch along an edge or at a corner overlap. */
  lemma RectsOverlapIffCommonPoint(a: BodyState, b: BodyState)
    requires a.kind.Rect? && b.kind.Rect? && a.Valid() && b.Valid()
    ensures RectsOverlap(a, b) <==> exists px, py :: InRect(a, px, py) && InRect(b, px, py)
  {
    if RectsOverlap(a, b) {
      var px, py := Max(a.x, b.x), Max(a.y, b.y);
      assert InRect(a, px, py) && InRect(b, px, py);
    }
  }

  // ---------------------------------------------------------------------------
  // Rectangle / circle

  /** `Math.max(lo, Math.min(v, hi))`. */
  function Clamp(v: real, lo: real, hi: real): (r: real)
    ensures lo <= hi ==> lo <= r <= hi
    ensures lo <= v <= hi ==> r == v
    ensures v < lo ==> r == lo
  {
    Max(lo, Min(v, hi))
  }

  /** The clamped value is the point of [lo, hi] nearest to v. */
  lemma ClampNearest(v: real, lo: real, hi: real, q: real)
    requires lo <= q <= hi
    ensures (v - Clamp(v, lo, hi)) * (v - Clamp(v, lo, hi)) <= (v - q) * (v - q)
  {
    var c := Clamp(v, lo, hi);
    if v < lo {
      if q != lo {
        SquareLess(lo - v, q - v);
      }
    } else if hi < v {
      if q != c {
        SquareLess(v - c, v - q);
      }
    } else {
      assert c == v;
    }
  }

  /** The point of the rectangle closest to (cx, cy): each coordinate clamped to the
      rectangle's extent on that axis. */
  function ClosestX(r: BodyState, cx: real): real
    requires r.kind.Rect?
  {
    Clamp(cx, r.x, r.x + r.kind.width)
  }

  function ClosestY(r: BodyState, cy: real): real
    requires r.kind.Rect?
  {
    Clamp(cy, r.y, r.y + r.kind.height)
  }

  /** The clamped point lies in the rectangle and no point of the rectangle is nearer to
      (cx, cy). When (cx, cy) is itself in the rectangle it is its own closest point. */
  lemma ClosestPointNearest(r: BodyState, cx: real, cy: real, px: real, py: real)
    requires r.kind.Rect? && r.Valid()
    requires InRect(r, px, py)
    ensures InRect(r, ClosestX(r, cx), ClosestY(r, cy))
    ensures Dist2(cx, cy, ClosestX(r, cx), ClosestY(r, cy)) <= Dist2(cx, cy, px, py)
    ensures InRect(r, cx, cy) ==> ClosestX(r, cx) == cx && ClosestY(r, cy) == cy
  {
    ClampNearest(cx, r.x, r.x + r.kind.width, px);
    ClampNearest(cy, r.y, r.y + r.kind.height, py);
  }

  /** Rectangle/circle test: the squared distance from the circle's centre to the closest
      point of the rectangle is below the squared radius. */
  predicate RectCircleOverlap(r: BodyState, c: BodyState)
    requires r.kind.Rect? && c.kind.Circle?
  {
    var distanceSquared := Dist2(c.x, c.y, ClosestX(r, c.x), ClosestY(r, c.y));
    distanceSquared < c.kind.radius * c.kind.radius
  }

  /** The rectangle/circle test holds exactly when some point of the (closed) rectangle
      lies strictly inside the circle. */
  lemma RectCircleOverlapIffShared(r: BodyState, c: BodyState)
    requires r.kind.Rect? && c.kind.Circle? && r.Valid()
    ensures RectCircleOverlap(r, c) <==>
            exists px, py :: InRect(r, px, py) && Dist2(c.x, c.y, px, py) < c.kind.radius * c.kind.radius
  {
    var qx, qy := ClosestX(r, c.x), ClosestY(r, c.y);
    ClosestPointNearest(r, c.x, c.y, qx, qy);
    if exists px, py :: InRect(r, px, py) && Dist2(c.x, c.y, px, py) < c.kind.radius * c.kind.radius {
      var px, py :| InRect(r, px, py) && Dist2(c.x, c.y, px, py) < c.kind.radius * c.kind.radius;
      ClosestPointNearest(r, c.x, c.y, px, py);
    }
  }

  // ---------------------------------------------------------------------------
  // Circle / circle

  /** Circle/circle test: the distance between the centres is below the sum of radii. */
  predicate CirclesOverlap(a: BodyState, b: BodyState, sqrt: real -> real)
    requires a.kind.Circle? && b.kind.Circle?
  {
    var distance := sqrt(Dist2(a.x, a.y, b.x, b.y));
    distance < a.kind.radius + b.kind.radius
  }

  /** The circle test does not depend on the order of its arguments, whatever the
      square root routine. */
  lemma CirclesOverlapSymmetric(a: BodyState, b: BodyState, sqrt: real -> real)
    requires a.kind.Circle? && b.kind.Circle?
    ensures CirclesOverlap(a, b, sqrt) == CirclesOverlap(b, a, sqrt)
  {
    Dist2Symmetric(a.x, a.y, b.x, b.y);
  }

  /** With the real square root, the circle test is the comparison of the squared centre
      distance with the squared sum of radii. */
  lemma CirclesOverlapSquared(a: BodyState, b: BodyState, sqrt: real -> real)
    requires a.kind.Circle? && b.kind.Circle? && a.Valid() && b.Valid()
    requires IsSqrt(sqrt)
    ensures CirclesOverlap(a, b, sqrt) <==>
            Dist2(a.x, a.y, b.x, b.y) < (a.kind.radius + b.kind.radius) * (a.kind.radius + b.kind.radius)
  {
    Dist2Symmetric(a.x, a.y, b.x, b.y);
    SqrtLessIff(sqrt, Dist2(a.x, a.y, b.x, b.y), a.kind.radius + b.kind.radius);
  }

  // ---------------------------------------------------------------------------
  // Dispatch

  /** `a.collidedWith(b)`: a rectangle runs the test for the other's kind; a circle runs
      the circle test against a circle and hands a rectangle's test to the rectangle. */
  predicate Collided(a: BodyState, b: BodyState, sqrt: real -> real)
  {
    match (a.kind, b.kind)
    case (Rect(_, _), Rect(_, _)) => RectsOverlap(a, b)
    case (Rect(_, _), Circle(_)) => RectCircleOverlap(a, b)
    case (Circle(_), Circle(_)) => CirclesOverlap(a, b, sqrt)
    case (Circle(_), Rect(_, _)) => RectCircleOverlap(b, a)
  }

  /** Whatever the pair of kinds, the overlap test gives the same answer in both argument
      orders. */
  lemma CollidedSymmetric(a: BodyState, b: BodyState, sqrt: real -> real)
    ensures Collided(a, b, sqrt) == Collided(b, a, sqrt)
  {
    match (a.kind, b.kind)
    case (Rect(_, _), Rect(_, _)) => RectsOverlapSymmetric(a, b);
    case (Rect(_, _), Circle(_)) =>
    case (Circle(_), Circle(_)) => CirclesOverlapSymmetric(a, b, sqrt);
    case (Circle(_), Rect(_, _)) =>
  }
}
