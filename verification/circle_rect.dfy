/** Collision response of a circle against a rectangle (the rectangle branch of
    `Circle.handleCollision`). The circle is pushed out of the rectangle when its centre is
    (nearly) inside, then the two exchange an impulse along the contact normal and a circle
    that still overlaps is moved out along that normal. The rectangle's position is never
    changed; only its velocity is. */
module CircleRectCollisions {
  import opened Numerics
  import opened Bodies
  import opened Geometry
  import opened Impulses
  import opened CircleCollisions

  /** A side of a rectangle. The order Left, Right, Top, Bottom is the order in which the
      routine tests them. */
  datatype Face = Left | Right | Top | Bottom
  {
    function Rank(): nat
    {
      match this
      case Left => 0
      case Right => 1
      case Top => 2
      case Bottom => 3
    }

    /** The outward unit normal of the side (y grows downwards). */
    function NX(): real
    {
      match this
      case Left => -1.0
      case Right => 1.0
      case _ => 0.0
    }

    function NY(): real
    {
      match this
      case Top => -1.0
      case Bottom => 1.0
      case _ => 0.0
    }
  }

  /** Distance from the circle's centre to the line of one side, measured inwards. */
  function FaceDistance(c: BodyState, r: BodyState, f: Face): real
    requires r.kind.Rect?
  {
    match f
    case Left => c.x - r.x
    case Right => (r.x + r.kind.width) - c.x
    case Top => c.y - r.y
    case Bottom => (r.y + r.kind.height) - c.y
  }

  /** The side nearest to the circle's centre; ties go to the side tested first. */
  function NearestFace(c: BodyState, r: BodyState): (f: Face)
    requires r.kind.Rect?
    ensures forall g: Face :: FaceDistance(c, r, f) <= FaceDistance(c, r, g)
    ensures forall g: Face :: FaceDistance(c, r, g) == FaceDistance(c, r, f) ==> f.Rank() <= g.Rank()
  {
    var distLeft := FaceDistance(c, r, Left);
    var distRight := FaceDistance(c, r, Right);
    var distTop := FaceDistance(c, r, Top);
    var distBottom := FaceDistance(c, r, Bottom);
    var minDist := Min(Min(distLeft, distRight), Min(distTop, distBottom));
    if minDist == distLeft then Left
    else if minDist == distRight then Right
    else if minDist == distTop then Top
    else Bottom
  }

  /** The circle placed just outside the given side, touching it, with its velocity
      component across that side turned outwards. */
  function Snapped(c: BodyState, r: BodyState, f: Face): (s: BodyState)
    requires c.kind.Circle? && r.kind.Rect?
    ensures s.SameShape(c)
  {
    match f
    case Left => c.(x := r.x - c.kind.radius, vx := -Abs(c.vx))
    case Right => c.(x := r.x + r.kind.width + c.kind.radius, vx := Abs(c.vx))
    case Top => c.(y := r.y - c.kind.radius, vy := -Abs(c.vy))
    case Bottom => c.(y := r.y + r.kind.height + c.kind.radius, vy := Abs(c.vy))
  }

  /** Distance from the circle's centre to the closest point of the rectangle, as the
      routine computes it. */
  function RectGap(c: BodyState, r: BodyState, sqrt: real -> real): real
    requires r.kind.Rect?
  {
    sqrt(Dist2(c.x, c.y, ClosestX(r, c.x), ClosestY(r, c.y)))
  }

  /** The circle as the impulse sees it, and the contact normal pointing from the
      rectangle towards the circle. */
  datatype Contact = Contact(body: BodyState, nx: real, ny: real)

  /** A centre closer than EPSILON to the rectangle is snapped out through the nearest side,
      whose outward normal becomes the contact normal; otherwise the circle is untouched and
      the normal is the offset from the closest point, divided by the distance. */
  function ContactOf(c: BodyState, r: BodyState, sqrt: real -> real): (k: Contact)
    requires c.kind.Circle? && r.kind.Rect?
    ensures k.body.SameShape(c)
  {
    var distance := RectGap(c, r, sqrt);
    if distance < EPSILON then
      var f := NearestFace(c, r);
      Contact(Snapped(c, r, f), f.NX(), f.NY())
    else
      Contact(c, (c.x - ClosestX(r, c.x)) / distance, (c.y - ClosestY(r, c.y)) / distance)
  }

  /** Velocity of the circle relative to the rectangle along the contact normal; positive
      means the circle is moving away. */
  function ContactSpeed(k: Contact, r: BodyState): real
  {
    RelativeSpeed(r, k.body, k.nx, k.ny)
  }

  /** The impulse: twice the contact speed over the total mass. */
  function ContactImpulse(k: Contact, r: BodyState): real
    requires 0.0 < k.body.mass + r.mass
  {
    2.0 * ContactSpeed(k, r) / (k.body.mass + r.mass)
  }

  /** The push-out after the impulse: a circle that was not snapped (its centre was more
      than EPSILON from the rectangle) and still overlaps is moved along the normal by the
      overlap. `distance` is the centre's distance to the rectangle before the snap. */
  function PushedOut(c: BodyState, nx: real, ny: real, distance: real): (s: BodyState)
    requires c.kind.Circle?
    ensures Motion(s) == Motion(c)
  {
    if distance > EPSILON then
      var overlap := c.kind.radius - distance;
      if overlap > 0.0 then c.(x := c.x + nx * overlap, y := c.y + ny * overlap)
      else c
    else c
  }

  /** What follows the contact: a circle moving away keeps only the snap; otherwise the
      rectangle and the circle exchange the impulse along the normal (the circle loses the
      impulse times the rectangle's mass, the rectangle gains it times the circle's mass)
      and the circle is pushed out. */
  function Respond(k: Contact, r: BodyState, distance: real): (res: (BodyState, BodyState))
    requires k.body.kind.Circle? && 0.0 < k.body.mass + r.mass
    ensures res.0.SameShape(k.body) && res.1.SameShape(r)
    ensures res.1.x == r.x && res.1.y == r.y
  {
    if ContactSpeed(k, r) > 0.0 then (k.body, r)
    else
      var e := Exchange(r, k.body, ContactImpulse(k, r), k.nx, k.ny);
      (PushedOut(e.1, k.nx, k.ny, distance), e.0)
  }

  /** `circle.handleCollision(rect)`: nothing happens when the centre is at least a radius
      from the rectangle; otherwise the contact is formed and responded to. */
  function ResolveCircleRect(c: BodyState, r: BodyState, sqrt: real -> real): (res: (BodyState, BodyState))
    requires c.kind.Circle? && r.kind.Rect? && 0.0 < c.mass + r.mass
    ensures res.0.SameShape(c) && res.1.SameShape(r)
    ensures res.1.x == r.x && res.1.y == r.y
  {
    var distance := RectGap(c, r, sqrt);
    if distance >= c.kind.radius then (c, r)
    else Respond(ContactOf(c, r, sqrt), r, distance)
  }

  // ---------------------------------------------------------------------------
  // Properties of the response to a contact

  /** A circle moving away from the rectangle keeps only the effect of the snap; the
      rectangle is untouched. */
  lemma RespondSeparating(k: Contact, r: BodyState, distance: real)
    requires k.body.kind.Circle? && 0.0 < k.body.mass + r.mass
    requires ContactSpeed(k, r) > 0.0
    ensures Respond(k, r, distance) == (k.body, r)
  {
  }

  /** A circle whose centre was within EPSILON of the rectangle is never pushed out: the
      response leaves it where the snap put it. */
  lemma RespondKeepsSnappedPlace(k: Contact, r: BodyState, distance: real)
    requires k.body.kind.Circle? && 0.0 < k.body.mass + r.mass
    requires distance <= EPSILON
    ensures Respond(k, r, distance).0.x == k.body.x && Respond(k, r, distance).0.y == k.body.y
    ensures Respond(k, r, distance).0.kind == k.body.kind
  {
  }

  /** The contact impulse is the elastic impulse along the contact normal. */
  lemma ContactImpulseIsElastic(k: Contact, r: BodyState)
    requires 0.0 < k.body.mass + r.mass
    ensures ContactImpulse(k, r) == ElasticImpulse(r, k.body, k.nx, k.ny)
  {
  }

  /** An approaching circle and the rectangle move on as the exchange of the contact
      impulse along the normal leaves them, whatever the push-out did. */
  lemma RespondNewVelocities(k: Contact, r: BodyState, distance: real)
    requires k.body.kind.Circle? && 0.0 < k.body.mass + r.mass
    requires ContactSpeed(k, r) <= 0.0
    ensures var res := Respond(k, r, distance);
            var e := Exchange(r, k.body, ContactImpulse(k, r), k.nx, k.ny);
            Motion(res.1) == Motion(e.0) && Motion(res.0) == Motion(e.1)
  {
  }

  /** The response keeps the total momentum on both axes. */
  lemma RespondConservesMomentum(k: Contact, r: BodyState, distance: real)
    requires k.body.kind.Circle? && 0.0 < k.body.mass + r.mass
    ensures var res := Respond(k, r, distance);
            res.1.MomentumX() + res.0.MomentumX() == r.MomentumX() + k.body.MomentumX() &&
            res.1.MomentumY() + res.0.MomentumY() == r.MomentumY() + k.body.MomentumY()
  {
    if ContactSpeed(k, r) <= 0.0 {
      var res := Respond(k, r, distance);
      RespondNewVelocities(k, r, distance);
      ExchangeLikeConservesMomentum(r, k.body, res.1, res.0, ContactImpulse(k, r), k.nx, k.ny);
    } else {
      RespondSeparating(k, r, distance);
    }
  }

  /** Along a unit normal the response is elastic: it keeps the total kinetic energy. */
  lemma RespondKeepsEnergy(k: Contact, r: BodyState, distance: real)
    requires k.body.kind.Circle? && 0.0 < k.body.mass + r.mass
    requires NormSq(k.nx, k.ny) == 1.0
    ensures Respond(k, r, distance).1.Energy() + Respond(k, r, distance).0.Energy() == r.Energy() + k.body.Energy()
  {
    if ContactSpeed(k, r) <= 0.0 {
      RespondNewVelocities(k, r, distance);
      ContactImpulseIsElastic(k, r);
      ExchangeLikeKeepsEnergy(r, k.body, Respond(k, r, distance).1, Respond(k, r, distance).0, k.nx, k.ny);
    } else {
      RespondSeparating(k, r, distance);
    }
  }

  /** Along a unit normal an approaching circle leaves with its normal speed relative to
      the rectangle reversed. */
  lemma RespondReversesSpeed(k: Contact, r: BodyState, distance: real)
    requires k.body.kind.Circle? && 0.0 < k.body.mass + r.mass
    requires NormSq(k.nx, k.ny) == 1.0 && ContactSpeed(k, r) <= 0.0
    ensures var res := Respond(k, r, distance);
            RelativeSpeed(res.1, res.0, k.nx, k.ny) == -ContactSpeed(k, r)
  {
    var res := Respond(k, r, distance);
    RespondNewVelocities(k, r, distance);
    ContactImpulseIsElastic(k, r);
    ExchangeLikeReversesSpeed(r, k.body, res.1, res.0, k.nx, k.ny);
  }

  /** A circle more than EPSILON but less than its radius from the rectangle is moved by
      the overlap along the normal. */
  lemma PushedOutMoves(c: BodyState, nx: real, ny: real, distance: real)
    requires c.kind.Circle? && EPSILON < distance < c.kind.radius
    ensures PushedOut(c, nx, ny, distance).x == Shifted(c.x, nx, c.kind.radius - distance)
    ensures PushedOut(c, nx, ny, distance).y == Shifted(c.y, ny, c.kind.radius - distance)
  {
  }

  /** Where an unsnapped, approaching, overlapping circle ends up: moved along the normal by
      the overlap. */
  lemma RespondPushOut(k: Contact, r: BodyState, distance: real)
    requires k.body.kind.Circle? && 0.0 < k.body.mass + r.mass
    requires ContactSpeed(k, r) <= 0.0 && EPSILON < distance < k.body.kind.radius
    ensures var res := Respond(k, r, distance);
            res.0.x == Shifted(k.body.x, k.nx, k.body.kind.radius - distance) &&
            res.0.y == Shifted(k.body.y, k.ny, k.body.kind.radius - distance)
  {
    PushedOutMoves(Exchange(r, k.body, ContactImpulse(k, r), k.nx, k.ny).1, k.nx, k.ny, distance);
  }

  // ---------------------------------------------------------------------------
  // Properties of the whole response

  /** With the real square root the response acts exactly when the detection test reports
      an overlap: a circle the test says is clear of the rectangle is left alone. */
  lemma CircleRectActsOnlyOnOverlap(c: BodyState, r: BodyState, sqrt: real -> real)
    requires c.kind.Circle? && r.kind.Rect? && c.Valid() && r.Valid()
    requires IsSqrt(sqrt)
    ensures RectGap(c, r, sqrt) < c.kind.radius <==> RectCircleOverlap(r, c)
    ensures !RectCircleOverlap(r, c) ==> ResolveCircleRect(c, r, sqrt) == (c, r)
  {
    var qx, qy := ClosestX(r, c.x), ClosestY(r, c.y);
    Dist2Symmetric(c.x, c.y, qx, qy);
    SqrtLessIff(sqrt, Dist2(c.x, c.y, qx, qy), c.kind.radius);
  }

  /** A circle that is not snapped reaches the impulse unchanged. */
  lemma ContactKeepsUnsnapped(c: BodyState, r: BodyState, sqrt: real -> real)
    requires c.kind.Circle? && r.kind.Rect?
    requires EPSILON <= RectGap(c, r, sqrt)
    ensures ContactOf(c, r, sqrt).body == c
  {
  }

  /** A snapped circle lies outside the rectangle, touching the chosen side: the detection
      test no longer reports an overlap. */
  lemma SnappedClear(c: BodyState, r: BodyState, f: Face)
    requires c.kind.Circle? && r.kind.Rect? && c.Valid() && r.Valid()
    ensures !RectCircleOverlap(r, Snapped(c, r, f))
  {
    var s := Snapped(c, r, f);
    var rad := c.kind.radius;
    var qx, qy := ClosestX(r, s.x), ClosestY(r, s.y);
    match f
    case Left =>
      assert s.x - qx == -rad;
      assert (s.x - qx) * (s.x - qx) == rad * rad;
    case Right =>
      assert s.x - qx == rad;
    case Top =>
      assert s.y - qy == -rad;
      assert (s.y - qy) * (s.y - qy) == rad * rad;
    case Bottom =>
      assert s.y - qy == rad;
  }

  /** The snap places the centre one radius outside the chosen side, turns the velocity
      component across that side outwards without changing its size, and leaves the other
      coordinate and velocity component alone; the kinetic energy is therefore unchanged. */
  lemma SnappedOutward(c: BodyState, r: BodyState, f: Face)
    requires c.kind.Circle? && r.kind.Rect?
    ensures FaceDistance(Snapped(c, r, f), r, f) == -c.kind.radius
    ensures f == Left ==> Snapped(c, r, f).vx <= 0.0 && Abs(Snapped(c, r, f).vx) == Abs(c.vx)
    ensures f == Right ==> Snapped(c, r, f).vx >= 0.0 && Abs(Snapped(c, r, f).vx) == Abs(c.vx)
    ensures f == Top ==> Snapped(c, r, f).vy <= 0.0 && Abs(Snapped(c, r, f).vy) == Abs(c.vy)
    ensures f == Bottom ==> Snapped(c, r, f).vy >= 0.0 && Abs(Snapped(c, r, f).vy) == Abs(c.vy)
    ensures f.NX() != 0.0 ==> Snapped(c, r, f).y == c.y && Snapped(c, r, f).vy == c.vy
    ensures f.NY() != 0.0 ==> Snapped(c, r, f).x == c.x && Snapped(c, r, f).vx == c.vx
    ensures Snapped(c, r, f).Energy() == c.Energy()
  {
    AbsSquare(c.vx);
    AbsSquare(c.vy);
  }

  /** Forming the contact never changes the circle's kinetic energy: a snap only flips the
      sign of one velocity component. */
  lemma ContactKeepsEnergy(c: BodyState, r: BodyState, sqrt: real -> real)
    requires c.kind.Circle? && r.kind.Rect?
    ensures ContactOf(c, r, sqrt).body.Energy() == c.Energy()
  {
    if RectGap(c, r, sqrt) < EPSILON {
      SnappedOutward(c, r, NearestFace(c, r));
    }
  }

  /** With the real square root the contact normal is a unit vector. */
  lemma ContactNormalUnit(c: BodyState, r: BodyState, sqrt: real -> real)
    requires c.kind.Circle? && r.kind.Rect?
    requires IsSqrt(sqrt)
    ensures var k := ContactOf(c, r, sqrt);
            NormSq(k.nx, k.ny) == 1.0
  {
    var d := RectGap(c, r, sqrt);
    if EPSILON <= d {
      var qx, qy := ClosestX(r, c.x), ClosestY(r, c.y);
      Dist2Symmetric(c.x, c.y, qx, qy);
      UnitVector(c.x - qx, c.y - qy, d);
    }
  }

  /** The response keeps the total momentum of the rectangle and the circle as it stands
      after the snap (a snap itself reflects one velocity component of the circle). */
  lemma CircleRectConserveMomentum(c: BodyState, r: BodyState, sqrt: real -> real)
    requires c.kind.Circle? && r.kind.Rect? && c.Valid() && r.Valid()
    requires RectGap(c, r, sqrt) < c.kind.radius
    ensures var res := ResolveCircleRect(c, r, sqrt);
            var k := ContactOf(c, r, sqrt);
            res.0.MomentumX() + res.1.MomentumX() == k.body.MomentumX() + r.MomentumX() &&
            res.0.MomentumY() + res.1.MomentumY() == k.body.MomentumY() + r.MomentumY()
  {
    RespondConservesMomentum(ContactOf(c, r, sqrt), r, RectGap(c, r, sqrt));
  }

  /** With the real square root the response is elastic: the circle and the rectangle keep
      their total kinetic energy, snap included. */
  lemma CircleRectKeepsEnergy(c: BodyState, r: BodyState, sqrt: real -> real)
    requires c.kind.Circle? && r.kind.Rect? && c.Valid() && r.Valid()
    requires IsSqrt(sqrt) && RectGap(c, r, sqrt) < c.kind.radius
    ensures ResolveCircleRect(c, r, sqrt).0.Energy() + ResolveCircleRect(c, r, sqrt).1.Energy() ==
            c.Energy() + r.Energy()
  {
    ContactNormalUnit(c, r, sqrt);
    RespondKeepsEnergy(ContactOf(c, r, sqrt), r, RectGap(c, r, sqrt));
    ContactKeepsEnergy(c, r, sqrt);
  }

  /** Moving a point further along the ray from its clamped image does not change the
      image: for lo <= hi and t >= 0, v + (v - Clamp(v))/d*t clamps to Clamp(v). */
  lemma ClampAlongRay(v: real, w: real, lo: real, hi: real, d: real, t: real)
    requires lo <= hi && 0.0 < d && 0.0 <= t
    requires w == Shifted(v, (v - Clamp(v, lo, hi)) / d, t)
    ensures Clamp(w, lo, hi) == Clamp(v, lo, hi)
  {
    var e := v - Clamp(v, lo, hi);
    if e < 0.0 {
      assert e / d < 0.0;
      assert e / d * t <= 0.0;
    } else if e > 0.0 {
      assert e / d > 0.0;
      assert e / d * t >= 0.0;
    }
  }

  /** Where an unsnapped, approaching, overlapping circle ends up. */
  lemma CircleRectNewPosition(c: BodyState, r: BodyState, sqrt: real -> real)
    requires c.kind.Circle? && r.kind.Rect? && c.Valid() && r.Valid()
    requires EPSILON < RectGap(c, r, sqrt) < c.kind.radius
    requires ContactSpeed(ContactOf(c, r, sqrt), r) <= 0.0
    ensures var res := ResolveCircleRect(c, r, sqrt);
            var d := RectGap(c, r, sqrt);
            res.0.x == Shifted(c.x, (c.x - ClosestX(r, c.x)) / d, c.kind.radius - d) &&
            res.0.y == Shifted(c.y, (c.y - ClosestY(r, c.y)) / d, c.kind.radius - d)
  {
    RespondPushOut(ContactOf(c, r, sqrt), r, RectGap(c, r, sqrt));
  }

  /** Moving a point outwards along the offset from its closest point of the rectangle
      keeps that closest point. */
  lemma PushOutKeepsClosest(r: BodyState, cx: real, cy: real, px: real, py: real, d: real, t: real)
    requires r.kind.Rect? && r.Valid()
    requires 0.0 < d && 0.0 <= t
    requires px == Shifted(cx, (cx - ClosestX(r, cx)) / d, t)
    requires py == Shifted(cy, (cy - ClosestY(r, cy)) / d, t)
    ensures ClosestX(r, px) == ClosestX(r, cx) && ClosestY(r, py) == ClosestY(r, cy)
  {
    ClampAlongRay(cx, px, r.x, r.x + r.kind.width, d, t);
    ClampAlongRay(cy, py, r.y, r.y + r.kind.height, d, t);
  }

  /** Moving a centre at distance d from the rectangle outwards along the unit offset from
      its closest point, by rad - d, leaves it at distance rad. */
  lemma PushOutTouches(sqrt: real -> real, r: BodyState, cx: real, cy: real, px: real, py: real,
                       d: real, rad: real)
    requires r.kind.Rect? && r.Valid() && IsSqrt(sqrt)
    requires d == sqrt(Dist2(cx, cy, ClosestX(r, cx), ClosestY(r, cy)))
    requires 0.0 < d <= rad
    requires px == Shifted(cx, (cx - ClosestX(r, cx)) / d, rad - d)
    requires py == Shifted(cy, (cy - ClosestY(r, cy)) / d, rad - d)
    ensures sqrt(Dist2(px, py, ClosestX(r, px), ClosestY(r, py))) == rad
  {
    var qx, qy := ClosestX(r, cx), ClosestY(r, cy);
    PushOutKeepsClosest(r, cx, cy, px, py, d, rad - d);
    ShiftedRelative(cx, qx, (cx - qx) / d, rad - d);
    ShiftedRelative(cy, qy, (cy - qy) / d, rad - d);
    RescaledDistance(sqrt, qx, qy, px, py, cx - qx, cy - qy, d, rad);
  }

  /** With the real square root, an unsnapped circle that overlaps the rectangle and moves
      towards it ends exactly touching it: its distance to the rectangle afterwards is its
      radius. */
  lemma CircleRectEndTouching(c: BodyState, r: BodyState, sqrt: real -> real)
    requires c.kind.Circle? && r.kind.Rect? && c.Valid() && r.Valid()
    requires IsSqrt(sqrt)
    requires EPSILON < RectGap(c, r, sqrt) < c.kind.radius
    requires ContactSpeed(ContactOf(c, r, sqrt), r) <= 0.0
    ensures RectGap(ResolveCircleRect(c, r, sqrt).0, r, sqrt) == c.kind.radius
  {
    CircleRectNewPosition(c, r, sqrt);
    PushOutTouches(sqrt, r, c.x, c.y, ResolveCircleRect(c, r, sqrt).0.x, ResolveCircleRect(c, r, sqrt).0.y,
                   RectGap(c, r, sqrt), c.kind.radius);
  }

  /** The detection test looks only at the circle's place and size. */
  lemma OverlapFollowsPlace(r: BodyState, a: BodyState, b: BodyState)
    requires r.kind.Rect? && a.kind.Circle?
    requires a.x == b.x && a.y == b.y && a.kind == b.kind
    ensures RectCircleOverlap(r, a) == RectCircleOverlap(r, b)
  {
  }

  /** A circle whose centre was snapped ends outside the rectangle, whatever the impulse
      did to its velocity. */
  lemma CircleRectSnapClears(c: BodyState, r: BodyState, sqrt: real -> real)
    requires c.kind.Circle? && r.kind.Rect? && c.Valid() && r.Valid()
    requires RectGap(c, r, sqrt) < EPSILON && RectGap(c, r, sqrt) < c.kind.radius
    ensures !RectCircleOverlap(r, ResolveCircleRect(c, r, sqrt).0)
  {
    assert ContactOf(c, r, sqrt).body == Snapped(c, r, NearestFace(c, r));
    RespondKeepsSnappedPlace(ContactOf(c, r, sqrt), r, RectGap(c, r, sqrt));
    SnappedClear(c, r, NearestFace(c, r));
    OverlapFollowsPlace(r, Snapped(c, r, NearestFace(c, r)), ResolveCircleRect(c, r, sqrt).0);
  }
}
