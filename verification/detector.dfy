/** The collision detector (`CollisionDetector`): an all-pairs scan over the shape list in
    which the lower-indexed shape of every overlapping pair handles the collision, and a
    pass that applies the wall check to every shape.

    The detector sees the shapes only through their overlap test and their collision
    response (`collidedWith` and `handleCollision`, which every shape kind implements), so
    its value model takes those two as parameters; `Models` says when they are the ones
    the shapes implement. The methods run the same scans over the mutable bodies. */
module Detector {
  import opened Numerics
  import opened Bodies
  import opened Geometry
  import opened Walls
  import opened Responses
  import opened Shapes

  /** An overlap test and a collision response between two bodies. */
  type Test = (BodyState, BodyState) -> bool
  type Response = (BodyState, BodyState) -> (BodyState, BodyState)

  /** `collide` is the shapes' overlap test and `respond` their collision response,
      wherever the response is defined. */
  ghost predicate Models(collide: Test, respond: Response, sqrt: real -> real)
  {
    (forall a: BodyState, b: BodyState {:trigger Collided(a, b, sqrt)} :: collide(a, b) == Collided(a, b, sqrt)) &&
    (forall a: BodyState, b: BodyState {:trigger Resolve(a, b, sqrt)} ::
       a.Valid() && b.Valid() ==> respond(a, b) == Resolve(a, b, sqrt))
  }

  /** The response never changes a mass or a shape. */
  ghost predicate KeepsShapes(respond: Response)
  {
    forall a: BodyState, b: BodyState :: respond(a, b).0.SameShape(a) && respond(a, b).1.SameShape(b)
  }

  /** The overlap test of the shapes, as a value. */
  function ShapesTest(sqrt: real -> real): Test
  {
    (a, b) => Collided(a, b, sqrt)
  }

  /** The collision response of the shapes, as a value; the engine only ever holds bodies
      with positive mass and sizes, and others are left alone. */
  function ShapesResponse(sqrt: real -> real): Response
  {
    (a: BodyState, b: BodyState) => if a.Valid() && b.Valid() then Resolve(a, b, sqrt) else (a, b)
  }

  lemma ShapesModelled(sqrt: real -> real)
    ensures Models(ShapesTest(sqrt), ShapesResponse(sqrt), sqrt)
    ensures KeepsShapes(ShapesResponse(sqrt))
  {
    forall a: BodyState, b: BodyState
      ensures ShapesResponse(sqrt)(a, b).0.SameShape(a) && ShapesResponse(sqrt)(a, b).1.SameShape(b)
    {
      if a.Valid() && b.Valid() {
        var r := Resolve(a, b, sqrt);
        assert r.0.SameShape(a) && r.1.SameShape(b);
      }
    }
  }

  /** Same length, and every body keeps its mass and shape. */
  predicate SameShapes(r: seq<BodyState>, s: seq<BodyState>)
  {
    |r| == |s| && forall k :: 0 <= k < |s| ==> r[k].SameShape(s[k])
  }

  // ---------------------------------------------------------------------------
  // The order in which pairs are visited

  /** The pair of list positions (i, j) handed to `shapes[i].handleCollision(shapes[j])`. */
  datatype Pair = Pair(i: nat, j: nat)

  /** Lexicographic order on pairs. */
  predicate Before(p: Pair, q: Pair)
  {
    p.i < q.i || (p.i == q.i && p.j < q.j)
  }

  /** Strictly increasing in lexicographic order, so no pair occurs twice. */
  predicate InScanOrder(ps: seq<Pair>)
  {
    forall a, b :: 0 <= a < b < |ps| ==> Before(ps[a], ps[b])
  }

  /** The pairs the two nested loops still visit when the outer index is i and the inner
      index is j: (i, j), (i, j+1), ..., (i, n-1), then every later row. */
  function PairsFrom(i: nat, j: nat, n: nat): (ps: seq<Pair>)
    requires i < j
    decreases n - i, n - j
    ensures forall k :: 0 <= k < |ps| ==> i <= ps[k].i < ps[k].j < n && (ps[k].i == i ==> j <= ps[k].j)
  {
    if i >= n then []
    else if j >= n then PairsFrom(i + 1, i + 2, n)
    else [Pair(i, j)] + PairsFrom(i, j + 1, n)
  }

  /** Every pair visited by the scan of a list of n shapes, in visiting order. */
  function PairOrder(n: nat): seq<Pair>
  {
    PairsFrom(0, 1, n)
  }

  /** The pairs of row i from column j on: (i, j), (i, j+1), ..., (i, n-1). */
  function RowPairs(i: nat, j: nat, n: nat): (ps: seq<Pair>)
    requires i < j
    decreases n - j
    ensures forall k :: 0 <= k < |ps| ==> ps[k].i == i && j <= ps[k].j < n
  {
    if j >= n then [] else [Pair(i, j)] + RowPairs(i, j + 1, n)
  }

  /** What is left of the scan is the rest of the current row, then the later rows. */
  lemma {:induction false} PairsFromSplit(i: nat, j: nat, n: nat)
    requires i < j && i < n
    decreases n - j
    ensures PairsFrom(i, j, n) == RowPairs(i, j, n) + PairsFrom(i + 1, i + 2, n)
  {
    var later := PairsFrom(i + 1, i + 2, n);
    if j < n {
      var head, row := [Pair(i, j)], RowPairs(i, j + 1, n);
      PairsFromSplit(i, j + 1, n);
      assert PairsFrom(i, j, n) == head + (row + later);
      assert RowPairs(i, j, n) == head + row;
      assert (head + row) + later == head + (row + later);
    } else {
      assert PairsFrom(i, j, n) == later && RowPairs(i, j, n) == [];
      assert [] + later == later;
    }
  }

  /** The pairs still to come are the rest of row i from j on, and all pairs of later rows. */
  lemma {:induction false} PairsFromMembers(i: nat, j: nat, n: nat, p: Pair)
    requires i < j
    decreases n - i, n - j
    ensures p in PairsFrom(i, j, n) <==> (p.i == i && j <= p.j < n) || (i < p.i < p.j < n)
  {
    if i >= n {
    } else if j >= n {
      PairsFromMembers(i + 1, i + 2, n, p);
    } else {
      PairsFromMembers(i, j + 1, n, p);
    }
  }

  /** A pair before every pair of a sorted run, followed by that run, is sorted. */
  lemma ConsInScanOrder(p: Pair, rest: seq<Pair>)
    requires InScanOrder(rest)
    requires forall k :: 0 <= k < |rest| ==> Before(p, rest[k])
    ensures InScanOrder([p] + rest)
  {
    var ps := [p] + rest;
    forall a, b | 0 <= a < b < |ps|
      ensures Before(ps[a], ps[b])
    {
      if a > 0 {
        assert ps[a] == rest[a - 1] && ps[b] == rest[b - 1];
      }
    }
  }

  /** The pairs still to come are in strictly increasing lexicographic order. */
  lemma {:induction false} PairsFromSorted(i: nat, j: nat, n: nat)
    requires i < j
    decreases n - i, n - j
    ensures InScanOrder(PairsFrom(i, j, n))
  {
    if i >= n {
    } else if j >= n {
      PairsFromSorted(i + 1, i + 2, n);
    } else {
      PairsFromSorted(i, j + 1, n);
      ConsInScanOrder(Pair(i, j), PairsFrom(i, j + 1, n));
    }
  }

  /** The scan visits exactly the pairs (i, j) with i < j < n, each once, in lexicographic
      order. */
  lemma PairOrderExactlyOnce(n: nat)
    ensures forall p :: p in PairOrder(n) <==> p.i < p.j < n
    ensures InScanOrder(PairOrder(n))
    ensures forall a, b :: 0 <= a < b < |PairOrder(n)| ==> PairOrder(n)[a] != PairOrder(n)[b]
  {
    forall p
      ensures p in PairOrder(n) <==> p.i < p.j < n
    {
      PairsFromMembers(0, 1, n, p);
    }
    PairsFromSorted(0, 1, n);
  }

  // ---------------------------------------------------------------------------
  // Resolving the pairs

  /** One visited pair: when the lower-indexed body reports an overlap with the other, on
      their current states, the pair gets the response; every other body is left alone. */
  function StepPair(s: seq<BodyState>, p: Pair, collide: Test, respond: Response): (r: seq<BodyState>)
    requires p.i < p.j < |s|
    ensures |r| == |s|
  {
    if collide(s[p.i], s[p.j]) then
      var res := respond(s[p.i], s[p.j]);
      s[p.i := res.0][p.j := res.1]
    else
      s
  }

  /** A visit touches only the two bodies of its pair, and those only when the test reports
      an overlap, in which case they get the response. */
  lemma StepPairEffect(s: seq<BodyState>, p: Pair, collide: Test, respond: Response)
    requires p.i < p.j < |s|
    ensures var r := StepPair(s, p, collide, respond);
            (forall k :: 0 <= k < |s| && k != p.i && k != p.j ==> r[k] == s[k]) &&
            (!collide(s[p.i], s[p.j]) ==> r == s) &&
            (collide(s[p.i], s[p.j]) ==> (r[p.i], r[p.j]) == respond(s[p.i], s[p.j]))
  {
  }

  /** A list that differs from s only at i and j, where it holds what the visit of (i, j)
      leaves there, is the outcome of that visit. */
  lemma StepPairFromParts(s: seq<BodyState>, r: seq<BodyState>, i: nat, j: nat, collide: Test, respond: Response)
    requires i < j < |s| && |r| == |s|
    requires forall k :: 0 <= k < |s| && k != i && k != j ==> r[k] == s[k]
    requires collide(s[i], s[j]) ==> (r[i], r[j]) == respond(s[i], s[j])
    requires !collide(s[i], s[j]) ==> r[i] == s[i] && r[j] == s[j]
    ensures r == StepPair(s, Pair(i, j), collide, respond)
  {
    var t := StepPair(s, Pair(i, j), collide, respond);
    assert forall k :: 0 <= k < |s| ==> r[k] == t[k];
  }

  predicate PairsIn(ps: seq<Pair>, n: nat)
  {
    forall k :: 0 <= k < |ps| ==> ps[k].i < ps[k].j < n
  }

  /** The visited pairs, one after the other, each on the states the earlier ones left. */
  function ApplyPairs(s: seq<BodyState>, ps: seq<Pair>, collide: Test, respond: Response): (r: seq<BodyState>)
    requires PairsIn(ps, |s|)
    decreases |ps|
    ensures |r| == |s|
  {
    if ps == [] then s
    else ApplyPairs(StepPair(s, ps[0], collide, respond), ps[1..], collide, respond)
  }

  /** The inner loop of the scan for row i, from column j on: (i, j), then the rest of the
      row on what that visit left. */
  function ScanRow(s: seq<BodyState>, i: nat, j: nat, collide: Test, respond: Response): (r: seq<BodyState>)
    requires i < j <= |s|
    decreases |s| - j
    ensures |r| == |s|
  {
    if j == |s| then s else ScanRow(StepPair(s, Pair(i, j), collide, respond), i, j + 1, collide, respond)
  }

  /** One step of the inner loop. */
  lemma ScanRowStep(s: seq<BodyState>, i: nat, j: nat, collide: Test, respond: Response)
    requires i < j < |s|
    ensures ScanRow(s, i, j, collide, respond) == ScanRow(StepPair(s, Pair(i, j), collide, respond), i, j + 1, collide, respond)
  {
  }

  /** The outer loop of the scan from row i on: row i, then the later rows on what it left. */
  function ScanFrom(s: seq<BodyState>, i: nat, collide: Test, respond: Response): (r: seq<BodyState>)
    requires i <= |s|
    decreases |s| - i
    ensures |r| == |s|
  {
    if i == |s| then s else ScanFrom(ScanRow(s, i, i + 1, collide, respond), i + 1, collide, respond)
  }

  /** One step of the outer loop. */
  lemma ScanFromStep(s: seq<BodyState>, i: nat, collide: Test, respond: Response)
    requires i < |s|
    ensures ScanFrom(s, i, collide, respond) == ScanFrom(ScanRow(s, i, i + 1, collide, respond), i + 1, collide, respond)
  {
  }

  /** `detectAndResolveCollisions` on a list of body states. */
  function Detect(s: seq<BodyState>, collide: Test, respond: Response): (r: seq<BodyState>)
    ensures |r| == |s|
  {
    ScanFrom(s, 0, collide, respond)
  }

  /** The inner loop visits the pairs of its row in order. */
  lemma {:induction false} ScanRowVisits(s: seq<BodyState>, i: nat, j: nat, collide: Test, respond: Response)
    requires i < j <= |s|
    decreases |s| - j
    ensures PairsIn(RowPairs(i, j, |s|), |s|)
    ensures ScanRow(s, i, j, collide, respond) == ApplyPairs(s, RowPairs(i, j, |s|), collide, respond)
  {
    if j < |s| {
      var t := StepPair(s, Pair(i, j), collide, respond);
      var rest := RowPairs(i, j + 1, |s|);
      ScanRowVisits(t, i, j + 1, collide, respond);
      assert RowPairs(i, j, |s|) == [Pair(i, j)] + rest;
      assert ([Pair(i, j)] + rest)[0] == Pair(i, j) && ([Pair(i, j)] + rest)[1..] == rest;
    }
  }

  /** Visiting two runs of pairs one after the other is visiting their concatenation. */
  lemma {:induction false} ApplyPairsConcat(s: seq<BodyState>, ps: seq<Pair>, qs: seq<Pair>, collide: Test, respond: Response)
    requires PairsIn(ps, |s|) && PairsIn(qs, |s|)
    decreases |ps|
    ensures PairsIn(ps + qs, |s|)
    ensures ApplyPairs(s, ps + qs, collide, respond) ==
            ApplyPairs(ApplyPairs(s, ps, collide, respond), qs, collide, respond)
  {
    if ps == [] {
      assert ps + qs == qs;
    } else {
      assert (ps + qs)[0] == ps[0];
      assert (ps + qs)[1..] == ps[1..] + qs;
      ApplyPairsConcat(StepPair(s, ps[0], collide, respond), ps[1..], qs, collide, respond);
    }
  }

  /** The scan from row i visits the pairs still to come in order. */
  lemma {:induction false} ScanFromVisits(s: seq<BodyState>, i: nat, collide: Test, respond: Response)
    requires i <= |s|
    decreases |s| - i
    ensures PairsIn(PairsFrom(i, i + 1, |s|), |s|)
    ensures ScanFrom(s, i, collide, respond) == ApplyPairs(s, PairsFrom(i, i + 1, |s|), collide, respond)
  {
    if i < |s| {
      ScanRowVisits(s, i, i + 1, collide, respond);
      ScanFromVisits(ScanRow(s, i, i + 1, collide, respond), i + 1, collide, respond);
      PairsFromSplit(i, i + 1, |s|);
      ApplyPairsConcat(s, RowPairs(i, i + 1, |s|), PairsFrom(i + 1, i + 2, |s|), collide, respond);
    }
  }

  /** The detector visits exactly the pairs of `PairOrder`: every i < j once, in
      lexicographic order. */
  lemma DetectVisitsPairOrder(s: seq<BodyState>, collide: Test, respond: Response)
    ensures PairsIn(PairOrder(|s|), |s|)
    ensures Detect(s, collide, respond) == ApplyPairs(s, PairOrder(|s|), collide, respond)
  {
    ScanFromVisits(s, 0, collide, respond);
  }

  /** Pairs none of which overlaps leave the states as they are. */
  lemma {:induction false} ApplyPairsIdle(s: seq<BodyState>, ps: seq<Pair>, collide: Test, respond: Response)
    requires PairsIn(ps, |s|)
    requires forall k :: 0 <= k < |ps| ==> !collide(s[ps[k].i], s[ps[k].j])
    decreases |ps|
    ensures ApplyPairs(s, ps, collide, respond) == s
  {
    if ps != [] {
      assert StepPair(s, ps[0], collide, respond) == s;
      assert forall k :: 0 <= k < |ps[1..]| ==> ps[1..][k] == ps[k + 1];
      ApplyPairsIdle(s, ps[1..], collide, respond);
    }
  }

  /** A response that keeps masses and shapes makes each visit, and so each scan, keep
      them. */
  lemma StepPairKeepsShapes(s: seq<BodyState>, p: Pair, collide: Test, respond: Response)
    requires p.i < p.j < |s| && KeepsShapes(respond)
    ensures SameShapes(StepPair(s, p, collide, respond), s)
  {
    var r := StepPair(s, p, collide, respond);
    if collide(s[p.i], s[p.j]) {
      assert r[p.i].SameShape(s[p.i]) && r[p.j].SameShape(s[p.j]);
    }
  }


  lemma {:induction false} ScanRowKeepsShapes(s: seq<BodyState>, i: nat, j: nat, collide: Test, respond: Response)
    requires i < j <= |s| && KeepsShapes(respond)
    decreases |s| - j
    ensures SameShapes(ScanRow(s, i, j, collide, respond), s)
  {
    if j < |s| {
      StepPairKeepsShapes(s, Pair(i, j), collide, respond);
      ScanRowKeepsShapes(StepPair(s, Pair(i, j), collide, respond), i, j + 1, collide, respond);
    }
  }

  lemma {:induction false} ScanFromKeepsShapes(s: seq<BodyState>, i: nat, collide: Test, respond: Response)
    requires i <= |s| && KeepsShapes(respond)
    decreases |s| - i
    ensures SameShapes(ScanFrom(s, i, collide, respond), s)
  {
    if i < |s| {
      ScanRowKeepsShapes(s, i, i + 1, collide, respond);
      ScanFromKeepsShapes(ScanRow(s, i, i + 1, collide, respond), i + 1, collide, respond);
    }
  }

  /** The detector never changes a mass or a shape, nor the number of bodies. */
  lemma DetectKeepsShapes(s: seq<BodyState>, collide: Test, respond: Response)
    requires KeepsShapes(respond)
    ensures SameShapes(Detect(s, collide, respond), s)
  {
    ScanFromKeepsShapes(s, 0, collide, respond);
  }

  /** When no two bodies overlap, the detector changes nothing. */
  lemma DetectIdleWhenApart(s: seq<BodyState>, collide: Test, respond: Response)
    requires forall a, b :: 0 <= a < b < |s| ==> !collide(s[a], s[b])
    ensures Detect(s, collide, respond) == s
  {
    DetectVisitsPairOrder(s, collide, respond);
    var ps := PairOrder(|s|);
    forall k | 0 <= k < |ps|
      ensures !collide(s[ps[k].i], s[ps[k].j])
    {
    }
    ApplyPairsIdle(s, ps, collide, respond);
  }

  // ---------------------------------------------------------------------------
  // Walls

  /** `checkWallCollisions` on a list of body states: each body gets the wall check. */
  function WallAll(s: seq<BodyState>, width: int, height: int): (r: seq<BodyState>)
    ensures |r| == |s| && forall k :: 0 <= k < |s| ==> r[k] == WallCorrected(s[k], width, height)
  {
    if s == [] then [] else [WallCorrected(s[0], width, height)] + WallAll(s[1..], width, height)
  }

  /** After the wall pass every body that fits in the area is inside it, and a second pass
      changes nothing. */
  lemma WallAllContains(s: seq<BodyState>, width: int, height: int)
    requires forall k :: 0 <= k < |s| ==> s[k].Valid() && Fits(s[k].kind, width, height)
    ensures forall k :: 0 <= k < |s| ==> Inside(WallAll(s, width, height)[k], width, height)
    ensures WallAll(WallAll(s, width, height), width, height) == WallAll(s, width, height)
  {
    var r := WallAll(s, width, height);
    forall k | 0 <= k < |s|
      ensures Inside(r[k], width, height)
    {
      WallsContain(s[k], width, height);
    }
    forall k | 0 <= k < |s|
      ensures WallAll(r, width, height)[k] == r[k]
    {
      WallsIdleInside(r[k], width, height);
    }
  }

  // ---------------------------------------------------------------------------
  // The scans over the mutable bodies

  /** The current states of a list of bodies. */
  function States(bs: seq<Body>): (s: seq<BodyState>)
    reads bs
    ensures |s| == |bs| && forall k :: 0 <= k < |bs| ==> s[k] == bs[k].State()
  {
    if bs == [] then [] else [bs[0].State()] + States(bs[1..])
  }

  /** No body appears twice in the list. */
  predicate Distinct(bs: seq<Body>)
  {
    forall a, b :: 0 <= a < b < |bs| ==> bs[a] != bs[b]
  }

  predicate BodiesValid(bs: seq<Body>)
  {
    forall k :: 0 <= k < |bs| ==> bs[k].Valid()
  }

  /** `s` lists the current states of the bodies `bs`, position by position. */
  ghost predicate Holds(bs: seq<Body>, s: seq<BodyState>)
    reads bs
  {
    |bs| == |s| && forall k :: 0 <= k < |s| ==> bs[k].State() == s[k]
  }

  lemma HoldsStates(bs: seq<Body>, s: seq<BodyState>)
    ensures Holds(bs, s) <==> States(bs) == s
  {
  }

  /** Every pair i < j in lexicographic order: `shapes[i]` handles the collision with
      `shapes[j]` when it reports an overlap on the states as they are at that moment. */
  method DetectAndResolveCollisions(shapes: seq<Body>, sqrt: real -> real, ghost collide: Test, ghost respond: Response,
                                    ghost before: seq<BodyState>)
    requires Distinct(shapes) && BodiesValid(shapes) && Models(collide, respond, sqrt)
    requires Holds(shapes, before)
    modifies shapes
    ensures Holds(shapes, Detect(before, collide, respond))
  {
    ghost var cur := before;
    ghost var final := ScanFrom(cur, 0, collide, respond);
    var n := |shapes|;
    var i := 0;
    while i < n
      invariant 0 <= i <= n && |cur| == n
      invariant Holds(shapes, cur)
      invariant ScanFrom(cur, i, collide, respond) == final
    {
      ScanFromStep(cur, i, collide, respond);
      ResolveRow(shapes, i, sqrt, collide, respond, cur);
      cur := ScanRow(cur, i, i + 1, collide, respond);
      i := i + 1;
    }
  }

  /** The inner loop for row i: `shapes[i]` against `shapes[i+1]`, ..., `shapes[n-1]`. */
  method ResolveRow(shapes: seq<Body>, i: nat, sqrt: real -> real, ghost collide: Test, ghost respond: Response,
                    ghost before: seq<BodyState>)
    requires Distinct(shapes) && BodiesValid(shapes) && i < |shapes| && Models(collide, respond, sqrt)
    requires Holds(shapes, before)
    modifies shapes
    ensures Holds(shapes, ScanRow(before, i, i + 1, collide, respond))
  {
    var n := |shapes|;
    ghost var cur := before;
    ghost var final := ScanRow(cur, i, i + 1, collide, respond);
    var j := i + 1;
    while j < n
      invariant i + 1 <= j <= n && |cur| == n
      invariant Holds(shapes, cur)
      invariant ScanRow(cur, i, j, collide, respond) == final
    {
      ScanRowStep(cur, i, j, collide, respond);
      VisitPair(shapes, i, j, sqrt, collide, respond, cur);
      cur := StepPair(cur, Pair(i, j), collide, respond);
      j := j + 1;
    }
  }

  /** The body of the inner loop: `shapes[i]` handles the collision with `shapes[j]` when
      it reports an overlap with it. */
  method VisitPair(shapes: seq<Body>, i: nat, j: nat, sqrt: real -> real, ghost collide: Test, ghost respond: Response,
                   ghost before: seq<BodyState>)
    requires Distinct(shapes) && BodiesValid(shapes) && i < j < |shapes| && Models(collide, respond, sqrt)
    requires Holds(shapes, before)
    modifies shapes[i], shapes[j]
    ensures Holds(shapes, StepPair(before, Pair(i, j), collide, respond))
  {
    var shape1, shape2 := shapes[i], shapes[j];
    if Collided(shape1.State(), shape2.State(), sqrt) {
      shape1.HandleCollision(shape2, sqrt);
    }
    StepPairEffect(before, Pair(i, j), collide, respond);
  }

  /** Every shape, in list order, gets the wall check. */
  method CheckWallCollisions(shapes: seq<Body>, width: int, height: int)
    requires Distinct(shapes)
    modifies shapes
    ensures States(shapes) == WallAll(old(States(shapes)), width, height)
  {
    for k := 0 to |shapes|
      invariant forall m :: 0 <= m < k ==> shapes[m].State() == WallCorrected(old(shapes[m].State()), width, height)
      invariant forall m :: k <= m < |shapes| ==> shapes[m].State() == old(shapes[m].State())
    {
      shapes[k].HandleWallCollision(width, height);
    }
  }
}
