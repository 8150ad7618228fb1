/** The value-level meaning of the circle tests of plugins/sat/collision.js:
    `testCircleCircle`, `vornoiRegion` and the per-edge decision of `testPolygonCircle`,
    both as written and as evidently intended. */
module CircleTests {
  import opened JsValues
  import opened Vectors
  import opened Polygons
  import opened Responses

  lemma ProductNonNegative(a: real, b: real)
    requires 0.0 <= a && 0.0 <= b
    ensures 0.0 <= a * b
  {
    if a == 0.0 {
      assert a * b == 0.0 * b;
    }
  }

  lemma SquareMonotone(a: real, b: real)
    requires 0.0 <= a <= b
    ensures a * a <= b * b
  {
    ProductNonNegative(b - a, b + a);
    assert (b - a) * (b + a) == b * b - a * a;
  }

  lemma SquareStrictlyMonotone(a: real, b: real)
    requires 0.0 <= a < b
    ensures a * a < b * b
  {
    ProductPositive(b - a, b + a);
    assert (b - a) * (b + a) == b * b - a * a;
  }

  lemma ProductPositive(a: real, b: real)
    requires 0.0 < a && 0.0 < b
    ensures 0.0 < a * b
  {
    assert b == (a * b) / a;
  }

  // ---- testCircleCircle ----

  /** `testCircleCircle` reports no intersection when the squared distance between the
      centres exceeds the squared sum of the radii. */
  predicate CirclesApart(aPos: Vec, ar: real, bPos: Vec, br: real)
  {
    SquaredLength(Minus(bPos, aPos)) > (ar + br) * (ar + br)
  }

  lemma {:induction false} CirclesApartSymmetric(aPos: Vec, ar: real, bPos: Vec, br: real)
    ensures CirclesApart(aPos, ar, bPos, br) == CirclesApart(bPos, br, aPos, ar)
  {
    var d := Minus(bPos, aPos);
    assert Minus(aPos, bPos) == Negated(d);
    assert (-d.x) * (-d.x) == d.x * d.x;
    assert (-d.y) * (-d.y) == d.y * d.y;
    assert (ar + br) * (ar + br) == (br + ar) * (br + ar);
  }

  /** With non-negative radii, comparing squares is comparing the distance itself with the
      sum of the radii. */
  lemma {:induction false} CirclesApartIffFar(sqrt: real -> real, aPos: Vec, ar: real, bPos: Vec, br: real)
    requires IsSqrt(sqrt)
    requires 0.0 <= ar + br
    ensures CirclesApart(aPos, ar, bPos, br) <==> sqrt(SquaredLength(Minus(bPos, aPos))) > ar + br
  {
    var d2 := SquaredLength(Minus(bPos, aPos));
    SquaredLengthNonNegative(Minus(bPos, aPos));
    var dist := sqrt(d2);
    assert 0.0 <= dist && dist * dist == d2;
    var total := ar + br;
    if dist > total {
      SquareStrictlyMonotone(total, dist);
    } else {
      SquareMonotone(dist, total);
    }
  }

  /** The containment flags of `testCircleCircle` for intersecting circles at distance
      `dist`: A is inside B when A is no larger and its far side stays within B. */
  function CircleInCircle(dist: real, inner: real, outer: real): (r: bool)
    ensures r ==> dist + inner <= outer
  {
    inner <= outer && dist <= outer - inner
  }

  /** The response `testCircleCircle` fills in for circles whose centres differ by `d`:
      the overlap is the sum of the radii less the distance, along the unit vector of `d`. */
  function CircleContact(d: Vec, ar: real, br: real, sqrt: real -> real): (t: Tally)
    ensures t.overlapN == Unit(d, sqrt)
    ensures t.aInB ==> sqrt(SquaredLength(d)) + ar <= br
    ensures t.bInA ==> sqrt(SquaredLength(d)) + br <= ar
  {
    var dist := sqrt(SquaredLength(d));
    Tally(ar + br - dist, Unit(d, sqrt), CircleInCircle(dist, ar, br), CircleInCircle(dist, br, ar))
  }

  /** Each circle lies inside the other only when they coincide. */
  lemma MutualContainmentMeansEqual(dist: real, ar: real, br: real)
    requires 0.0 <= dist
    requires CircleInCircle(dist, ar, br) && CircleInCircle(dist, br, ar)
    ensures ar == br && dist == 0.0
  {
  }

  /** The overlap `testCircleCircle` reports for non-negative radii is never negative. */
  lemma {:induction false} CircleOverlapNonNegative(sqrt: real -> real, aPos: Vec, ar: real, bPos: Vec, br: real)
    requires IsSqrt(sqrt)
    requires 0.0 <= ar + br
    requires !CirclesApart(aPos, ar, bPos, br)
    ensures 0.0 <= CircleContact(Minus(bPos, aPos), ar, br, sqrt).overlap
  {
    CirclesApartIffFar(sqrt, aPos, ar, bPos, br);
  }

  /** Testing the circles the other way round gives the same contact seen from the other
      side: the same overlap, the normal reversed and the containment flags exchanged. */
  lemma {:induction false} CircleContactSwapped(aPos: Vec, ar: real, bPos: Vec, br: real, sqrt: real -> real)
    ensures CircleContact(Minus(aPos, bPos), br, ar, sqrt) == Swapped(CircleContact(Minus(bPos, aPos), ar, br, sqrt))
  {
    var d := Minus(bPos, aPos);
    assert Minus(aPos, bPos) == Negated(d);
    assert SquaredLength(Negated(d)) == SquaredLength(d);
    UnitOfNegated(d, sqrt);
  }

  // ---- vornoiRegion ----

  const LeftRegion: int := -1
  const MiddleRegion: int := 0
  const RightRegion: int := 1

  /** Where a point lies relative to a segment from the origin to `line`: before its start,
      beyond its end, or level with it (ends included). */
  function VornoiRegion(line: Vec, point: Vec): (r: int)
    ensures r == LeftRegion <==> DotProduct(point, line) < 0.0
    ensures r == RightRegion <==> 0.0 <= DotProduct(point, line) && DotProduct(point, line) > SquaredLength(line)
    ensures r == MiddleRegion <==> 0.0 <= DotProduct(point, line) <= SquaredLength(line)
  {
    var len2 := SquaredLength(line);
    var dp := DotProduct(point, line);
    if dp < 0.0 then LeftRegion
    else if dp > len2 then RightRegion
    else MiddleRegion
  }

  /** Every point of the segment itself is in the middle region. */
  lemma {:induction false} SegmentIsMiddle(line: Vec, t: real)
    requires 0.0 <= t <= 1.0
    ensures VornoiRegion(line, Times(line, t)) == MiddleRegion
  {
    var len2 := SquaredLength(line);
    SquaredLengthNonNegative(line);
    assert DotProduct(Times(line, t), line) == t * len2;
    ProductNonNegative(t, len2);
    ProductNonNegative(1.0 - t, len2);
    assert (1.0 - t) * len2 == len2 - t * len2;
  }

  // ---- testPolygonCircle, per edge ----

  /** The state of the edge loop: still going, or returned false. Either way the response
      holds the tally reached so far: a rejection leaves the updates of the edges before it,
      and the `aInB` update of its own edge, in place. */
  datatype Scan = Scanning(tally: Tally) | Rejected(tally: Tally)

  function Prev(i: nat, n: nat): (j: nat)
    requires i < n
    ensures j < n
  {
    if i == 0 then n - 1 else i - 1
  }

  /** An overlap and its direction, offered to the smallest-overlap update. */
  datatype Candidate = Candidate(overlap: real, normal: Vec)

  /** What one edge decides whatever the tally so far: whether the circle is rejected,
      whether `aInB` and `bInA` are cleared, and the overlap it offers, if any. */
  datatype Verdict = Verdict(rejected: bool, clearsA: bool, clearsB: bool, candidate: Option<Candidate>)

  /** The smallest-overlap update: keep `overlap` and its normal when `|overlap|` is
      strictly smaller than `|response.overlap|`. */
  function Keep(t: Tally, overlap: real, normal: Vec): (r: Tally)
    ensures Abs(r.overlap) <= Abs(t.overlap)
    ensures r.aInB == t.aInB && r.bInA == t.bInA
    ensures r == t || (r.overlap == overlap && r.overlapN == normal && Abs(overlap) < Abs(t.overlap))
  {
    if Abs(overlap) < Abs(t.overlap) then t.(overlap := overlap, overlapN := normal) else t
  }

  /** The response after one edge: `aInB` is cleared first, then either the loop stops or
      `bInA` is cleared and the candidate is offered to the smallest-overlap update. */
  function Apply(t: Tally, v: Verdict): (s: Scan)
    ensures s.Rejected? == v.rejected
    ensures s.tally.aInB == (t.aInB && !v.clearsA)
    ensures s.tally.bInA == (t.bInA && (v.rejected || !v.clearsB))
    ensures Abs(s.tally.overlap) <= Abs(t.overlap)
    ensures (s.tally.overlap == t.overlap && s.tally.overlapN == t.overlapN) ||
      (!v.rejected && v.candidate.Some? && s.tally.overlap == v.candidate.value.overlap &&
       s.tally.overlapN == v.candidate.value.normal && Abs(v.candidate.value.overlap) < Abs(t.overlap))
  {
    var t1 := t.(aInB := t.aInB && !v.clearsA);
    if v.rejected then Rejected(t1)
    else
      var t2 := t1.(bInA := t1.bInA && !v.clearsB);
      if v.candidate.Some? then Scanning(Keep(t2, v.candidate.value.overlap, v.candidate.value.normal))
      else Scanning(t2)
  }

  /** The edge loop over a list of verdicts, in order; a rejection ends it. */
  function ScanFold(vs: seq<Verdict>, t: Tally): Scan
  {
    if |vs| == 0 then Scanning(t)
    else
      var s := ScanFold(vs[..|vs| - 1], t);
      if s.Rejected? then s else Apply(s.tally, vs[|vs| - 1])
  }

  /** One more edge after the edges so far. */
  lemma ScanFoldExtend(vs: seq<Verdict>, v: Verdict, t: Tally)
    ensures ScanFold(vs + [v], t) == if ScanFold(vs, t).Rejected? then ScanFold(vs, t) else Apply(ScanFold(vs, t).tally, v)
  {
    assert (vs + [v])[..|vs|] == vs;
  }

  /** The loop returns false exactly when some edge rejects. */
  lemma {:induction false} ScanFoldRejectedIff(vs: seq<Verdict>, t: Tally)
    ensures ScanFold(vs, t).Rejected? <==> exists j :: 0 <= j < |vs| && vs[j].rejected
  {
    if |vs| > 0 {
      var front := vs[..|vs| - 1];
      ScanFoldRejectedIff(front, t);
      if ScanFold(vs, t).Rejected? && !ScanFold(front, t).Rejected? {
        assert vs[|vs| - 1].rejected;
      }
      if ScanFold(front, t).Rejected? {
        var j :| 0 <= j < |front| && front[j].rejected;
        assert vs[j] == front[j];
      }
      forall j | 0 <= j < |vs| && vs[j].rejected
        ensures ScanFold(vs, t).Rejected?
      {
        if j < |front| {
          assert front[j] == vs[j];
        }
      }
    }
  }

  /** Once rejected, later edges change nothing. */
  lemma {:induction false} ScanFoldStaysRejected(vs: seq<Verdict>, more: seq<Verdict>, t: Tally)
    requires ScanFold(vs, t).Rejected?
    ensures ScanFold(vs + more, t) == ScanFold(vs, t)
  {
    if |more| > 0 {
      var front := more[..|more| - 1];
      ScanFoldStaysRejected(vs, front, t);
      assert (vs + more)[..|vs + more| - 1] == vs + front;
    } else {
      assert vs + more == vs;
    }
  }

  /** A scan that has reached the end, or has been rejected, is settled. */
  lemma ScanFoldSettled(vs: seq<Verdict>, i: nat, t: Tally)
    requires i <= |vs|
    requires i == |vs| || ScanFold(vs[..i], t).Rejected?
    ensures ScanFold(vs, t) == ScanFold(vs[..i], t)
  {
    if i < |vs| {
      assert vs[..i] + vs[i..] == vs;
      ScanFoldStaysRejected(vs[..i], vs[i..], t);
    } else {
      assert vs[..i] == vs;
    }
  }

  /** The containment flags are only ever cleared, and `|overlap|` never grows. */
  lemma {:induction false} ScanFoldOnlyNarrows(vs: seq<Verdict>, t: Tally)
    ensures ScanFold(vs, t).tally.aInB ==> t.aInB
    ensures ScanFold(vs, t).tally.bInA ==> t.bInA
    ensures Abs(ScanFold(vs, t).tally.overlap) <= Abs(t.overlap)
  {
    if |vs| > 0 {
      ScanFoldOnlyNarrows(vs[..|vs| - 1], t);
    }
  }

  /** The vertex at the start of an edge, taken through the previous edge, as written:
      with `point` the centre relative to that vertex and `pointP` the centre relative to
      the start of the previous edge `edgeP`, a centre beyond the end of `edgeP` and
      farther than `r` from the vertex rejects, and a nearer one clears `bInA`, but its
      overlap is computed and never offered. */
  function BeforeStartAsWritten(clearsA: bool, point: Vec, pointP: Vec, edgeP: Vec, r: real, sqrt: real -> real): (v: Verdict)
    ensures v.clearsA == clearsA && v.candidate.None?
  {
    if VornoiRegion(edgeP, pointP) == RightRegion then
      var dist := sqrt(SquaredLength(point));
      if dist > r then Verdict(true, clearsA, false, None)
      else Verdict(false, clearsA, true, None)
    else Verdict(false, clearsA, false, None)
  }

  /** The vertex at the end of an edge, taken through the next edge `edgeN`, as written:
      with `pointN` the centre relative to the start of `edgeN`, its LEFT region tests the
      distance to that vertex, and the check of its MIDDLE region against its normal sits
      here too. */
  function BeyondEndAsWritten(clearsA: bool, pointN: Vec, edgeN: Vec, r: real, sqrt: real -> real): (v: Verdict)
    ensures v.clearsA == clearsA
    ensures v.rejected ==> v.candidate.None?
  {
    if VornoiRegion(edgeN, pointN) == LeftRegion then
      var dist := sqrt(SquaredLength(pointN));
      if dist > r then Verdict(true, clearsA, false, None)
      else Verdict(false, clearsA, true, Some(Candidate(r - dist, Unit(pointN, sqrt))))
    else
      var normal := Unit(Perpendicular(edgeN), sqrt);
      var dist := DotProduct(pointN, normal);
      if dist > 0.0 && Abs(dist) > r then Verdict(true, clearsA, false, None)
      else Verdict(false, clearsA, dist >= 0.0 || r - dist < 2.0 * r, Some(Candidate(r - dist, normal)))
  }

  /** Edge `i`, with its start taken through the previous edge. */
  function StartVerdictAsWritten(c: Vec, r: real, ps: seq<Vec>, es: seq<Vec>, i: nat, sqrt: real -> real): (v: Verdict)
    requires i < |ps| <= |es|
    ensures v.candidate.None?
  {
    var prev := Prev(i, |ps|);
    BeforeStartAsWritten(SquaredLength(Minus(c, ps[i])) > r * r, Minus(c, ps[i]), Minus(c, ps[prev]), es[prev], r, sqrt)
  }

  /** Edge `i` beyond its end, with the next edge examined. */
  function EndVerdictAsWritten(c: Vec, r: real, ps: seq<Vec>, es: seq<Vec>, i: nat, sqrt: real -> real): (v: Verdict)
    requires i < |ps| <= |es|
    ensures v.rejected ==> v.candidate.None?
  {
    var next := Next(i, |ps|);
    BeyondEndAsWritten(SquaredLength(Minus(c, ps[i])) > r * r, Minus(c, ps[next]), es[next], r, sqrt)
  }

  /** The points and edges one pass of the edge loop looks at: those of edge `i` and of
      its two neighbours. */
  datatype Sides = Sides(here: Vec, prev: Vec, next: Vec, edgeHere: Vec, edgePrev: Vec, edgeNext: Vec)

  /** The verdict of one pass, as written, from the points and edges it looks at. */
  function SidesVerdict(c: Vec, r: real, s: Sides, sqrt: real -> real): (v: Verdict)
    ensures v.clearsA == (SquaredLength(Minus(c, s.here)) > r * r)
  {
    var clearsA := SquaredLength(Minus(c, s.here)) > r * r;
    var region := VornoiRegion(s.edgeHere, Minus(c, s.here));
    if region == LeftRegion then BeforeStartAsWritten(clearsA, Minus(c, s.here), Minus(c, s.prev), s.edgePrev, r, sqrt)
    else if region == RightRegion then BeyondEndAsWritten(clearsA, Minus(c, s.next), s.edgeNext, r, sqrt)
    else Verdict(false, clearsA, false, None)
  }

  /** The points and edges around edge `i`. */
  function SidesAt(ps: seq<Vec>, es: seq<Vec>, i: nat): Sides
    requires i < |ps| <= |es|
  {
    var prev, next := Prev(i, |ps|), Next(i, |ps|);
    Sides(ps[i], ps[prev], ps[next], es[i], es[prev], es[next])
  }

  /** A circle centred on `c` (relative to the polygon's position) with radius `r`, against
      edge `i` of a polygon with points `ps` and edges `es`, as the code is written. The
      RIGHT-region branch holds both the check against the next edge's middle region and
      the minimum-overlap update; the LEFT-region branch computes an overlap that is never
      recorded, and the MIDDLE region of edge `i` itself decides nothing. */
  function VerdictAsWritten(c: Vec, r: real, ps: seq<Vec>, es: seq<Vec>, i: nat, sqrt: real -> real): (v: Verdict)
    requires i < |ps| <= |es|
    ensures v.clearsA == (SquaredLength(Minus(c, ps[i])) > r * r)
    ensures VornoiRegion(es[i], Minus(c, ps[i])) == MiddleRegion ==> v == Verdict(false, v.clearsA, false, None)
  {
    var region := VornoiRegion(es[i], Minus(c, ps[i]));
    if region == LeftRegion then StartVerdictAsWritten(c, r, ps, es, i, sqrt)
    else if region == RightRegion then EndVerdictAsWritten(c, r, ps, es, i, sqrt)
    else Verdict(false, SquaredLength(Minus(c, ps[i])) > r * r, false, None)
  }

  /** A pass of the edge loop decides from the points and edges around its edge alone. */
  lemma VerdictBySides(c: Vec, r: real, ps: seq<Vec>, es: seq<Vec>, i: nat, sqrt: real -> real)
    requires i < |ps| <= |es|
    ensures VerdictAsWritten(c, r, ps, es, i, sqrt) == SidesVerdict(c, r, SidesAt(ps, es, i), sqrt)
  {
  }

  /** A centre at `point` relative to the start of `side` lies level with the side and
      farther than `r` beyond it, on the side its normal points to (the outside, for a
      clockwise polygon on a y-down screen). */
  predicate BeyondSide(side: Vec, point: Vec, r: real, sqrt: real -> real)
  {
    VornoiRegion(side, point) == MiddleRegion &&
    DotProduct(point, Unit(Perpendicular(side), sqrt)) > 0.0 &&
    DotProduct(point, Unit(Perpendicular(side), sqrt)) > r
  }

  /** The same step with the braces where the comments place them: the LEFT and RIGHT
      regions test the neighbouring vertex, the MIDDLE region tests the edge itself, and
      every branch offers its overlap to the minimum-overlap update. */
  function IntendedVerdict(c: Vec, r: real, ps: seq<Vec>, es: seq<Vec>, i: nat, sqrt: real -> real): (v: Verdict)
    requires i < |ps| <= |es|
    ensures v.clearsA == (SquaredLength(Minus(c, ps[i])) > r * r)
    ensures BeyondSide(es[i], Minus(c, ps[i]), r, sqrt) ==> v.rejected
  {
    var n := |ps|;
    var point := Minus(c, ps[i]);
    var clearsA := SquaredLength(point) > r * r;
    var region := VornoiRegion(es[i], point);
    if region == LeftRegion then
      if VornoiRegion(es[Prev(i, n)], Minus(c, ps[Prev(i, n)])) == RightRegion then
        var dist := sqrt(SquaredLength(point));
        if dist > r then Verdict(true, clearsA, false, None)
        else Verdict(false, clearsA, true, Some(Candidate(r - dist, Unit(point, sqrt))))
      else Verdict(false, clearsA, false, None)
    else if region == RightRegion then
      var pointN := Minus(c, ps[Next(i, n)]);
      if VornoiRegion(es[Next(i, n)], pointN) == LeftRegion then
        var dist := sqrt(SquaredLength(pointN));
        if dist > r then Verdict(true, clearsA, false, None)
        else Verdict(false, clearsA, true, Some(Candidate(r - dist, Unit(pointN, sqrt))))
      else Verdict(false, clearsA, false, None)
    else
      var normal := Unit(Perpendicular(es[i]), sqrt);
      var dist := DotProduct(point, normal);
      if dist > 0.0 && Abs(dist) > r then Verdict(true, clearsA, false, None)
      else Verdict(false, clearsA, dist >= 0.0 || r - dist < 2.0 * r, Some(Candidate(r - dist, normal)))
  }

  /** The verdicts of the first `k` edges, as written. */
  function VerdictsAsWritten(c: Vec, r: real, ps: seq<Vec>, es: seq<Vec>, k: nat, sqrt: real -> real): (vs: seq<Verdict>)
    requires k <= |ps| <= |es|
    ensures |vs| == k
    ensures forall i :: 0 <= i < k ==> vs[i] == VerdictAsWritten(c, r, ps, es, i, sqrt)
  {
    seq(k, i requires 0 <= i < k => VerdictAsWritten(c, r, ps, es, i, sqrt))
  }

  /** The verdicts of the first `k` edges, as intended. */
  function Verdicts(c: Vec, r: real, ps: seq<Vec>, es: seq<Vec>, k: nat, sqrt: real -> real): (vs: seq<Verdict>)
    requires k <= |ps| <= |es|
    ensures |vs| == k
    ensures forall i :: 0 <= i < k ==> vs[i] == IntendedVerdict(c, r, ps, es, i, sqrt)
  {
    seq(k, i requires 0 <= i < k => IntendedVerdict(c, r, ps, es, i, sqrt))
  }

  /** The edge loop of `testPolygonCircle` over the first `k` edges, as written. */
  function ScanAsWritten(c: Vec, r: real, ps: seq<Vec>, es: seq<Vec>, k: nat, t: Tally, sqrt: real -> real): Scan
    requires k <= |ps| <= |es|
  {
    ScanFold(VerdictsAsWritten(c, r, ps, es, k, sqrt), t)
  }

  /** The edge loop over the first `k` edges, as intended. */
  function ScanEdges(c: Vec, r: real, ps: seq<Vec>, es: seq<Vec>, k: nat, t: Tally, sqrt: real -> real): Scan
    requires k <= |ps| <= |es|
  {
    ScanFold(Verdicts(c, r, ps, es, k, sqrt), t)
  }

  /** As written, the loop returns false exactly when some edge has its centre before
      its start and farther than `r` from it, or beyond its end and rejected by the next
      edge. */
  lemma ScanAsWrittenRejectedIff(c: Vec, r: real, ps: seq<Vec>, es: seq<Vec>, k: nat, t: Tally, sqrt: real -> real)
    requires k <= |ps| <= |es|
    ensures ScanAsWritten(c, r, ps, es, k, t, sqrt).Rejected? <==>
      exists j :: 0 <= j < k && VerdictAsWritten(c, r, ps, es, j, sqrt).rejected
  {
    var vs := VerdictsAsWritten(c, r, ps, es, k, sqrt);
    ScanFoldRejectedIff(vs, t);
    assert forall j :: 0 <= j < k ==> vs[j] == VerdictAsWritten(c, r, ps, es, j, sqrt);
  }

  /** A verdict offers no negative overlap. */
  predicate OffersNonNegative(v: Verdict)
  {
    v.candidate.Some? ==> 0.0 <= v.candidate.value.overlap
  }

  /** With a non-negative start and verdicts that offer no negative overlap, the edge loop
      leaves a non-negative overlap. */
  lemma {:induction false} ScanFoldOverlapNonNegative(vs: seq<Verdict>, t: Tally)
    requires 0.0 <= t.overlap
    requires forall j :: 0 <= j < |vs| ==> OffersNonNegative(vs[j])
    ensures 0.0 <= ScanFold(vs, t).tally.overlap
  {
    if |vs| > 0 {
      var front := vs[..|vs| - 1];
      assert forall j :: 0 <= j < |front| ==> front[j] == vs[j];
      ScanFoldOverlapNonNegative(front, t);
      assert OffersNonNegative(vs[|vs| - 1]);
    }
  }

  /** Both tests beyond an edge's end offer r - dist only when dist <= r (or the centre is
      on the inner side of the next edge), so never a negative overlap. */
  lemma BeyondEndOffersNonNegative(clearsA: bool, pointN: Vec, edgeN: Vec, r: real, sqrt: real -> real)
    requires 0.0 <= r
    ensures OffersNonNegative(BeyondEndAsWritten(clearsA, pointN, edgeN, r, sqrt))
  {
  }

  /** As written, for a non-negative radius, the loop's overlap stays non-negative. */
  lemma ScanAsWrittenOverlapNonNegative(c: Vec, r: real, ps: seq<Vec>, es: seq<Vec>, k: nat, t: Tally, sqrt: real -> real)
    requires k <= |ps| <= |es|
    requires 0.0 <= r && 0.0 <= t.overlap
    ensures 0.0 <= ScanAsWritten(c, r, ps, es, k, t, sqrt).tally.overlap
  {
    var vs := VerdictsAsWritten(c, r, ps, es, k, sqrt);
    forall j | 0 <= j < |vs|
      ensures OffersNonNegative(vs[j])
    {
      VerdictBySides(c, r, ps, es, j, sqrt);
      var s := SidesAt(ps, es, j);
      BeyondEndOffersNonNegative(SquaredLength(Minus(c, s.here)) > r * r, Minus(c, s.next), s.edgeNext, r, sqrt);
    }
    ScanFoldOverlapNonNegative(vs, t);
  }

  /** The same with the intended braces. */
  lemma ScanEdgesOverlapNonNegative(c: Vec, r: real, ps: seq<Vec>, es: seq<Vec>, k: nat, t: Tally, sqrt: real -> real)
    requires IsSqrt(sqrt)
    requires k <= |ps| <= |es|
    requires 0.0 <= r && 0.0 <= t.overlap
    ensures 0.0 <= ScanEdges(c, r, ps, es, k, t, sqrt).tally.overlap
  {
    var vs := Verdicts(c, r, ps, es, k, sqrt);
    forall j | 0 <= j < |vs|
      ensures OffersNonNegative(vs[j])
    {
      assert vs[j] == IntendedVerdict(c, r, ps, es, j, sqrt);
    }
    ScanFoldOverlapNonNegative(vs, t);
  }

  /** `aInB` cleared ahead of a verdict that clears it anyway: the verdict gives the same
      result. */
  lemma ApplyAfterClearingA(t: Tally, v: Verdict)
    ensures Apply(t.(aInB := t.aInB && !v.clearsA), v) == Apply(t, v)
  {
  }

  /** A scan that has been rejected stays rejected. */
  lemma RejectionIsFinal(c: Vec, r: real, ps: seq<Vec>, es: seq<Vec>, j: nat, k: nat, t: Tally, sqrt: real -> real)
    requires j <= k <= |ps| <= |es|
    requires ScanAsWritten(c, r, ps, es, j, t, sqrt).Rejected?
    ensures ScanAsWritten(c, r, ps, es, k, t, sqrt).Rejected?
  {
    ScanAsWrittenRejectedIff(c, r, ps, es, j, t, sqrt);
    ScanAsWrittenRejectedIff(c, r, ps, es, k, t, sqrt);
  }

  /** As written, a centre level with every edge is never rejected, however far outside
      the polygon it lies. */
  lemma MiddleEverywhereNeverRejectsAsWritten(c: Vec, r: real, ps: seq<Vec>, es: seq<Vec>, k: nat, t: Tally, sqrt: real -> real)
    requires k <= |ps| <= |es|
    requires forall i :: 0 <= i < k ==> VornoiRegion(es[i], Minus(c, ps[i])) == MiddleRegion
    ensures ScanAsWritten(c, r, ps, es, k, t, sqrt).Scanning?
  {
    ScanAsWrittenRejectedIff(c, r, ps, es, k, t, sqrt);
  }

  /** With the braces as intended, a centre level with some edge and farther than the
      radius beyond it is rejected. */
  lemma OutsideAnEdgeRejects(c: Vec, r: real, ps: seq<Vec>, es: seq<Vec>, j: nat, k: nat, t: Tally, sqrt: real -> real)
    requires j < k <= |ps| <= |es|
    requires BeyondSide(es[j], Minus(c, ps[j]), r, sqrt)
    ensures ScanEdges(c, r, ps, es, k, t, sqrt).Rejected?
  {
    var vs := Verdicts(c, r, ps, es, k, sqrt);
    assert vs[j].rejected;
    ScanFoldRejectedIff(vs, t);
  }

  // ---- the braces defect, on a concrete input ----

  /** A right triangle with legs of 10 on the axes, clockwise on a y-down screen. */
  function Triangle(): seq<Vec>
  {
    [Vec(0.0, 0.0), Vec(10.0, 0.0), Vec(0.0, 10.0)]
  }

  lemma TriangleEdges(ps: seq<Vec>)
    requires ps == Triangle()
    ensures Edges(ps)[0] == Vec(10.0, 0.0)
    ensures Edges(ps)[1] == Vec(-10.0, 10.0)
    ensures Edges(ps)[2] == Vec(0.0, -10.0)
  {
    TriangleEdge(ps, 0, Vec(10.0, 0.0));
    TriangleEdge(ps, 1, Vec(-10.0, 10.0));
    TriangleEdge(ps, 2, Vec(0.0, -10.0));
  }

  lemma TriangleEdge(ps: seq<Vec>, i: nat, e: Vec)
    requires ps == Triangle()
    requires (i == 0 && e == Vec(10.0, 0.0)) || (i == 1 && e == Vec(-10.0, 10.0)) || (i == 2 && e == Vec(0.0, -10.0))
    ensures Edges(ps)[i] == e
  {
    assert Edges(ps)[i] == EdgeAt(ps, i);
  }

  /** The centre (8, 8) relative to each corner of the triangle. */
  lemma CentreFromCorners(c: Vec, ps: seq<Vec>)
    requires c == Vec(8.0, 8.0) && ps == Triangle()
    ensures Minus(c, ps[0]) == Vec(8.0, 8.0)
    ensures Minus(c, ps[1]) == Vec(-2.0, 8.0)
    ensures Minus(c, ps[2]) == Vec(8.0, -2.0)
  {
  }

  lemma LevelWithSide(e: Vec, p: Vec)
    requires (e == Vec(10.0, 0.0) && p == Vec(8.0, 8.0)) ||
             (e == Vec(-10.0, 10.0) && p == Vec(-2.0, 8.0)) ||
             (e == Vec(0.0, -10.0) && p == Vec(8.0, -2.0))
    ensures VornoiRegion(e, p) == MiddleRegion
  {
  }

  /** The centre (8, 8) lies level with each edge of the triangle. */
  lemma CentreLevelWithEveryEdge(c: Vec, ps: seq<Vec>, i: nat)
    requires c == Vec(8.0, 8.0) && ps == Triangle() && i < 3
    ensures VornoiRegion(Edges(ps)[i], Minus(c, ps[i])) == MiddleRegion
  {
    TriangleEdges(ps);
    CentreFromCorners(c, ps);
    LevelWithSide(Edges(ps)[i], Minus(c, ps[i]));
  }

  /** As written, a circle of radius 1 centred on (8, 8) is reported as touching the
      triangle, although it lies 6 / sqrt(2) > 4 beyond the hypotenuse x + y = 10. */
  lemma MiddleRegionIgnoredAsWritten(c: Vec, r: real, ps: seq<Vec>, t: Tally, sqrt: real -> real)
    requires c == Vec(8.0, 8.0) && r == 1.0 && ps == Triangle()
    ensures ScanAsWritten(c, r, ps, Edges(ps), 3, t, sqrt).Scanning?
  {
    forall i | 0 <= i < 3
      ensures VornoiRegion(Edges(ps)[i], Minus(c, ps[i])) == MiddleRegion
    {
      CentreLevelWithEveryEdge(c, ps, i);
    }
    MiddleEverywhereNeverRejectsAsWritten(c, r, ps, Edges(ps), 3, t, sqrt);
  }

  lemma SqrtOf200Bounds(s: real)
    requires 0.0 <= s && s * s == 200.0
    ensures 0.0 < s < 60.0
  {
    if s >= 60.0 {
      SquareMonotone(60.0, s);
    }
    if s == 0.0 {
      assert false;
    }
  }

  lemma QuotientAboveOne(a: real, d: real)
    requires 0.0 < d < a
    ensures a / d > 1.0
  {
  }

  /** The unit normal of the hypotenuse is (q, q) with 6q > 1. */
  lemma {:induction false} HypotenuseNormal(v: Vec, sqrt: real -> real)
    requires IsSqrt(sqrt) && v == Vec(10.0, 10.0)
    ensures Unit(v, sqrt).x == Unit(v, sqrt).y
    ensures 6.0 * Unit(v, sqrt).x > 1.0
  {
    assert SquaredLength(v) == 200.0;
    var d := sqrt(200.0);
    assert 0.0 <= d && d * d == 200.0;
    SqrtOf200Bounds(d);
    var q := 10.0 / d;
    assert Unit(v, sqrt) == Vec(q, q);
    QuotientAboveOne(60.0, d);
    assert 6.0 * q == 60.0 / d;
  }

  /** The centre (8, 8), relative to the start (10, 0) of the hypotenuse, lies more than 1
      beyond it. */
  lemma BeyondHypotenuse(e: Vec, p: Vec, r: real, sqrt: real -> real)
    requires IsSqrt(sqrt) && e == Vec(-10.0, 10.0) && p == Vec(-2.0, 8.0) && r == 1.0
    ensures BeyondSide(e, p, r, sqrt)
  {
    LevelWithSide(e, p);
    var perp := Perpendicular(e);
    assert perp == Vec(10.0, 10.0);
    HypotenuseNormal(perp, sqrt);
    var n := Unit(perp, sqrt);
    assert DotProduct(p, n) == 6.0 * n.x;
  }

  /** The same circle lies beyond the hypotenuse, which the intended step rejects. */
  lemma TriangleCentreBeyondHypotenuse(c: Vec, r: real, ps: seq<Vec>, sqrt: real -> real)
    requires IsSqrt(sqrt)
    requires c == Vec(8.0, 8.0) && r == 1.0 && ps == Triangle()
    ensures BeyondSide(Edges(ps)[1], Minus(c, ps[1]), r, sqrt)
  {
    TriangleEdges(ps);
    CentreFromCorners(c, ps);
    BeyondHypotenuse(Edges(ps)[1], Minus(c, ps[1]), r, sqrt);
  }

  /** Any centre level with every edge of a polygon and beyond one of them, such as (8, 8)
      with radius 1 against the triangle, is accepted as written and rejected as intended. */
  lemma BracesDisagree(c: Vec, r: real, ps: seq<Vec>, es: seq<Vec>, j: nat, t: Tally, sqrt: real -> real)
    requires j < |ps| <= |es|
    requires forall i :: 0 <= i < |ps| ==> VornoiRegion(es[i], Minus(c, ps[i])) == MiddleRegion
    requires BeyondSide(es[j], Minus(c, ps[j]), r, sqrt)
    ensures ScanAsWritten(c, r, ps, es, |ps|, t, sqrt).Scanning?
    ensures ScanEdges(c, r, ps, es, |ps|, t, sqrt).Rejected?
  {
    MiddleEverywhereNeverRejectsAsWritten(c, r, ps, es, |ps|, t, sqrt);
    OutsideAnEdgeRejects(c, r, ps, es, j, |ps|, t, sqrt);
  }

  /** A circle of radius 1 centred on (8, 8) against the triangle: the loop as written
      accepts it, and the intended one rejects it at the hypotenuse. */
  lemma TriangleShowsBraces(c: Vec, r: real, ps: seq<Vec>, t: Tally, sqrt: real -> real)
    requires IsSqrt(sqrt)
    requires c == Vec(8.0, 8.0) && r == 1.0 && ps == Triangle()
    ensures ScanAsWritten(c, r, ps, Edges(ps), |ps|, t, sqrt).Scanning?
    ensures ScanEdges(c, r, ps, Edges(ps), |ps|, t, sqrt).Rejected?
  {
    var es := Edges(ps);
    forall i | 0 <= i < |ps|
      ensures VornoiRegion(es[i], Minus(c, ps[i])) == MiddleRegion
    {
      CentreLevelWithEveryEdge(c, ps, i);
    }
    TriangleCentreBeyondHypotenuse(c, r, ps, sqrt);
    BracesDisagree(c, r, ps, es, 1, t, sqrt);
  }
}
