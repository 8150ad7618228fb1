/** The collision engine (plugins/sat/collision.js).

    An engine owns two stacks of scratch objects, `T_VECTOR` and `T_ARRAYS`, filled once
    by `init`. Every test pops what it needs from the top, works on it in place and pushes
    it back before it returns, on every path. The tests themselves are the separating axis
    test on convex polygons, a squared-distance test on circles, a Voronoi-region walk for
    a polygon against a circle and a corner test on boxes. */
module Engine {
  import opened JsValues
  import opened Vectors
  import opened Polygons
  import opened Circles
  import opened Boxes
  import opened Responses
  import opened Separation
  import opened CircleTests

  /** `size || 10`: a missing or zero pool size means 10. */
  function PoolSize(size: Option<nat>): (n: nat)
    ensures size.Some? && size.value != 0 ==> n == size.value
    ensures size.None? || size.value == 0 ==> n == 10
    ensures n > 0
  {
    if size.Some? && size.value != 0 then size.value else 10
  }

  /** A stack whose top two items have changed places: `pop` twice, then `push` the
      first popped and the second popped. */
  function SwapTop<T>(s: seq<T>): (r: seq<T>)
    requires |s| >= 2
    ensures |r| == |s| && r[..|s| - 2] == s[..|s| - 2]
    ensures r[|s| - 2] == s[|s| - 1] && r[|s| - 1] == s[|s| - 2]
  {
    s[..|s| - 2] + [s[|s| - 1], s[|s| - 2]]
  }

  /** Swapping the top twice restores the stack, and a swap keeps the same items. */
  lemma SwapTopTwice<T>(s: seq<T>)
    requires |s| >= 2
    ensures SwapTop(SwapTop(s)) == s
    ensures multiset(SwapTop(s)) == multiset(s)
  {
    assert s == s[..|s| - 2] + [s[|s| - 2], s[|s| - 1]];
  }

  /** Swapping the top two scratch arrays keeps them two-slot and distinct. */
  lemma SwapTopKeepsArrays(s: seq<array<real>>)
    requires |s| >= 2
    requires (forall i :: 0 <= i < |s| ==> s[i].Length == 2) && (forall i, j :: 0 <= i < j < |s| ==> s[i] != s[j])
    ensures forall i :: 0 <= i < |s| ==> SwapTop(s)[i].Length == 2
    ensures forall i, j :: 0 <= i < j < |s| ==> SwapTop(s)[i] != SwapTop(s)[j]
  {
    var r := SwapTop(s);
    forall i | 0 <= i < |s|
      ensures r[i] == s[if i == |s| - 2 then |s| - 1 else if i == |s| - 1 then |s| - 2 else i]
    {
      if i < |s| - 2 {
        assert r[i] == r[..|s| - 2][i];
      }
    }
  }

  /** A sequence in reverse order. */
  function Reversed<T>(t: seq<T>): (r: seq<T>)
    ensures |r| == |t| && forall j :: 0 <= j < |t| ==> r[j] == t[|t| - 1 - j]
  {
    if |t| == 0 then [] else [t[|t| - 1]] + Reversed(t[..|t| - 1])
  }

  lemma {:induction false} ReversedKeepsItems<T>(t: seq<T>)
    ensures multiset(Reversed(t)) == multiset(t)
  {
    if |t| > 0 {
      var front, last := t[..|t| - 1], t[|t| - 1];
      ReversedKeepsItems(front);
      assert t == front + [last];
      calc {
        multiset(Reversed(t));
        multiset([last] + Reversed(front));
        multiset([last]) + multiset(Reversed(front));
        multiset(front) + multiset([last]);
        multiset(front + [last]);
      }
    }
  }

  /** A stack whose top `k` items were popped and pushed back in the order they were
      popped, which reverses them. */
  function FlipTop<T>(s: seq<T>, k: nat): (r: seq<T>)
    requires k <= |s|
    ensures |r| == |s|
    ensures forall i :: 0 <= i < |s| ==> r[i] == s[if i < |s| - k then i else 2 * |s| - k - 1 - i]
  {
    s[..|s| - k] + Reversed(s[|s| - k..])
  }

  /** Flipping the top of a stack keeps its items, and keeps them distinct. */
  lemma FlipTopKeepsItems<T>(s: seq<T>, k: nat)
    requires k <= |s|
    ensures multiset(FlipTop(s, k)) == multiset(s)
    ensures Distinct(s) ==> Distinct(FlipTop(s, k))
  {
    ReversedKeepsItems(s[|s| - k..]);
    assert s == s[..|s| - k] + s[|s| - k..];
  }

  /** No item occurs twice. */
  ghost predicate Distinct<T>(s: seq<T>)
  {
    forall i, j :: 0 <= i < j < |s| ==> s[i] != s[j]
  }

  /** A stack without its top keeps its items distinct. */
  lemma DropTopKeepsDistinct<T>(s: seq<T>, top: T)
    requires Distinct(s + [top])
    ensures Distinct(s)
  {
    forall i, j | 0 <= i < j < |s|
      ensures s[i] != s[j]
    {
      assert s[i] == (s + [top])[i] && s[j] == (s + [top])[j];
    }
  }

  /** Items taken from the top of a stack and pushed back one by one in the order taken
      leave the stack flipped at the top, with the same items. */
  lemma FlipTopPushed<T>(s: seq<T>, rest: seq<T>, taken: seq<T>)
    requires s == rest + taken
    ensures rest + Reversed(taken) == FlipTop(s, |taken|)
    ensures Distinct(s) ==> Distinct(rest + Reversed(taken))
  {
    assert s[..|s| - |taken|] == rest && s[|s| - |taken|..] == taken;
    FlipTopKeepsItems(s, |taken|);
  }

  /** Three items taken off a stack and pushed back one by one, first taken first: the
      top three come back reversed. */
  lemma ReturnedThree<T>(s: seq<T>, rest: seq<T>, p: T, e: T, c: T)
    requires s == rest + [p, e, c]
    ensures rest + [c] + [e] + [p] == FlipTop(s, 3)
    ensures Distinct(s) ==> Distinct(rest + [c] + [e] + [p])
  {
    var r := Reversed([p, e, c]);
    assert r[0] == c && r[1] == e && r[2] == p;
    assert rest + [c] + [e] + [p] == rest + r;
    FlipTopPushed(s, rest, [p, e, c]);
  }

  /** The same with a fourth item, taken last, under the other three. */
  lemma ReturnedFour<T>(s: seq<T>, rest: seq<T>, q: T, p: T, e: T, c: T)
    requires s == rest + [q] + [p, e, c]
    ensures rest + [c] + [e] + [p] + [q] == FlipTop(s, 4)
    ensures Distinct(s) ==> Distinct(rest + [c] + [e] + [p] + [q])
  {
    var r := Reversed([q, p, e, c]);
    assert r[0] == c && r[1] == e && r[2] == p && r[3] == q;
    assert rest + [c] + [e] + [p] + [q] == rest + r;
    assert s == rest + [q, p, e, c];
    FlipTopPushed(s, rest, [q, p, e, c]);
  }

  /** `vs[k]` is the verdict of edge `k`, as written. */
  ghost predicate Judged(vs: seq<Verdict>, c: Vec, r: real, ps: seq<Vec>, es: seq<Vec>, k: nat, sqrt: real -> real)
  {
    k < |vs| && k < |ps| <= |es| && vs[k] == VerdictAsWritten(c, r, ps, es, k, sqrt)
  }

  /** The verdicts the edge loop of `testPolygonCircle` works through, one per edge, and
      what folding them gives. */
  lemma VerdictsOfEdges(c: Vec, r: real, ps: seq<Vec>, es: seq<Vec>, t0: Tally, sqrt: real -> real)
    returns (vs: seq<Verdict>)
    requires |ps| <= |es|
    ensures |vs| == |ps| && forall k :: 0 <= k < |vs| ==> Judged(vs, c, r, ps, es, k, sqrt)
    ensures ScanFold(vs, t0) == ScanAsWritten(c, r, ps, es, |ps|, t0, sqrt)
  {
    vs := VerdictsAsWritten(c, r, ps, es, |ps|, sqrt);
  }

  /** The centre of `circle` relative to the position of `polygon`. */
  ghost function CentreOf(polygon: Polygon, circle: Circle): Vec
    reads polygon, polygon.pos, circle.pos
  {
    Minus(circle.pos.Value(), polygon.pos.Value())
  }

  /** What the axes of `testPolygonPolygon` are: the first `aLen` normals of A, then the
      first `bLen` normals of B. */
  function CandidateAxes(aNormals: seq<Vec>, aLen: nat, bNormals: seq<Vec>, bLen: nat): (axes: seq<Vec>)
    requires aLen <= |aNormals| && bLen <= |bNormals|
    ensures |axes| == aLen + bLen
    ensures forall i :: 0 <= i < aLen ==> axes[i] == aNormals[i]
    ensures forall j :: 0 <= j < bLen ==> axes[aLen + j] == bNormals[j]
  {
    aNormals[..aLen] + bNormals[..bLen]
  }

  /** How the axes seen so far grow by one normal. */
  lemma PrefixStep<T>(ns: seq<T>, i: nat)
    requires i <= |ns|
    ensures ns[..|ns|] == ns
    ensures i < |ns| ==> ns[..i + 1] == ns[..i] + [ns[i]] && ns[..i + 1] + ns[i + 1..] == ns
  {
    if i < |ns| {
      assert ns == ns[..i + 1] + ns[i + 1..];
    }
  }

  /** The two polygons of `testPolygonPolygon` as values. */
  ghost function PolygonScene(a: Polygon, b: Polygon): Scene
    reads a, b, a.pos, b.pos, a.points, b.points
  {
    Scene(a.pos.Value(), Values(a.points), b.pos.Value(), Values(b.points))
  }

  /** The axes `testPolygonPolygon` tries, in order: one normal per point of A, then one
      per point of B. */
  ghost function PolygonAxes(a: Polygon, b: Polygon): seq<Vec>
    requires |a.points| <= |a.normals| && |b.points| <= |b.normals|
    reads a, b, a.normals, b.normals
  {
    CandidateAxes(Values(a.normals), |a.points|, Values(b.normals), |b.points|)
  }

  /** The response, when there is one, as a frame. */
  function Held(response: Response?): set<Response>
  {
    if response != null then {response} else {}
  }

  /** How a test ends: with an answer, or by throwing. */
  datatype TestOutcome = Answered(hit: bool) | Threw

  /** The consequence of `points | []` for `testPolygonPolygon`: a polygon built by the
      constructor as written stores the number 0, whose `length` is undefined, so neither
      loop runs, no axis is tried, and the test reports a hit with the tally untouched,
      whatever the points were. */
  lemma AsWrittenPolygonsAlwaysCollide(pa: Option<seq<Vec>>, pb: Option<seq<Vec>>, aNormals: seq<Vec>, bNormals: seq<Vec>, s: Scene, t: Tally)
    ensures var axes := CandidateAxes(aNormals, EdgeCountAsWritten(InitPointsAsWritten(pa)), bNormals, EdgeCountAsWritten(InitPointsAsWritten(pb)));
      axes == [] && Sweep(s, axes, t) == Outcome(false, t)
  {
  }

  /** The same for `testPolygonCircle`: its edge loop does not run for a polygon built as
      written, so every circle is reported as hitting it. */
  lemma AsWrittenPolygonAlwaysMeetsCircle(p: Option<seq<Vec>>, c: Vec, r: real, ps: seq<Vec>, es: seq<Vec>, t: Tally, sqrt: real -> real)
    requires |ps| <= |es|
    ensures var k := EdgeCountAsWritten(InitPointsAsWritten(p));
      k == 0 && ScanAsWritten(c, r, ps, es, k, t, sqrt) == Scanning(t)
  {
  }

  /** The corner test of `testBoxBox` misses boxes that overlap: a 10 by 10 box at the
      origin and one at (5, 5) share the square from (5, 5) to (10, 10), yet the first
      one's corner is not in the second. */
  lemma BoxCornerTestMissesOverlap()
    ensures var a, b := Rect(Vec(0.0, 0.0), 10.0, 10.0), Rect(Vec(5.0, 5.0), 10.0, 10.0);
      Overlap(a, b) && Contains(a, Vec(5.0, 5.0)) && Contains(b, Vec(5.0, 5.0)) && !Contains(b, a.corner)
  {
  }

  class Collision {
    /** `T_VECTOR`, a stack of scratch vectors; its top is the last item. */
    var vectorPool: seq<Vector>
    /** `T_ARRAYS`, a stack of scratch arrays. A JavaScript `[]` that only ever has its
        slots 0 and 1 written is a two-slot array here. */
    var arrayPool: seq<array<real>>

    /** Every scratch array has two slots, and no object sits in a pool twice. */
    ghost predicate Valid()
      reads this
    {
      (forall i :: 0 <= i < |arrayPool| ==> arrayPool[i].Length == 2) &&
      (forall i, j :: 0 <= i < j < |arrayPool| ==> arrayPool[i] != arrayPool[j]) &&
      (forall i, j :: 0 <= i < j < |vectorPool| ==> vectorPool[i] != vectorPool[j])
    }

    /** The two scratch arrays on top of `T_ARRAYS`, which the polygon tests borrow. */
    ghost function TopArrays(): set<array<real>>
      requires |arrayPool| >= 2
      reads this
    {
      {arrayPool[|arrayPool| - 2], arrayPool[|arrayPool| - 1]}
    }

    /** No scratch vector of the pool is one of `vs`: the pool is private to the engine. */
    ghost predicate Apart(vs: seq<Vector>)
      reads this
    {
      forall j :: 0 <= j < |vs| ==> vs[j] !in vectorPool
    }

    /** `new Collision(vectorPoolSize, arrayPoolSize)` fills both pools with new objects. */
    constructor (vectorPoolSize: Option<nat>, arrayPoolSize: Option<nat>)
      ensures |vectorPool| == PoolSize(vectorPoolSize) && |arrayPool| == PoolSize(arrayPoolSize)
      ensures forall i :: 0 <= i < |vectorPool| ==> fresh(vectorPool[i]) && vectorPool[i].Value() == Origin
      ensures forall i :: 0 <= i < |arrayPool| ==> fresh(arrayPool[i])
      ensures Valid()
    {
      vectorPool := [];
      arrayPool := [];
      new;
      var v := PoolSize(vectorPoolSize);
      var a := PoolSize(arrayPoolSize);
      for i := 0 to v
        invariant |vectorPool| == i && arrayPool == []
        invariant forall k :: 0 <= k < i ==> fresh(vectorPool[k]) && vectorPool[k].Value() == Origin
        invariant forall k, l :: 0 <= k < l < i ==> vectorPool[k] != vectorPool[l]
      {
        var vec := new Vector(0.0, 0.0);
        vectorPool := vectorPool + [vec];
      }
      for i := 0 to a
        invariant |vectorPool| == v && |arrayPool| == i
        invariant forall k :: 0 <= k < v ==> fresh(vectorPool[k]) && vectorPool[k].Value() == Origin
        invariant forall k, l :: 0 <= k < l < v ==> vectorPool[k] != vectorPool[l]
        invariant forall k :: 0 <= k < i ==> fresh(arrayPool[k]) && arrayPool[k].Length == 2
        invariant forall k, l :: 0 <= k < l < i ==> arrayPool[k] != arrayPool[l]
      {
        var arr := new real[2];
        arrayPool := arrayPool + [arr];
      }
    }

    /** Projects `points` onto `normal` and stores the smallest projection in `result[0]`
        and the largest in `result[1]`, with Number.MAX_VALUE and -Number.MAX_VALUE as the
        starting bounds. */
    static method FlattenPointsOn(points: seq<Vec>, normal: Vector, result: array<real>)
      requires result.Length == 2
      modifies result
      ensures result[0] == Flatten(points, normal.Value()).lo
      ensures result[1] == Flatten(points, normal.Value()).hi
    {
      ghost var ds := Projections(points, normal.Value());
      var min := MaxValue;
      var max := -MaxValue;
      var len := |points|;
      for i := 0 to len
        invariant min == Lowest(ds[..i]) && max == Highest(ds[..i])
      {
        var dot := DotProduct(points[i], normal.Value());
        assert ds[..i + 1][..i] == ds[..i] && ds[..i + 1][i] == dot;
        if dot < min {
          min := dot;
        }
        if dot > max {
          max := dot;
        }
      }
      assert ds[..len] == ds;
      result[0] := min;
      result[1] := max;
    }

    /** Whether `axis` separates polygon A (at `aPos`) from polygon B (at `bPos`). When it
        does not and a response is given, the response's overlap, direction and containment
        flags are refined by this axis. The scratch vector goes back where it was; the two
        scratch arrays go back with their order swapped. */
    method IsSeparatingAxis(aPos: Vector, bPos: Vector, aPoints: seq<Vec>, bPoints: seq<Vec>,
                            axis: Vector, response: Response?, ghost scene: Scene) returns (separated: bool)
      requires Valid() && |vectorPool| >= 1 && |arrayPool| >= 2
      requires scene.aPos == aPos.Value() && scene.aPoints == aPoints && scene.bPos == bPos.Value() && scene.bPoints == bPoints
      requires aPos !in vectorPool && bPos !in vectorPool && axis !in vectorPool
      requires response != null ==>
        response.Valid() && response.overlapN !in vectorPool &&
        response.overlapN != aPos && response.overlapN != bPos && response.overlapN != axis
      modifies this, vectorPool[|vectorPool| - 1], TopArrays()
      modifies if response != null then {response, response.overlapN} else {}
      ensures Valid() && vectorPool == old(vectorPool) && arrayPool == SwapTop(old(arrayPool))
      ensures TopArrays() == old(TopArrays())
      ensures separated == Separates(scene, old(axis.Value()))
      ensures unchanged(aPos, bPos, axis)
      ensures response != null ==>
        response.a == old(response.a) && response.b == old(response.b) &&
        response.overlapN == old(response.overlapN) && response.overlapV == old(response.overlapV) &&
        response.Valid()
      ensures response != null && separated ==> response.Snapshot() == old(response.Snapshot())
      ensures response != null && !separated ==>
        response.Snapshot() == Refine(old(response.Snapshot()),
          RangeOfA(scene, old(axis.Value())), RangeOfB(scene, old(axis.Value())), old(axis.Value()))
    {
      ghost var pools := arrayPool;
      ghost var ax := axis.Value();
      var rangeA, rangeB := PopTwoArrays();
      var offsetV := PopVector();
      ProjectRanges(aPos, bPos, aPoints, bPoints, axis, offsetV, rangeA, rangeB, scene, ax);
      separated := rangeA[0] > rangeB[1] || rangeB[0] > rangeA[1];
      if !separated && response != null {
        RefineResponse(response, rangeA[0], rangeA[1], rangeB[0], rangeB[1], axis);
      }
      PushVector(offsetV);
      assert vectorPool == old(vectorPool);
      PushTwoArrays(rangeA, rangeB);
      assert arrayPool == SwapTop(pools);
      SwapTopKeepsArrays(pools);
    }

    /** Checks two convex clockwise polygons: false as soon as a normal of A, and then a
        normal of B, separates them; otherwise true, with the smallest overlap recorded. */
    method TestPolygonPolygon(a: Polygon, b: Polygon, response: Response?) returns (hit: bool)
      requires Valid() && |vectorPool| >= 1 && |arrayPool| >= 2
      requires |a.points| <= |a.normals| && |b.points| <= |b.normals|
      requires a.pos !in vectorPool && b.pos !in vectorPool
      requires Apart(a.normals) && Apart(b.normals)
      requires response != null ==> response.Valid() && Resp(response, a, b)
      modifies this, vectorPool[|vectorPool| - 1], TopArrays()
      modifies if response != null then {response, response.overlapN, response.overlapV} else {}
      ensures Valid() && vectorPool == old(vectorPool)
      ensures arrayPool == old(arrayPool) || arrayPool == SwapTop(old(arrayPool))
      ensures TopArrays() == old(TopArrays())
      ensures hit <==> old(forall k :: 0 <= k < |PolygonAxes(a, b)| ==> !Separates(PolygonScene(a, b), PolygonAxes(a, b)[k]))
      ensures response != null ==>
        response.Snapshot() == old(Sweep(PolygonScene(a, b), PolygonAxes(a, b), response.Snapshot()).tally)
      ensures response != null ==> response.overlapN == old(response.overlapN) && response.overlapV == old(response.overlapV)
      ensures response != null && hit ==>
        response.a == PolygonShape(a) && response.b == PolygonShape(b) &&
        response.overlapV.Value() == Times(response.overlapN.Value(), response.overlap)
      ensures response != null && !hit ==>
        response.a == old(response.a) && response.b == old(response.b) &&
        response.overlapV.Value() == old(response.overlapV.Value())
    {
      ghost var scene := PolygonScene(a, b);
      ghost var axes := PolygonAxes(a, b);
      ghost var t0 := if response != null then response.Snapshot() else Tally(0.0, Origin, true, true);
      var aPoints, bPoints := Values(a.points), Values(b.points);
      var normals := a.normals[..|a.points|] + b.normals[..|b.points|];
      JoinedNormals(a, b, normals, response);
      ghost var ps := ProbesOf(scene, axes);
      ProbesMeasure(scene, axes, ps);
      var separated := SweepNormals(a.pos, b.pos, aPoints, bPoints, normals, response, scene, axes, ps, t0);
      SweepSeparatedIff(scene, axes, t0);
      hit := !separated;
      if hit && response != null {
        RecordHit(response, PolygonShape(a), PolygonShape(b));
      }
    }

    /** The normals `testPolygonPolygon` walks: their values are the candidate axes, none
        of them is a scratch vector, and none is the response's direction. */
    lemma JoinedNormals(a: Polygon, b: Polygon, normals: seq<Vector>, response: Response?)
      requires |a.points| <= |a.normals| && |b.points| <= |b.normals|
      requires normals == a.normals[..|a.points|] + b.normals[..|b.points|]
      requires Apart(a.normals) && Apart(b.normals)
      ensures |normals| == |PolygonAxes(a, b)|
      ensures forall k :: 0 <= k < |normals| ==> normals[k].Value() == PolygonAxes(a, b)[k]
      ensures Apart(normals)
      ensures response != null && Resp(response, a, b) ==> response.overlapN !in normals
    {
      var axes := PolygonAxes(a, b);
      forall k | 0 <= k < |normals|
        ensures normals[k].Value() == axes[k] && normals[k] !in vectorPool
      {
        if k < |a.points| {
          assert normals[k] == a.normals[k];
        } else {
          assert normals[k] == b.normals[k - |a.points|];
        }
      }
    }

    /** The end of a hit in `testPolygonPolygon` and `testPolygonCircle`: the participants
        are recorded and `overlapV` becomes `overlapN` scaled by `overlap`. */
    static method RecordHit(response: Response, a: Participant, b: Participant)
      requires response.Valid()
      modifies response, response.overlapV
      ensures response.a == a && response.b == b
      ensures response.overlapN == old(response.overlapN) && response.overlapV == old(response.overlapV)
      ensures response.Valid() && response.Snapshot() == old(response.Snapshot())
      ensures response.overlapV.Value() == Times(response.overlapN.Value(), response.overlap)
    {
      response.a := a;
      response.b := b;
      var v := response.overlapV.Copy(response.overlapN);
      v := v.Scale(response.overlap, None);
    }

    /** The response of `testPolygonPolygon` is its own: its vectors are neither scratch
        vectors nor parts of the polygons. */
    ghost predicate Resp(response: Response, a: Polygon, b: Polygon)
      reads this, response, a, b
    {
      response.overlapN !in vectorPool && response.overlapV !in vectorPool &&
      response.overlapN != a.pos && response.overlapN != b.pos &&
      response.overlapN !in a.normals && response.overlapN !in b.normals
    }

    /** The two loops of `testPolygonPolygon` as one: `normals` holds A's normals and then
        B's, with values `ns`; they are tried in order up to the first that separates. */
    method SweepNormals(aPos: Vector, bPos: Vector, aPoints: seq<Vec>, bPoints: seq<Vec>,
                        normals: seq<Vector>, response: Response?,
                        ghost scene: Scene, ghost ns: seq<Vec>, ghost ps: seq<Probe>, ghost t0: Tally)
      returns (separated: bool)
      requires Valid() && |vectorPool| >= 1 && |arrayPool| >= 2
      requires |ns| == |normals| && forall k :: 0 <= k < |normals| ==> normals[k].Value() == ns[k]
      requires |ps| == |ns| && forall k :: 0 <= k < |ns| ==> Measures(ps, scene, ns, k)
      requires aPos !in vectorPool && bPos !in vectorPool && Apart(normals)
      requires scene.aPos == aPos.Value() && scene.aPoints == aPoints && scene.bPos == bPos.Value() && scene.bPoints == bPoints
      requires response != null ==>
        response.Valid() && response.overlapN !in vectorPool &&
        response.overlapN != aPos && response.overlapN != bPos && response.overlapN !in normals &&
        response.Snapshot() == t0
      modifies this, vectorPool[|vectorPool| - 1], TopArrays()
      modifies if response != null then {response, response.overlapN} else {}
      ensures Valid() && vectorPool == old(vectorPool)
      ensures arrayPool == old(arrayPool) || arrayPool == SwapTop(old(arrayPool))
      ensures TopArrays() == old(TopArrays())
      ensures separated == Fold(ps, t0).separated
      ensures response != null ==>
        response.Valid() && response.a == old(response.a) && response.b == old(response.b) &&
        response.overlapN == old(response.overlapN) && response.overlapV == old(response.overlapV) &&
        response.Snapshot() == Fold(ps, t0).tally
    {
      PrefixStep(ps, 0);
      separated := false;
      var i := 0;
      while i < |normals| && !separated
        invariant 0 <= i <= |normals|
        invariant Valid() && vectorPool == old(vectorPool)
        invariant arrayPool == old(arrayPool) || arrayPool == SwapTop(old(arrayPool))
        invariant TopArrays() == old(TopArrays())
        invariant unchanged(aPos, bPos)
        invariant separated == Fold(ps[..i], t0).separated
        invariant response != null ==>
          response.Valid() && response.a == old(response.a) && response.b == old(response.b) &&
          response.overlapN == old(response.overlapN) && response.overlapV == old(response.overlapV) &&
          response.Snapshot() == Fold(ps[..i], t0).tally
        decreases |normals| - i
      {
        separated := ProbeNormal(aPos, bPos, aPoints, bPoints, normals, i, response, scene, ns, ps, t0, old(arrayPool));
        i := i + 1;
      }
      FoldSettled(ps, i, t0);
    }

    /** One pass of the loops of `testPolygonPolygon`: the `i`th normal is tried, after
        `i` normals that did not separate the polygons. */
    method ProbeNormal(aPos: Vector, bPos: Vector, aPoints: seq<Vec>, bPoints: seq<Vec>,
                       normals: seq<Vector>, i: nat, response: Response?,
                       ghost scene: Scene, ghost ns: seq<Vec>, ghost ps: seq<Probe>, ghost t0: Tally,
                       ghost pools: seq<array<real>>)
      returns (separated: bool)
      requires Valid() && |vectorPool| >= 1 && |pools| >= 2 && i < |normals|
      requires arrayPool == pools || arrayPool == SwapTop(pools)
      requires |ns| == |normals| && forall k :: 0 <= k < |normals| ==> normals[k].Value() == ns[k]
      requires |ps| == |ns| && forall k :: 0 <= k < |ns| ==> Measures(ps, scene, ns, k)
      requires aPos !in vectorPool && bPos !in vectorPool && Apart(normals)
      requires scene.aPos == aPos.Value() && scene.aPoints == aPoints && scene.bPos == bPos.Value() && scene.bPoints == bPoints
      requires !Fold(ps[..i], t0).separated
      requires response != null ==>
        response.Valid() && response.overlapN !in vectorPool &&
        response.overlapN != aPos && response.overlapN != bPos && response.overlapN !in normals &&
        response.Snapshot() == Fold(ps[..i], t0).tally
      modifies this, vectorPool[|vectorPool| - 1], TopArrays()
      modifies if response != null then {response, response.overlapN} else {}
      ensures Valid() && vectorPool == old(vectorPool)
      ensures arrayPool == pools || arrayPool == SwapTop(pools)
      ensures TopArrays() == old(TopArrays())
      ensures unchanged(aPos, bPos)
      ensures separated == Fold(ps[..i + 1], t0).separated
      ensures response != null ==>
        response.Valid() && response.a == old(response.a) && response.b == old(response.b) &&
        response.overlapN == old(response.overlapN) && response.overlapV == old(response.overlapV) &&
        response.Snapshot() == Fold(ps[..i + 1], t0).tally
    {
      ghost var swapped := arrayPool != pools;
      assert normals[i] in normals;
      assert normals[i].Value() == ns[i] && Measures(ps, scene, ns, i);
      separated := IsSeparatingAxis(aPos, bPos, aPoints, bPoints, normals[i], response, scene);
      if swapped {
        SwapTopTwice(pools);
      }
      PrefixStep(ps, i);
      FoldExtend(ps[..i], ps[i], t0);
    }

    /** Checks two circles: false, with the response untouched, when the squared distance
        between the centres exceeds the squared sum of the radii; otherwise true, with the
        response filled in. The scratch vector goes back to the pool either way. */
    method TestCircleCircle(a: Circle, b: Circle, response: Response?, sqrt: real -> real) returns (hit: bool)
      requires IsSqrt(sqrt) && Valid() && |vectorPool| >= 1
      requires a.pos !in vectorPool && b.pos !in vectorPool
      requires response != null ==>
        response.Valid() && response.overlapN !in vectorPool && response.overlapV !in vectorPool
      modifies this, vectorPool[|vectorPool| - 1]
      modifies if response != null then {response, response.overlapN, response.overlapV} else {}
      ensures Valid() && vectorPool == old(vectorPool) && arrayPool == old(arrayPool)
      ensures hit == !CirclesApart(old(a.pos.Value()), a.r, old(b.pos.Value()), b.r)
      ensures response != null ==>
        response.Valid() && response.overlapN == old(response.overlapN) && response.overlapV == old(response.overlapV)
      ensures response != null && !hit ==>
        response.a == old(response.a) && response.b == old(response.b) &&
        response.Snapshot() == old(response.Snapshot()) && response.overlapV.Value() == old(response.overlapV.Value())
      ensures response != null && hit ==>
        response.a == CircleShape(a) && response.b == CircleShape(b) &&
        response.Snapshot() == CircleContact(old(Minus(b.pos.Value(), a.pos.Value())), a.r, b.r, sqrt) &&
        response.overlapV.Value() == Times(response.overlapN.Value(), response.overlap)
    {
      ghost var d := Minus(b.pos.Value(), a.pos.Value());
      var differenceV := PopVector();
      differenceV := differenceV.Copy(b.pos);
      differenceV := differenceV.Sub(a.pos);
      assert differenceV.Value() == d;
      var totalRadius := a.r + b.r;
      var totalRadiusSq := totalRadius * totalRadius;
      var distanceSq := differenceV.Len2();
      assert distanceSq == SquaredLength(d);
      hit := !(distanceSq > totalRadiusSq);
      if hit && response != null {
        RecordCircles(response, a, b, differenceV, sqrt);
      }
      PushVector(differenceV);
    }

    /** The response part of `testCircleCircle`. `differenceV` is normalised in place on
        the way. */
    static method RecordCircles(response: Response, a: Circle, b: Circle, differenceV: Vector, sqrt: real -> real)
      requires IsSqrt(sqrt) && response.Valid()
      requires differenceV != response.overlapN && differenceV != response.overlapV
      modifies response, response.overlapN, response.overlapV, differenceV
      ensures response.Valid() && response.overlapN == old(response.overlapN) && response.overlapV == old(response.overlapV)
      ensures response.a == CircleShape(a) && response.b == CircleShape(b)
      ensures response.Snapshot() == CircleContact(old(differenceV.Value()), a.r, b.r, sqrt)
      ensures response.overlapV.Value() == Times(response.overlapN.Value(), response.overlap)
    {
      ghost var d := differenceV.Value();
      assert differenceV.Len2() == SquaredLength(d);
      var dist := sqrt(differenceV.Len2());
      response.a := CircleShape(a);
      response.b := CircleShape(b);
      response.overlap := a.r + b.r - dist;
      var unit := differenceV.Normalize(sqrt);
      var n := response.overlapN.Copy(unit);
      var v := response.overlapV.Copy(differenceV);
      v := v.Scale(response.overlap, None);
      response.aInB := a.r <= b.r && dist <= b.r - a.r;
      response.bInA := b.r <= a.r && dist <= a.r - b.r;
    }

    /** Checks a convex clockwise polygon against a circle, as written: each edge in turn
        looks up the Voronoi region of the circle's centre and may return false; otherwise
        true, with the participants and `overlapV` recorded. The scratch vectors go back in
        the reverse of the order they were taken: three of them, or four when the previous
        edge of a LEFT-region centre rejects it. */
    method TestPolygonCircle(polygon: Polygon, circle: Circle, response: Response?, sqrt: real -> real) returns (hit: bool)
      requires IsSqrt(sqrt) && Valid() && |vectorPool| >= 4
      requires |polygon.points| <= |polygon.edges|
      requires polygon.pos !in vectorPool && circle.pos !in vectorPool
      requires Apart(polygon.points) && Apart(polygon.edges)
      requires response != null ==>
        response.Valid() && response.overlapN !in vectorPool && response.overlapV !in vectorPool &&
        response.overlapN !in polygon.points && response.overlapN !in polygon.edges
      modifies this, TopFour()
      modifies if response != null then {response, response.overlapN, response.overlapV} else {}
      ensures Valid() && arrayPool == old(arrayPool)
      ensures vectorPool == FlipTop(old(vectorPool), 3) || vectorPool == FlipTop(old(vectorPool), 4)
      ensures hit <==> old(forall j :: 0 <= j < |polygon.points| ==>
        !VerdictAsWritten(CentreOf(polygon, circle), circle.r, Values(polygon.points), Values(polygon.edges), j, sqrt).rejected)
      ensures response != null ==>
        response.Valid() && response.overlapN == old(response.overlapN) && response.overlapV == old(response.overlapV)
      ensures response != null ==>
        response.Snapshot() == old(ScanAsWritten(CentreOf(polygon, circle), circle.r, Values(polygon.points), Values(polygon.edges),
                                                 |polygon.points|, response.Snapshot(), sqrt).tally)
      ensures response != null && hit ==>
        response.a == PolygonShape(polygon) && response.b == CircleShape(circle) &&
        response.overlapV.Value() == Times(response.overlapN.Value(), response.overlap)
      ensures response != null && !hit ==>
        response.a == old(response.a) && response.b == old(response.b) &&
        response.overlapV.Value() == old(response.overlapV.Value())
    {
      ghost var pools := vectorPool;
      ghost var c := CentreOf(polygon, circle);
      var points, edges := polygon.points, polygon.edges;
      ghost var ps, es := Values(points), Values(edges);
      ghost var t0 := if response != null then response.Snapshot() else Tally(0.0, Origin, true, true);
      ghost var ov := if response != null then response.overlapV.Value() else Origin;
      var circlePos, edge, point := TakeScratch(circle.pos, polygon.pos);
      ghost var kept := vectorPool;
      assert response != null ==> response.Snapshot() == t0 && response.overlapV.Value() == ov;
      var rejected, spare := SweepEdges(points, edges, circlePos, edge, point, circle.r, response, sqrt, c, ps, es, t0,
                                        PolygonShape(polygon), CircleShape(circle));
      ghost var sn := if response != null then response.Snapshot() else t0;
      ghost var sv := if response != null then response.overlapV.Value() else Origin;
      GiveBackScratch(circlePos, edge, point, spare, pools, kept);
      assert Distinct(vectorPool);
      assert response != null ==> response.Snapshot() == sn && response.overlapV.Value() == sv;
      ScanAsWrittenRejectedIff(c, circle.r, ps, es, |ps|, t0, sqrt);
      hit := !rejected;
    }

    /** `testCirclePolygon` as written hands its arguments to `testPolygonCircle` in its
        own order, so the circle stands where the polygon belongs. One scratch vector is
        popped and set to the polygon's position minus the circle's; reading the length of
        the circle's missing `points` then throws a TypeError. The vector never goes back,
        and the response is not touched. */
    method TestCirclePolygonAsWritten(circle: Circle, polygon: Polygon, response: Response?) returns (outcome: TestOutcome)
      requires Valid() && |vectorPool| >= 1 && circle.pos !in vectorPool && polygon.pos !in vectorPool
      modifies this, vectorPool[|vectorPool| - 1]
      ensures outcome == Threw
      ensures Valid() && arrayPool == old(arrayPool)
      ensures vectorPool == old(vectorPool[..|vectorPool| - 1])
      ensures old(vectorPool[|vectorPool| - 1]).Value() == Minus(old(polygon.pos.Value()), old(circle.pos.Value()))
    {
      var circlePos := PopVector();
      circlePos := circlePos.Copy(polygon.pos);
      circlePos := circlePos.Sub(circle.pos);
      outcome := Threw;
    }

    /** `testCirclePolygon` with its arguments passed in the intended order: the polygon
        test runs, and a hit is then read from the circle's side, so `a` and `b` trade
        places, both result vectors are reversed and the containment flags are exchanged. */
    method TestCirclePolygon(circle: Circle, polygon: Polygon, response: Response?, sqrt: real -> real) returns (hit: bool)
      requires IsSqrt(sqrt) && Valid() && |vectorPool| >= 4
      requires |polygon.points| <= |polygon.edges|
      requires polygon.pos !in vectorPool && circle.pos !in vectorPool
      requires Apart(polygon.points) && Apart(polygon.edges)
      requires response != null ==>
        response.Valid() && response.overlapN !in vectorPool && response.overlapV !in vectorPool &&
        response.overlapN !in polygon.points && response.overlapN !in polygon.edges
      modifies this, TopFour()
      modifies if response != null then {response, response.overlapN, response.overlapV} else {}
      ensures Valid() && arrayPool == old(arrayPool)
      ensures vectorPool == FlipTop(old(vectorPool), 3) || vectorPool == FlipTop(old(vectorPool), 4)
      ensures hit <==> old(forall j :: 0 <= j < |polygon.points| ==>
        !VerdictAsWritten(CentreOf(polygon, circle), circle.r, Values(polygon.points), Values(polygon.edges), j, sqrt).rejected)
      ensures response != null ==>
        response.Valid() && response.overlapN == old(response.overlapN) && response.overlapV == old(response.overlapV)
      ensures response != null && hit ==>
        response.Snapshot() == Swapped(old(ScanAsWritten(CentreOf(polygon, circle), circle.r, Values(polygon.points),
                                                         Values(polygon.edges), |polygon.points|, response.Snapshot(), sqrt).tally)) &&
        response.a == CircleShape(circle) && response.b == PolygonShape(polygon) &&
        response.overlapV.Value() == Times(response.overlapN.Value(), response.overlap)
      ensures response != null && !hit ==>
        response.Snapshot() == old(ScanAsWritten(CentreOf(polygon, circle), circle.r, Values(polygon.points),
                                                 Values(polygon.edges), |polygon.points|, response.Snapshot(), sqrt).tally) &&
        response.a == old(response.a) && response.b == old(response.b) &&
        response.overlapV.Value() == old(response.overlapV.Value())
    {
      ghost var t := if response != null then
        ScanAsWritten(CentreOf(polygon, circle), circle.r, Values(polygon.points), Values(polygon.edges),
                      |polygon.points|, response.Snapshot(), sqrt).tally
      else Tally(0.0, Origin, true, true);
      hit := TestPolygonCircle(polygon, circle, response, sqrt);
      assert response != null ==> response.Snapshot() == t;
      if hit && response != null {
        ghost var n, v := response.overlapN.Value(), response.overlapV.Value();
        assert v == Times(n, response.overlap);
        SwapResponse(response);
        assert response.Snapshot() == Swapped(t);
        ReverseOfScaled(n, response.overlap);
        assert response.overlapV.Value() == Negated(v) && response.overlapN.Value() == Negated(n);
      }
    }

    /** The end of a hit in `testCirclePolygon`: the response is turned round to describe
        the circle against the polygon. */
    static method SwapResponse(response: Response)
      requires response.Valid()
      modifies response, response.overlapN, response.overlapV
      ensures response.Valid() && response.overlapN == old(response.overlapN) && response.overlapV == old(response.overlapV)
      ensures response.Snapshot() == Swapped(old(response.Snapshot()))
      ensures response.a == old(response.b) && response.b == old(response.a)
      ensures response.overlapV.Value() == Negated(old(response.overlapV.Value()))
    {
      var a := response.a;
      var aInB := response.aInB;
      var n := response.overlapN.Reverse();
      var v := response.overlapV.Reverse();
      response.a := response.b;
      response.b := a;
      response.aInB := response.bInA;
      response.bInA := aInB;
    }

    /** `testBoxBox` as written: true exactly when the top-left corner of `a` lies in `b`,
        sides included. */
    static function TestBoxBox(a: Box, b: Box): (r: bool)
      reads a, a.pos, b, b.pos
      ensures r <==> Contains(b.Bounds(), a.pos.Value())
    {
      a.pos.x >= b.pos.x && a.pos.x <= b.pos.x + b.width &&
      a.pos.y >= b.pos.y && a.pos.y <= b.pos.y + b.height
    }

    /** The box test `testBoxBox` evidently means: the two extents overlap on both axes,
        which for boxes of non-negative size is exactly a common point. */
    static function BoxesIntersect(a: Box, b: Box): (r: bool)
      reads a, a.pos, b, b.pos
      ensures r <==> Overlap(a.Bounds(), b.Bounds())
      ensures r <==> Overlap(b.Bounds(), a.Bounds())
      ensures a.width >= 0.0 && a.height >= 0.0 && b.width >= 0.0 && b.height >= 0.0 ==>
        (r <==> exists p :: Contains(a.Bounds(), p) && Contains(b.Bounds(), p))
      ensures a.width >= 0.0 && a.height >= 0.0 && TestBoxBox(a, b) ==> r
    {
      OverlapFacts(a.Bounds(), b.Bounds());
      a.pos.x <= b.pos.x + b.width && b.pos.x <= a.pos.x + a.width &&
      a.pos.y <= b.pos.y + b.height && b.pos.y <= a.pos.y + a.height
    }

    /** The edge loop of `testPolygonCircle` and, when no edge rejects the circle, the
        recording of the hit. */
    method SweepEdges(points: seq<Vector>, edges: seq<Vector>, circlePos: Vector, edge: Vector, point: Vector,
                      radius: real, response: Response?, sqrt: real -> real,
                      ghost c: Vec, ghost ps: seq<Vec>, ghost es: seq<Vec>, ghost t0: Tally,
                      a: Participant, b: Participant)
      returns (rejected: bool, spare: Vector?)
      requires IsSqrt(sqrt) && Valid() && |vectorPool| >= 1
      requires |points| <= |edges| && Values(points) == ps && Values(edges) == es
      requires circlePos.Value() == c
      requires Scratch(circlePos, edge, point, points, edges)
      requires response != null ==>
        Owns(response, circlePos, edge, point, points, edges) && response.Snapshot() == t0 &&
        response.overlapV != vectorPool[|vectorPool| - 1]
      modifies this`vectorPool, edge, point, vectorPool[|vectorPool| - 1]
      modifies if response != null then {response, response.overlapN, response.overlapV} else {}
      ensures Valid() && arrayPool == old(arrayPool)
      ensures rejected == ScanAsWritten(c, radius, ps, es, |ps|, t0, sqrt).Rejected?
      ensures spare == null ==> vectorPool == old(vectorPool)
      ensures spare != null ==> rejected && old(vectorPool) == vectorPool + [spare]
      ensures response != null ==>
        response.Valid() && response.overlapN == old(response.overlapN) && response.overlapV == old(response.overlapV) &&
        response.Snapshot() == ScanAsWritten(c, radius, ps, es, |ps|, t0, sqrt).tally
      ensures response != null && !rejected ==>
        response.a == a && response.b == b &&
        response.overlapV.Value() == Times(response.overlapN.Value(), response.overlap)
      ensures response != null && rejected ==>
        response.a == old(response.a) && response.b == old(response.b) &&
        response.overlapV.Value() == old(response.overlapV.Value())
    {
      ghost var vs := VerdictsOfEdges(c, radius, ps, es, t0, sqrt);
      ghost var ov := if response != null then response.overlapV.Value() else Origin;
      assert Distinct(vectorPool);
      rejected, spare := EdgeLoop(points, edges, circlePos, edge, point, radius, response, sqrt, c, ps, es, vs, t0);
      if spare != null {
        DropTopKeepsDistinct(vectorPool, spare);
      }
      assert Distinct(vectorPool);
      assert response != null ==> response.overlapV.Value() == ov;
      if !rejected && response != null {
        RecordHit(response, a, b);
      }
    }

    /** The start of `testPolygonCircle`: three scratch vectors are taken, and the first
        is set to the circle's centre relative to the polygon's position. */
    method TakeScratch(centre: Vector, origin: Vector) returns (circlePos: Vector, edge: Vector, point: Vector)
      requires Valid() && |vectorPool| >= 3 && centre !in vectorPool && origin !in vectorPool
      modifies this`vectorPool, vectorPool[|vectorPool| - 1]
      ensures Valid() && arrayPool == old(arrayPool)
      ensures old(vectorPool) == vectorPool + [point, edge, circlePos]
      ensures circlePos != edge && circlePos != point && edge != point
      ensures circlePos !in vectorPool && edge !in vectorPool && point !in vectorPool
      ensures circlePos.Value() == Minus(old(centre.Value()), old(origin.Value()))
    {
      circlePos := PopVector();
      circlePos := circlePos.Copy(centre);
      circlePos := circlePos.Sub(origin);
      edge := PopVector();
      point := PopVector();
    }

    /** The end of `testPolygonCircle`: the scratch vectors go back in the order they were
        taken, so the top of the pool comes back reversed. */
    method GiveBackScratch(circlePos: Vector, edge: Vector, point: Vector, spare: Vector?,
                           ghost pools: seq<Vector>, ghost kept: seq<Vector>)
      requires |pools| >= 4
      requires pools == kept + [point, edge, circlePos]
      requires spare == null ==> vectorPool == kept
      requires spare != null ==> kept == vectorPool + [spare]
      modifies this`vectorPool
      ensures vectorPool == FlipTop(pools, 3) || vectorPool == FlipTop(pools, 4)
      ensures Distinct(pools) ==> Distinct(vectorPool)
      ensures arrayPool == old(arrayPool)
    {
      ghost var rest := vectorPool;
      PushVector(circlePos);
      PushVector(edge);
      PushVector(point);
      if spare != null {
        PushVector(spare);
        ReturnedFour(pools, rest, spare, point, edge, circlePos);
      } else {
        ReturnedThree(pools, rest, point, edge, circlePos);
      }
    }

    /** The edge loop of `testPolygonCircle`, up to the first edge that rejects the circle. */
    method EdgeLoop(points: seq<Vector>, edges: seq<Vector>, circlePos: Vector, edge: Vector, point: Vector,
                    radius: real, response: Response?, sqrt: real -> real,
                    ghost c: Vec, ghost ps: seq<Vec>, ghost es: seq<Vec>, ghost vs: seq<Verdict>, ghost t0: Tally)
      returns (rejected: bool, spare: Vector?)
      requires IsSqrt(sqrt) && |vectorPool| >= 1
      requires |points| <= |edges| && Values(points) == ps && Values(edges) == es
      requires |vs| == |points| && forall k :: 0 <= k < |vs| ==> Judged(vs, c, radius, ps, es, k, sqrt)
      requires circlePos.Value() == c
      requires Scratch(circlePos, edge, point, points, edges)
      requires response != null ==> Owns(response, circlePos, edge, point, points, edges) && response.Snapshot() == t0
      modifies this`vectorPool, edge, point, vectorPool[|vectorPool| - 1]
      modifies Held(response)`overlap, Held(response)`aInB, Held(response)`bInA
      modifies if response != null then {response.overlapN} else {}
      ensures rejected == ScanFold(vs, t0).Rejected?
      ensures spare == null ==> vectorPool == old(vectorPool)
      ensures spare != null ==> rejected && old(vectorPool) == vectorPool + [spare]
      ensures response != null ==>
        response.Snapshot() == ScanFold(vs, t0).tally
    {
      var len := |points|;
      rejected, spare := false, null;
      var i := 0;
      PrefixStep(vs, 0);
      while i < len && !rejected
        invariant 0 <= i <= len
        invariant spare == null ==> vectorPool == old(vectorPool)
        invariant spare != null ==> rejected && old(vectorPool) == vectorPool + [spare]
        invariant circlePos.Value() == c && Values(points) == ps && Values(edges) == es
        invariant rejected == ScanFold(vs[..i], t0).Rejected?
        invariant response != null ==>
          response.Snapshot() == ScanFold(vs[..i], t0).tally
        decreases len - i
      {
        rejected, spare := ScanEdge(points, edges, i, circlePos, edge, point, radius, response, sqrt, c, ps, es, vs, t0);
        i := i + 1;
      }
      ScanFoldSettled(vs, i, t0);
    }

    /** One pass of the edge loop of `testPolygonCircle`, after `i` edges that did not
        reject the circle. */
    method ScanEdge(points: seq<Vector>, edges: seq<Vector>, i: nat, circlePos: Vector, edge: Vector,
                    point: Vector, radius: real, response: Response?, sqrt: real -> real,
                    ghost c: Vec, ghost ps: seq<Vec>, ghost es: seq<Vec>, ghost vs: seq<Verdict>, ghost t0: Tally)
      returns (rejected: bool, spare: Vector?)
      requires IsSqrt(sqrt) && |vectorPool| >= 1
      requires i < |points| <= |edges| && Values(points) == ps && Values(edges) == es
      requires Judged(vs, c, radius, ps, es, i, sqrt)
      requires circlePos.Value() == c
      requires Scratch(circlePos, edge, point, points, edges)
      requires !ScanFold(vs[..i], t0).Rejected?
      requires response != null ==>
        Owns(response, circlePos, edge, point, points, edges) && response.Snapshot() == ScanFold(vs[..i], t0).tally
      modifies this`vectorPool, edge, point, vectorPool[|vectorPool| - 1]
      modifies Held(response)`overlap, Held(response)`aInB, Held(response)`bInA
      modifies if response != null then {response.overlapN} else {}
      ensures rejected == ScanFold(vs[..i + 1], t0).Rejected?
      ensures spare == null ==> vectorPool == old(vectorPool)
      ensures spare != null ==> rejected && old(vectorPool) == vectorPool + [spare]
      ensures circlePos.Value() == c && Values(points) == ps && Values(edges) == es
      ensures response != null ==>
        response.Snapshot() == ScanFold(vs[..i + 1], t0).tally
    {
      VerdictBySides(c, radius, ps, es, i, sqrt);
      rejected, spare := EdgeAsWritten(points, edges, i, circlePos, edge, point, radius, response, sqrt, c, ps, es);
      PrefixStep(vs, i);
      ScanFoldExtend(vs[..i], vs[i], t0);
    }

    /** The four scratch vectors on top of `T_VECTOR`, which `testPolygonCircle` borrows. */
    ghost function TopFour(): set<Vector>
      requires |vectorPool| >= 4
      reads this
    {
      var n := |vectorPool|;
      {vectorPool[n - 1], vectorPool[n - 2], vectorPool[n - 3], vectorPool[n - 4]}
    }

    /** The three scratch vectors of `testPolygonCircle` are distinct, out of the pool and
        not parts of the polygon. */
    ghost predicate Scratch(circlePos: Vector, edge: Vector, point: Vector, points: seq<Vector>, edges: seq<Vector>)
      reads this
    {
      circlePos != edge && circlePos != point && edge != point &&
      circlePos !in vectorPool && edge !in vectorPool && point !in vectorPool &&
      Apart(points) && Apart(edges) &&
      edge !in points && edge !in edges && point !in points && point !in edges
    }

    /** The response's vectors are neither scratch vectors nor parts of the polygon. */
    ghost predicate Owns(response: Response, circlePos: Vector, edge: Vector, point: Vector,
                         points: seq<Vector>, edges: seq<Vector>)
      reads this, response
    {
      response.Valid() &&
      response.overlapN !in vectorPool && response.overlapV !in vectorPool &&
      response.overlapN != circlePos && response.overlapN != edge && response.overlapN != point &&
      response.overlapV != edge && response.overlapV != point &&
      response.overlapN !in points && response.overlapN !in edges
    }

    /** The LEFT-region branch of `testPolygonCircle`: the previous edge is examined in
        `edge` and a fourth scratch vector, which goes back to the pool unless the circle is
        rejected; then it is handed back as `spare`. `point` holds the centre relative
        to the current edge's start. */
    method StartAsWritten(prevEdge: Vector, prevPoint: Vector, circlePos: Vector, edge: Vector, point: Vector,
                          radius: real, response: Response?, sqrt: real -> real,
                          ghost clearsA: bool, ghost p: Vec, ghost q: Vec, ghost e: Vec)
      returns (rejected: bool, spare: Vector?)
      requires IsSqrt(sqrt) && |vectorPool| >= 1
      requires point.Value() == p && Minus(circlePos.Value(), prevPoint.Value()) == q && prevEdge.Value() == e
      requires circlePos != edge && circlePos != point && edge != point
      requires circlePos !in vectorPool && edge !in vectorPool && point !in vectorPool
      requires prevEdge !in vectorPool && prevPoint !in vectorPool && prevPoint != edge
      requires response != null ==>
        response.overlapN !in vectorPool && response.overlapN != edge && response.overlapN != point &&
        (clearsA ==> !response.aInB)
      modifies this`vectorPool, edge, point, vectorPool[|vectorPool| - 1]
      modifies Held(response)`bInA
      ensures rejected == BeforeStartAsWritten(clearsA, p, q, e, radius, sqrt).rejected
      ensures !rejected ==> spare == null && vectorPool == old(vectorPool)
      ensures rejected ==> spare != null && old(vectorPool) == vectorPool + [spare]
      ensures response != null ==>
        response.Snapshot() == Apply(old(response.Snapshot()), BeforeStartAsWritten(clearsA, p, q, e, radius, sqrt)).tally
    {
      ghost var v := BeforeStartAsWritten(clearsA, p, q, e, radius, sqrt);
      ghost var t := if response != null then response.Snapshot() else Tally(0.0, Origin, true, true);
      var ed := edge.Copy(prevEdge);
      var point2 := PopVector();
      point2 := point2.Copy(circlePos);
      point2 := point2.Sub(prevPoint);
      var region := VornoiRegion(edge.Value(), point2.Value());
      rejected, spare := false, null;
      if region == RightRegion {
        var dist := point.Len(sqrt);
        if dist > radius {
          rejected, spare := true, point2;
        } else if response != null {
          response.bInA := false;
          var overlapN := point.Normalize(sqrt);
        }
      }
      if !rejected {
        PushVector(point2);
      }
    }

    /** The RIGHT-region branch of `testPolygonCircle`: the next edge is examined in `edge`
        and `point`, and whatever overlap is found is offered to the smallest-overlap
        update. */
    static method EndAsWritten(nextEdge: Vector, nextPoint: Vector, circlePos: Vector, edge: Vector, point: Vector,
                               radius: real, response: Response?, sqrt: real -> real,
                               ghost clearsA: bool, ghost q: Vec, ghost e: Vec)
      returns (rejected: bool)
      requires IsSqrt(sqrt)
      requires Minus(circlePos.Value(), nextPoint.Value()) == q && nextEdge.Value() == e
      requires circlePos != edge && circlePos != point && edge != point && nextPoint != edge && nextPoint != point
      requires response != null ==>
        response.Valid() && response.overlapN != edge && response.overlapN != point &&
        response.overlapN != nextEdge && response.overlapN != nextPoint && response.overlapN != circlePos &&
        (clearsA ==> !response.aInB)
      modifies edge, point
      modifies Held(response)`overlap, Held(response)`aInB, Held(response)`bInA
      modifies if response != null then {response.overlapN} else {}
      ensures rejected == BeyondEndAsWritten(clearsA, q, e, radius, sqrt).rejected
      ensures response != null ==>
        response.Snapshot() == Apply(old(response.Snapshot()), BeyondEndAsWritten(clearsA, q, e, radius, sqrt)).tally
    {
      ghost var v := BeyondEndAsWritten(clearsA, q, e, radius, sqrt);
      var ed := edge.Copy(nextEdge);
      var pt := point.Copy(circlePos);
      pt := point.Sub(nextPoint);
      assert edge.Value() == e && point.Value() == q;
      var region := VornoiRegion(edge.Value(), point.Value());
      var overlap := 0.0;
      var overlapN: Vector? := null;
      if region == LeftRegion {
        rejected, overlapN, overlap := EndVertex(point, radius, response, sqrt, clearsA, q, e);
      } else {
        rejected, overlapN, overlap := EndSide(edge, point, radius, response, sqrt, clearsA, q, e);
      }
      if overlapN != null && response != null && Abs(overlap) < Abs(response.overlap) {
        response.overlap := overlap;
        var n := response.overlapN.Copy(overlapN);
      }
    }

    /** The next edge's LEFT region: the distance from the vertex decides. On an overlap
        with a response, `point` is normalised in place and offered as its direction. */
    static method EndVertex(point: Vector, radius: real, response: Response?, sqrt: real -> real,
                            ghost clearsA: bool, ghost q: Vec, ghost e: Vec)
      returns (rejected: bool, overlapN: Vector?, overlap: real)
      requires IsSqrt(sqrt) && point.Value() == q && VornoiRegion(e, q) == LeftRegion
      requires response != null ==> response.overlapN != point
      modifies point
      modifies Held(response)`bInA
      ensures rejected == BeyondEndAsWritten(clearsA, q, e, radius, sqrt).rejected
      ensures overlapN != null ==>
        response != null && !rejected && overlapN == point &&
        Some(Candidate(overlap, point.Value())) == BeyondEndAsWritten(clearsA, q, e, radius, sqrt).candidate
      ensures response != null && !rejected ==>
        overlapN != null &&
        response.bInA == (old(response.bInA) && !BeyondEndAsWritten(clearsA, q, e, radius, sqrt).clearsB)
      ensures response != null && rejected ==> response.bInA == old(response.bInA)
    {
      var dist := point.Len(sqrt);
      overlapN, overlap := null, 0.0;
      rejected := false;
      if dist > radius {
        rejected := true;
      } else if response != null {
        response.bInA := false;
        overlapN := point.Normalize(sqrt);
        overlap := radius - dist;
      }
    }

    /** The next edge's MIDDLE region: the distance from the next edge decides. `edge` is
        turned into that edge's normal in place, which is offered as the direction. */
    static method EndSide(edge: Vector, point: Vector, radius: real, response: Response?, sqrt: real -> real,
                          ghost clearsA: bool, ghost q: Vec, ghost e: Vec)
      returns (rejected: bool, overlapN: Vector?, overlap: real)
      requires IsSqrt(sqrt) && point.Value() == q && edge.Value() == e && VornoiRegion(e, q) != LeftRegion
      requires edge != point
      requires response != null ==> response.overlapN != edge
      modifies edge
      modifies Held(response)`bInA
      ensures rejected == BeyondEndAsWritten(clearsA, q, e, radius, sqrt).rejected
      ensures overlapN != null ==>
        response != null && !rejected && overlapN == edge &&
        Some(Candidate(overlap, edge.Value())) == BeyondEndAsWritten(clearsA, q, e, radius, sqrt).candidate
      ensures response != null && !rejected ==>
        overlapN != null &&
        response.bInA == (old(response.bInA) && !BeyondEndAsWritten(clearsA, q, e, radius, sqrt).clearsB)
      ensures response != null && rejected ==> response.bInA == old(response.bInA)
    {
      ghost var unit := Unit(Perpendicular(e), sqrt);
      ghost var d := DotProduct(q, unit);
      ghost var v := BeyondEndAsWritten(clearsA, q, e, radius, sqrt);
      assert v == if d > 0.0 && Abs(d) > radius then Verdict(true, clearsA, false, None)
        else Verdict(false, clearsA, d >= 0.0 || radius - d < 2.0 * radius, Some(Candidate(radius - d, unit)));
      var normal := edge.Perp();
      normal := normal.Normalize(sqrt);
      assert normal.Value() == unit && point.Value() == q;
      var dist := point.Dot(normal);
      assert dist == d;
      var distAbs := Abs(dist);
      overlapN, overlap := null, 0.0;
      rejected := false;
      if dist > 0.0 && distAbs > radius {
        rejected := true;
      } else if response != null {
        overlapN := normal;
        overlap := radius - dist;
        if dist >= 0.0 || overlap < 2.0 * radius {
          response.bInA := false;
        }
      }
    }

    /** One pass of the edge loop of `testPolygonCircle`, for edge `i`, as written. */
    method EdgeAsWritten(points: seq<Vector>, edges: seq<Vector>, i: nat, circlePos: Vector, edge: Vector,
                         point: Vector, radius: real, response: Response?, sqrt: real -> real,
                         ghost c: Vec, ghost ps: seq<Vec>, ghost es: seq<Vec>)
      returns (rejected: bool, spare: Vector?)
      requires IsSqrt(sqrt) && |vectorPool| >= 1
      requires i < |points| <= |edges| && Values(points) == ps && Values(edges) == es
      requires circlePos.Value() == c
      requires Scratch(circlePos, edge, point, points, edges)
      requires response != null ==> Owns(response, circlePos, edge, point, points, edges)
      modifies this`vectorPool, edge, point, vectorPool[|vectorPool| - 1]
      modifies Held(response)`overlap, Held(response)`aInB, Held(response)`bInA
      modifies if response != null then {response.overlapN} else {}
      ensures rejected == SidesVerdict(c, radius, SidesAt(ps, es, i), sqrt).rejected
      ensures spare == null ==> vectorPool == old(vectorPool)
      ensures spare != null ==> rejected && old(vectorPool) == vectorPool + [spare]
      ensures circlePos.Value() == c && Values(points) == ps && Values(edges) == es
      ensures response != null ==>
        response.Snapshot() == Apply(old(response.Snapshot()), SidesVerdict(c, radius, SidesAt(ps, es, i), sqrt)).tally
    {
      var len := |points|;
      var next := if i == len - 1 then 0 else i + 1;
      var prev := if i == 0 then len - 1 else i - 1;
      assert next == Next(i, |ps|) && prev == Prev(i, |ps|);
      assert points[i].Value() == ps[i] && points[prev].Value() == ps[prev] && points[next].Value() == ps[next];
      assert edges[i].Value() == es[i] && edges[prev].Value() == es[prev] && edges[next].Value() == es[next];
      assert points[i] in points && points[prev] in points && points[next] in points;
      assert edges[i] in edges && edges[prev] in edges && edges[next] in edges;
      ghost var sides := SidesAt(ps, es, i);
      assert vectorPool[|vectorPool| - 1] in vectorPool;
      assert vectorPool[|vectorPool| - 1] !in points + edges + [circlePos];
      rejected, spare := EdgeStep(points[i], edges[i], points[prev], edges[prev], points[next], edges[next],
                                  circlePos, edge, point, radius, response, sqrt, c, sides);
      KeptValues(points);
      KeptValues(edges);
    }

    /** The body of the edge loop of `testPolygonCircle`, given the current, previous and
        next points and edges. */
    method EdgeStep(here: Vector, edgeHere: Vector, prevPoint: Vector, prevEdge: Vector, nextPoint: Vector, nextEdge: Vector,
                    circlePos: Vector, edge: Vector, point: Vector, radius: real, response: Response?, sqrt: real -> real,
                    ghost c: Vec, ghost sides: Sides)
      returns (rejected: bool, spare: Vector?)
      requires IsSqrt(sqrt) && |vectorPool| >= 1
      requires circlePos.Value() == c
      requires sides == Sides(here.Value(), prevPoint.Value(), nextPoint.Value(), edgeHere.Value(), prevEdge.Value(), nextEdge.Value())
      requires circlePos != edge && circlePos != point && edge != point
      requires circlePos !in vectorPool && edge !in vectorPool && point !in vectorPool
      requires here != edge && here != point && prevPoint != edge && prevPoint != point && nextPoint != edge && nextPoint != point
      requires prevEdge != edge && prevEdge != point && nextEdge != edge && nextEdge != point
      requires prevPoint !in vectorPool && prevEdge !in vectorPool
      requires response != null ==>
        response.Valid() && response.overlapN !in vectorPool &&
        response.overlapN != circlePos && response.overlapN != edge && response.overlapN != point &&
        response.overlapN != nextEdge && response.overlapN != nextPoint
      modifies this`vectorPool, edge, point, vectorPool[|vectorPool| - 1]
      modifies Held(response)`overlap, Held(response)`aInB, Held(response)`bInA
      modifies if response != null then {response.overlapN} else {}
      ensures rejected == SidesVerdict(c, radius, sides, sqrt).rejected
      ensures spare == null ==> vectorPool == old(vectorPool)
      ensures spare != null ==> rejected && old(vectorPool) == vectorPool + [spare]
      ensures response != null ==>
        response.Snapshot() == Apply(old(response.Snapshot()), SidesVerdict(c, radius, sides, sqrt)).tally
    {
      ghost var v := SidesVerdict(c, radius, sides, sqrt);
      ghost var clearsA := SquaredLength(Minus(c, sides.here)) > radius * radius;
      ghost var t0 := if response != null then response.Snapshot() else Tally(0.0, Origin, true, true);
      LocateCentre(here, edgeHere, circlePos, edge, point, radius, response);
      ghost var t1 := t0.(aInB := t0.aInB && !clearsA);
      assert edge.Value() == sides.edgeHere && point.Value() == Minus(c, sides.here);
      assert response != null ==> response.Snapshot() == t1;
      ApplyAfterClearingA(t0, v);
      var region := VornoiRegion(edge.Value(), point.Value());
      rejected, spare := false, null;
      if region == LeftRegion {
        assert v == BeforeStartAsWritten(clearsA, Minus(c, sides.here), Minus(c, sides.prev), sides.edgePrev, radius, sqrt);
        rejected, spare := StartAsWritten(prevEdge, prevPoint, circlePos, edge, point, radius, response, sqrt,
                                          clearsA, Minus(c, sides.here), Minus(c, sides.prev), sides.edgePrev);
      } else if region == RightRegion {
        assert v == BeyondEndAsWritten(clearsA, Minus(c, sides.next), sides.edgeNext, radius, sqrt);
        rejected := EndAsWritten(nextEdge, nextPoint, circlePos, edge, point, radius, response, sqrt,
                                 clearsA, Minus(c, sides.next), sides.edgeNext);
      } else {
        assert v == Verdict(false, clearsA, false, None);
      }
    }

    /** The opening of each pass of the edge loop: `edge` takes the edge, `point` the centre
        relative to the edge's start, and a centre farther than the radius from that point
        means `a` is not inside `b`. */
    static method LocateCentre(here: Vector, edgeHere: Vector, circlePos: Vector, edge: Vector, point: Vector,
                               radius: real, response: Response?)
      requires edge != point && here != edge && here != point && circlePos != edge && circlePos != point
      requires response != null ==> response.overlapN != edge && response.overlapN != point
      modifies edge, point, Held(response)`aInB
      ensures edge.Value() == old(edgeHere.Value())
      ensures point.Value() == Minus(old(circlePos.Value()), old(here.Value()))
      ensures response != null ==>
        response.Snapshot() ==
        old(response.Snapshot()).(aInB := old(response.aInB) && !(SquaredLength(point.Value()) > radius * radius))
    {
      var e := edge.Copy(edgeHere);
      var p := point.Copy(circlePos);
      p := point.Sub(here);
      if response != null && point.Len2() > radius * radius {
        response.aInB := false;
      }
    }

    /** `T_VECTOR.pop()` */
    method PopVector() returns (v: Vector)
      requires |vectorPool| >= 1
      modifies this`vectorPool
      ensures old(vectorPool) == vectorPool + [v] && v in old(vectorPool)
      ensures old(Valid()) ==> Valid() && v !in vectorPool
    {
      v := vectorPool[|vectorPool| - 1];
      vectorPool := vectorPool[..|vectorPool| - 1];
    }

    /** `T_VECTOR.push(v)` */
    method PushVector(v: Vector)
      modifies this`vectorPool
      ensures vectorPool == old(vectorPool) + [v]
    {
      vectorPool := vectorPool + [v];
    }

    /** Two `T_ARRAYS.pop()` calls: the top of the stack, then the item below it. */
    method PopTwoArrays() returns (first: array<real>, second: array<real>)
      requires |arrayPool| >= 2
      modifies this`arrayPool
      ensures old(arrayPool) == arrayPool + [second, first]
    {
      first := arrayPool[|arrayPool| - 1];
      second := arrayPool[|arrayPool| - 2];
      arrayPool := arrayPool[..|arrayPool| - 2];
    }

    /** `T_ARRAYS.push(first); T_ARRAYS.push(second);` */
    method PushTwoArrays(first: array<real>, second: array<real>)
      modifies this`arrayPool
      ensures arrayPool == old(arrayPool) + [first, second]
    {
      arrayPool := arrayPool + [first, second];
    }

    /** The first half of `isSeparatingAxis`: the offset between the positions in the
        scratch vector, A's range in `rangeA` and B's range, moved by the offset, in
        `rangeB`. */
    static method ProjectRanges(aPos: Vector, bPos: Vector, aPoints: seq<Vec>, bPoints: seq<Vec>,
                                axis: Vector, offsetV: Vector, rangeA: array<real>, rangeB: array<real>,
                                ghost scene: Scene, ghost ax: Vec)
      requires scene.aPos == aPos.Value() && scene.aPoints == aPoints && scene.bPos == bPos.Value() && scene.bPoints == bPoints && ax == axis.Value()
      requires offsetV != aPos && offsetV != bPos && offsetV != axis
      requires rangeA.Length == 2 && rangeB.Length == 2 && rangeA != rangeB
      modifies offsetV, rangeA, rangeB
      ensures unchanged(aPos, bPos, axis)
      ensures Range(rangeA[0], rangeA[1]) == RangeOfA(scene, ax)
      ensures Range(rangeB[0], rangeB[1]) == RangeOfB(scene, ax)
    {
      var o := offsetV.Copy(bPos);
      o := o.Sub(aPos);
      var projectedOffset := o.Dot(axis);
      assert projectedOffset == Offset(scene.aPos, scene.bPos, ax);
      FlattenPointsOn(aPoints, axis, rangeA);
      FlattenPointsOn(bPoints, axis, rangeB);
      rangeB[0] := rangeB[0] + projectedOffset;
      rangeB[1] := rangeB[1] + projectedOffset;
    }

    /** The response part of `isSeparatingAxis`, for ranges `[aLo, aHi]` and `[bLo, bHi]`
        that overlap. */
    method RefineResponse(response: Response, aLo: real, aHi: real, bLo: real, bHi: real, axis: Vector)
      requires response.Valid() && response.overlapN != axis
      modifies response, response.overlapN
      ensures response.a == old(response.a) && response.b == old(response.b)
      ensures response.overlapN == old(response.overlapN) && response.overlapV == old(response.overlapV)
      ensures axis.Value() == old(axis.Value())
      ensures response.Snapshot() == old(Refine(response.Snapshot(), Range(aLo, aHi), Range(bLo, bHi), axis.Value()))
    {
      ghost var t := response.Snapshot();
      var overlap := 0.0;
      if aLo < bLo {
        response.aInB := false;
        if aHi < bHi {
          overlap := aHi - bLo;
          response.bInA := false;
        } else {
          var option1 := aHi - bLo;
          var option2 := bHi - aLo;
          overlap := if option1 < option2 then option1 else -option2;
        }
      } else {
        response.bInA := false;
        if aHi > bHi {
          overlap := aLo - bHi;
          response.aInB := false;
        } else {
          var option1 := aHi - bLo;
          var option2 := bHi - aLo;
          overlap := if option1 < option2 then option1 else -option2;
        }
      }
      assert overlap == SignedOverlap(Range(aLo, aHi), Range(bLo, bHi));
      var absOverlap := Abs(overlap);
      if absOverlap < response.overlap {
        response.overlap := absOverlap;
        var n := response.overlapN.Copy(axis);
        if overlap < 0.0 {
          n := response.overlapN.Reverse();
        }
      }
    }
  }
}
