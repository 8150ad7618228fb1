/** Convex polygons and their derived edges and normals (plugins/sat/polygon.js).

    A polygon is an origin `pos` and points relative to it, listed clockwise. `Recalc`
    derives edge `i`, from point `i` to point `i + 1` (the last edge wraps back to point
    0), and normal `i`, the perpendicular (y, -x) of edge `i` made unit length. The
    edges and normals are a cache: a caller that changes the points must call `Recalc`. */
module Polygons {
  import opened JsValues
  import opened Vectors

  /** The end point of edge `i` of an `n`-gon. */
  function Next(i: nat, n: nat): (j: nat)
    requires i < n
    ensures j < n
  {
    if i < n - 1 then i + 1 else 0
  }

  function EdgeAt(ps: seq<Vec>, i: nat): Vec
    requires i < |ps|
  {
    Minus(ps[Next(i, |ps|)], ps[i])
  }

  function Edges(ps: seq<Vec>): (es: seq<Vec>)
    ensures |es| == |ps|
    ensures forall i :: 0 <= i < |ps| ==> es[i] == EdgeAt(ps, i)
  {
    seq(|ps|, i requires 0 <= i < |ps| => EdgeAt(ps, i))
  }

  /** `new Vector().copy(e).perp().normalize()` */
  function NormalOf(e: Vec, sqrt: real -> real): Vec
  {
    Unit(Perpendicular(e), sqrt)
  }

  function Normals(ps: seq<Vec>, sqrt: real -> real): (ns: seq<Vec>)
    ensures |ns| == |ps|
    ensures forall i :: 0 <= i < |ps| ==> ns[i] == NormalOf(EdgeAt(ps, i), sqrt)
  {
    seq(|ps|, i requires 0 <= i < |ps| => NormalOf(EdgeAt(ps, i), sqrt))
  }

  /** Sum of a sequence of vectors, accumulated from the front. */
  function Total(vs: seq<Vec>): Vec
  {
    if |vs| == 0 then Origin else Plus(Total(vs[..|vs| - 1]), vs[|vs| - 1])
  }

  /** The first `k` edges of a polygon lead from point 0 to point `k`. */
  lemma {:induction false} EdgePrefixTelescopes(ps: seq<Vec>, k: nat)
    requires k < |ps|
    ensures Total(Edges(ps)[..k]) == Minus(ps[k], ps[0])
  {
    var es := Edges(ps);
    if k > 0 {
      EdgePrefixTelescopes(ps, k - 1);
      assert es[..k][..k - 1] == es[..k - 1];
      assert es[k - 1] == Minus(ps[k], ps[k - 1]);
    }
  }

  /** Because the last edge wraps around to point 0, the edges of a polygon sum to zero. */
  lemma {:induction false} EdgesSumToZero(ps: seq<Vec>)
    ensures Total(Edges(ps)) == Origin
  {
    var es := Edges(ps);
    var n := |ps|;
    if n > 0 {
      EdgePrefixTelescopes(ps, n - 1);
      assert es[..n] == es;
      assert es[n - 1] == Minus(ps[0], ps[n - 1]);
    }
  }

  /** Each normal is orthogonal to its edge. */
  lemma {:induction false} NormalsAreOrthogonal(ps: seq<Vec>, i: nat, sqrt: real -> real)
    requires i < |ps|
    ensures DotProduct(Normals(ps, sqrt)[i], EdgeAt(ps, i)) == 0.0
    ensures DotProduct(EdgeAt(ps, i), Perpendicular(EdgeAt(ps, i))) == 0.0
  {
    var e := EdgeAt(ps, i);
    var p := Perpendicular(e);
    PerpendicularIsOrthogonal(e);
    assert p.x * e.x + p.y * e.y == 0.0;
    var d := sqrt(SquaredLength(p));
    if d > 0.0 {
      assert Normals(ps, sqrt)[i] == Vec(p.x / d, p.y / d);
      assert (p.x / d) * e.x + (p.y / d) * e.y == (p.x * e.x + p.y * e.y) / d;
    }
  }

  class Polygon {
    var pos: Vector
    var points: seq<Vector>
    var edges: seq<Vector>
    var normals: seq<Vector>

    /** The cache agrees with the current points. */
    ghost predicate Consistent(sqrt: real -> real)
      reads this, points, edges, normals
    {
      Values(edges) == Edges(Values(points)) && Values(normals) == Normals(Values(points), sqrt)
    }

    /** `new Polygon(pos, points)`. A missing `pos` becomes a new origin vector and missing
        points become the empty list (the source's `points | []` is a defect, modelled by
        `InitPointsAsWritten`). */
    constructor (pos: Vector?, points: Option<seq<Vector>>, sqrt: real -> real)
      requires IsSqrt(sqrt)
      ensures pos != null ==> this.pos == pos
      ensures pos == null ==> fresh(this.pos) && this.pos.Value() == Origin
      ensures this.points == if points.Some? then points.value else []
      ensures Values(this.points) == old(if points.Some? then Values(points.value) else [])
      ensures Consistent(sqrt)
      ensures forall i :: 0 <= i < |edges| ==> fresh(edges[i])
      ensures forall i :: 0 <= i < |normals| ==> fresh(normals[i])
    {
      if pos != null {
        this.pos := pos;
      } else {
        this.pos := new Vector(0.0, 0.0);
      }
      this.points := if points.Some? then points.value else [];
      edges := [];
      normals := [];
      new;
      Recalc(sqrt);
    }

    /** Rebuilds the edges and normals from the points, with new vectors. */
    method Recalc(sqrt: real -> real)
      requires IsSqrt(sqrt)
      modifies this`edges, this`normals
      ensures Consistent(sqrt)
      ensures |edges| == |points| && |normals| == |points|
      ensures forall i :: 0 <= i < |edges| ==> fresh(edges[i])
      ensures forall i :: 0 <= i < |normals| ==> fresh(normals[i])
    {
      edges, normals := BuildEdges(points, sqrt);
    }
  }

  /** The loop of `recalc`: one new edge vector and one new normal vector per point, the
      edge from each point to the next one (the last wraps around to the first). */
  method BuildEdges(ps: seq<Vector>, sqrt: real -> real) returns (edges: seq<Vector>, normals: seq<Vector>)
    requires IsSqrt(sqrt)
    ensures Values(edges) == Edges(Values(ps)) && Values(normals) == Normals(Values(ps), sqrt)
    ensures forall i :: 0 <= i < |edges| ==> fresh(edges[i])
    ensures forall i :: 0 <= i < |normals| ==> fresh(normals[i])
  {
    var len := |ps|;
    ghost var values := Values(ps);
    ghost var ev, nv := Edges(values), Normals(values, sqrt);
    edges := [];
    normals := [];
    for i := 0 to len
      invariant |edges| == i && |normals| == i
      invariant forall k :: 0 <= k < i ==> fresh(edges[k]) && fresh(normals[k])
      invariant forall k :: 0 <= k < i ==> edges[k].Value() == ev[k] && normals[k].Value() == nv[k]
    {
      var p1 := ps[i];
      var p2 := if i < len - 1 then ps[i + 1] else ps[0];
      assert p2 == ps[Next(i, len)];
      var e, n := NewEdge(p1, p2, sqrt);
      assert e.Value() == ev[i] && n.Value() == nv[i];
      edges := edges + [e];
      normals := normals + [n];
    }
    HoldValues(edges, ev);
    HoldValues(normals, nv);
  }

  /** Vectors that hold `ws` one by one have `ws` as their values. */
  lemma HoldValues(vs: seq<Vector>, ws: seq<Vec>)
    requires |vs| == |ws| && forall k :: 0 <= k < |ws| ==> vs[k].Value() == ws[k]
    ensures Values(vs) == ws
  {
  }

  /** One iteration of `recalc`: a new edge vector from `p1` to `p2` and a new normal
      vector for it. The source writes `new ig.global.Vector.copy(p2)`, which throws (see
      `RecalcAsWritten`); the intended new vectors are built here. */
  method NewEdge(p1: Vector, p2: Vector, sqrt: real -> real) returns (e: Vector, n: Vector)
    requires IsSqrt(sqrt)
    ensures fresh(e) && fresh(n) && e != n
    ensures e.Value() == Minus(p2.Value(), p1.Value())
    ensures n.Value() == NormalOf(e.Value(), sqrt)
  {
    e := new Vector(0.0, 0.0);
    e := e.Copy(p2);
    e := e.Sub(p1);
    n := NewNormal(e, sqrt);
  }

  /** `new Vector().copy(edge).perp().normalize()` */
  method NewNormal(edge: Vector, sqrt: real -> real) returns (n: Vector)
    requires IsSqrt(sqrt)
    ensures fresh(n)
    ensures n.Value() == NormalOf(old(edge.Value()), sqrt)
  {
    n := new Vector(0.0, 0.0);
    n := n.Copy(edge);
    n := n.Perp();
    n := n.Normalize(sqrt);
  }

  /** What `this.points` holds after the source's `points | []`. */
  datatype PointsField = NumberField(n: int) | ArrayField(items: seq<Vec>)

  /** `points | []` as written: `|` converts both operands with ToInt32. An array of
      Vector objects (or a missing argument) converts to NaN and then 0, the empty array
      to 0, so the polygon always stores the number 0 instead of its points. */
  function InitPointsAsWritten(points: Option<seq<Vec>>): (f: PointsField)
  {
    NumberField(0)
  }

  /** The number of edges `recalc` builds for a points field: a number has no `length`,
      and `0 < undefined` is false, so it builds none. */
  function EdgeCountAsWritten(f: PointsField): nat
  {
    match f
    case NumberField(_) => 0
    case ArrayField(items) => |items|
  }

  /** As written, every polygon is built from no points at all and has no edges. */
  lemma InitDropsPoints(ps: seq<Vec>)
    requires |ps| > 0
    ensures InitPointsAsWritten(Some(ps)) != ArrayField(ps)
    ensures EdgeCountAsWritten(InitPointsAsWritten(Some(ps))) == 0 < |Edges(ps)|
  {
  }

  datatype RecalcOutcome = Recalculated(edges: seq<Vec>, normals: seq<Vec>) | TypeErrorThrown

  /** `recalc` as written: `new ig.global.Vector.copy(p2)` applies `new` to the `copy`
      property of the Vector constructor, which is undefined (copy is an instance method),
      so the first iteration throws a TypeError. */
  function RecalcAsWritten(ps: seq<Vec>): RecalcOutcome
  {
    if |ps| == 0 then Recalculated([], []) else TypeErrorThrown
  }

  lemma RecalcAsWrittenThrows(ps: seq<Vec>)
    requires |ps| > 0
    ensures RecalcAsWritten(ps) == TypeErrorThrown
    ensures |Edges(ps)| == |ps|
  {
  }
}
