/** Axis-aligned boxes (plugins/sat/box.js): a top-left corner, a width and a height. */
module Boxes {
  import opened JsValues
  import opened Vectors
  import opened Polygons

  /** The corners of a `w` by `h` box relative to its top-left corner, clockwise on a
      screen whose y axis points down. */
  function Corners(w: real, h: real): seq<Vec>
  {
    [Vec(0.0, 0.0), Vec(w, 0.0), Vec(w, h), Vec(0.0, h)]
  }

  /** The edges of a box polygon are its four sides, in order. */
  lemma CornerEdgesAreSides(w: real, h: real)
    ensures Edges(Corners(w, h)) == [Vec(w, 0.0), Vec(0.0, h), Vec(-w, 0.0), Vec(0.0, -h)]
  {
    var es := Edges(Corners(w, h));
    assert es[0] == Vec(w, 0.0);
    assert es[1] == Vec(0.0, h);
    assert es[2] == Vec(-w, 0.0);
    assert es[3] == Vec(0.0, -h);
  }

  /** The closed region a box covers, as a value: its top-left corner and its size. */
  datatype Rect = Rect(corner: Vec, width: real, height: real)

  /** `p` lies in `r`, its sides included. */
  predicate Contains(r: Rect, p: Vec)
  {
    r.corner.x <= p.x <= r.corner.x + r.width && r.corner.y <= p.y <= r.corner.y + r.height
  }

  /** The two extents overlap on both axes. */
  predicate Overlap(a: Rect, b: Rect)
  {
    a.corner.x <= b.corner.x + b.width && b.corner.x <= a.corner.x + a.width &&
    a.corner.y <= b.corner.y + b.height && b.corner.y <= a.corner.y + a.height
  }

  /** Whether two boxes overlap does not depend on which one is named first. */
  lemma OverlapSymmetric(a: Rect, b: Rect)
    ensures Overlap(a, b) <==> Overlap(b, a)
  {
  }

  /** Boxes of non-negative size overlap exactly when some point lies in both. */
  lemma OverlapIffCommonPoint(a: Rect, b: Rect)
    requires a.width >= 0.0 && a.height >= 0.0 && b.width >= 0.0 && b.height >= 0.0
    ensures Overlap(a, b) <==> exists p :: Contains(a, p) && Contains(b, p)
  {
    if Overlap(a, b) {
      var p := Vec(Max(a.corner.x, b.corner.x), Max(a.corner.y, b.corner.y));
      assert Contains(a, p) && Contains(b, p);
    }
  }

  /** A box of non-negative size whose corner lies in another box overlaps it. */
  lemma CornerInsideOverlaps(a: Rect, b: Rect)
    requires a.width >= 0.0 && a.height >= 0.0
    ensures Contains(b, a.corner) ==> Overlap(a, b)
  {
  }

  /** Symmetry, the common point and the corner test, for any two boxes. */
  lemma OverlapFacts(a: Rect, b: Rect)
    ensures Overlap(a, b) <==> Overlap(b, a)
    ensures a.width >= 0.0 && a.height >= 0.0 && b.width >= 0.0 && b.height >= 0.0 ==>
      (Overlap(a, b) <==> exists p :: Contains(a, p) && Contains(b, p))
    ensures a.width >= 0.0 && a.height >= 0.0 && Contains(b, a.corner) ==> Overlap(a, b)
  {
    if a.width >= 0.0 && a.height >= 0.0 && b.width >= 0.0 && b.height >= 0.0 {
      OverlapIffCommonPoint(a, b);
    }
  }

  /** As written, `toPolygon` hands its four corners to the polygon constructor, whose
      `points | []` stores 0, so the polygon has none of the four edges. */
  lemma ToPolygonAsWrittenHasNoEdges(w: real, h: real)
    ensures EdgeCountAsWritten(InitPointsAsWritten(Some(Corners(w, h)))) == 0
    ensures |Edges(Corners(w, h))| == 4
  {
  }

  class Box {
    var pos: Vector
    var width: real
    var height: real

    /** `new Box(pos, width, height)`: a missing corner becomes a new origin vector and a
        missing size becomes 0. */
    constructor (pos: Vector?, width: Option<real>, height: Option<real>)
      ensures pos != null ==> this.pos == pos
      ensures pos == null ==> fresh(this.pos) && this.pos.Value() == Origin
      ensures this.width == if width.Some? then width.value else 0.0
      ensures this.height == if height.Some? then height.value else 0.0
    {
      if pos != null {
        this.pos := pos;
      } else {
        this.pos := new Vector(0.0, 0.0);
      }
      this.width := if width.Some? then width.value else 0.0;
      this.height := if height.Some? then height.value else 0.0;
    }

    /** The region the box covers. */
    function Bounds(): (r: Rect)
      reads this, pos
    {
      Rect(pos.Value(), width, height)
    }

    /** A new polygon with the same shape: its position is a new copy of the corner and its
        points are the four corners. The box is not changed (no `modifies`), and every call
        builds new objects. */
    method ToPolygon(sqrt: real -> real) returns (p: Polygon)
      requires IsSqrt(sqrt)
      ensures fresh(p) && fresh(p.pos) && p.pos.Value() == old(pos.Value())
      ensures |p.points| == 4 && fresh(p.points[0]) && fresh(p.points[1]) && fresh(p.points[2]) && fresh(p.points[3])
      ensures Values(p.points) == Corners(old(width), old(height))
      ensures Values(p.edges) == Edges(Corners(old(width), old(height)))
      ensures p.Consistent(sqrt)
    {
      var w, h := width, height;
      var origin := new Vector(pos.x, pos.y);
      var p0 := new Vector(0.0, 0.0);
      var p1 := new Vector(w, 0.0);
      var p2 := new Vector(w, h);
      var p3 := new Vector(0.0, h);
      var ps := [p0, p1, p2, p3];
      assert Values(ps) == Corners(w, h);
      p := new Polygon(origin, Some(ps), sqrt);
      assert Values(p.points) == Corners(w, h);
    }
  }
}
