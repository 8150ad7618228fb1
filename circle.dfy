/** Circles (plugins/sat/circle.js): a centre and a radius, with no behaviour of their own. */
module Circles {
  import opened JsValues
  import opened Vectors

  /** The centre is a shared mutable vector; the radius is a plain number. */
  datatype Circle = Circle(pos: Vector, r: real)

  /** `new Circle(pos, r)`: a missing centre becomes a new origin vector and a missing
      (or zero) radius becomes 0. */
  method NewCircle(pos: Vector?, r: Option<real>) returns (c: Circle)
    ensures pos != null ==> c.pos == pos
    ensures pos == null ==> fresh(c.pos) && c.pos.Value() == Origin
    ensures c.r == if r.Some? then r.value else 0.0
  {
    var p := pos;
    if p == null {
      p := new Vector(0.0, 0.0);
    }
    c := Circle(p, if r.Some? then r.value else 0.0);
  }
}
