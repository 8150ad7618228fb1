/** Mutable 2D vectors (plugins/sat/vector.js).

    `Vec` is the value a vector holds at one moment; `Vector` is the mutable object
    whose operations overwrite its own `x` and `y` and return the object itself, so
    that calls chain. Math.sqrt is not expressible over Dafny's reals: every member
    that needs it takes the square root as a parameter `sqrt` satisfying `IsSqrt`. */
module Vectors {
  import opened JsValues

  datatype Vec = Vec(x: real, y: real)

  const Origin := Vec(0.0, 0.0)

  function Plus(v: Vec, w: Vec): Vec { Vec(v.x + w.x, v.y + w.y) }

  function Minus(v: Vec, w: Vec): Vec { Vec(v.x - w.x, v.y - w.y) }

  function Negated(v: Vec): Vec { Vec(-v.x, -v.y) }

  /** Rotation by 90 degrees: (x, y) becomes (y, -x). */
  function Perpendicular(v: Vec): Vec { Vec(v.y, -v.x) }

  function Times(v: Vec, s: real): Vec { Vec(v.x * s, v.y * s) }

  /** `scale(sx, sy)`: the y factor is `sy || sx`, so a missing or zero `sy` falls back to `sx`. */
  function ScaledXY(v: Vec, sx: real, sy: Option<real>): Vec
  {
    var fy := if sy.Some? && sy.value != 0.0 then sy.value else sx;
    Vec(v.x * sx, v.y * fy)
  }

  function DotProduct(v: Vec, w: Vec): real { v.x * w.x + v.y * w.y }

  function SquaredLength(v: Vec): real { DotProduct(v, v) }

  /** Projection onto a unit vector `n`: (v.n) n. */
  function ProjectionOnUnit(v: Vec, n: Vec): Vec { Times(n, DotProduct(v, n)) }

  /** Projection onto an arbitrary non-zero vector `o`: (v.o / o.o) o. */
  function Projection(v: Vec, o: Vec): Vec
    requires SquaredLength(o) != 0.0
  {
    Times(o, DotProduct(v, o) / SquaredLength(o))
  }

  /** Mirror image of `v` across the axis of `n`: twice the projection minus `v`. */
  function ReflectionOnUnit(v: Vec, n: Vec): Vec { Minus(Times(ProjectionOnUnit(v, n), 2.0), v) }

  function Reflection(v: Vec, o: Vec): Vec
    requires SquaredLength(o) != 0.0
  {
    Minus(Times(Projection(v, o), 2.0), v)
  }

  /** `sqrt` is a square root function on the non-negative reals (Math.sqrt). */
  ghost predicate IsSqrt(sqrt: real -> real)
  {
    forall t :: 0.0 <= t ==> 0.0 <= sqrt(t) && sqrt(t) * sqrt(t) == t
  }

  /** What `normalize` leaves in a vector: divided by its length, unless the length is 0. */
  function Unit(v: Vec, sqrt: real -> real): Vec
  {
    var d := sqrt(SquaredLength(v));
    if d > 0.0 then Vec(v.x / d, v.y / d) else v
  }

  /** The values held by a sequence of vectors. */
  function Values(vs: seq<Vector>): (r: seq<Vec>)
    reads vs
    ensures |r| == |vs|
    ensures forall i :: 0 <= i < |vs| ==> r[i] == vs[i].Value()
  {
    seq(|vs|, i reads vs requires 0 <= i < |vs| => vs[i].Value())
  }

  /** Vectors that have not changed still hold the same values. */
  twostate lemma KeptValues(vs: seq<Vector>)
    requires unchanged(vs)
    ensures Values(vs) == old(Values(vs))
  {
  }

  lemma PerpTwiceIsReverse(v: Vec)
    ensures Perpendicular(Perpendicular(v)) == Negated(v)
  {
  }

  lemma ReverseTwiceIsIdentity(v: Vec)
    ensures Negated(Negated(v)) == v
  {
  }

  /** Reversing a scaled vector is scaling the reversed vector. */
  lemma ReverseOfScaled(v: Vec, s: real)
    ensures Negated(Times(v, s)) == Times(Negated(v), s)
  {
    assert -(v.x * s) == (-v.x) * s;
    assert -(v.y * s) == (-v.y) * s;
  }

  lemma AddThenSubRestores(v: Vec, w: Vec)
    ensures Minus(Plus(v, w), w) == v
  {
  }

  lemma ScaleFallsBack(v: Vec, s: real)
    ensures ScaledXY(v, s, None) == Times(v, s)
    ensures ScaledXY(v, s, Some(0.0)) == Times(v, s)
    ensures ScaledXY(v, s, Some(s)) == Times(v, s)
  {
  }

  lemma DotSymmetric(v: Vec, w: Vec)
    ensures DotProduct(v, w) == DotProduct(w, v)
  {
  }

  lemma SquaredLengthNonNegative(v: Vec)
    ensures 0.0 <= SquaredLength(v)
  {
    SquareNonNegative(v.x);
    SquareNonNegative(v.y);
  }

  lemma SquareNonNegative(a: real)
    ensures 0.0 <= a * a
  {
    if a < 0.0 {
      assert a * a > 0.0;
    } else if a > 0.0 {
      assert a * a > 0.0;
    } else {
      assert a * a == 0.0 * a;
    }
  }

  lemma ProductZero(a: real, b: real)
    requires a * b == 0.0
    ensures a == 0.0 || b == 0.0
  {
    if a != 0.0 {
      assert b == (a * b) / a;
    }
  }

  /** A perpendicular is orthogonal to the original vector and just as long. */
  lemma PerpendicularIsOrthogonal(v: Vec)
    ensures DotProduct(v, Perpendicular(v)) == 0.0
    ensures SquaredLength(Perpendicular(v)) == SquaredLength(v)
  {
  }

  /** A square root of a square has no freedom: it is the non-negative root. */
  lemma {:induction false} SqrtOfSquare(sqrt: real -> real, t: real, d: real)
    requires IsSqrt(sqrt)
    requires 0.0 <= d && d * d == t
    ensures sqrt(t) == d
  {
    var s := sqrt(t);
    assert 0.0 <= s && s * s == t;
    assert (s - d) * (s + d) == s * s - d * d;
    ProductZero(s - d, s + d);
  }

  /** `normalize` leaves a zero-length vector unchanged (its length is exactly 0). */
  lemma {:induction false} UnitOfZeroLength(v: Vec, sqrt: real -> real)
    requires IsSqrt(sqrt)
    requires SquaredLength(v) == 0.0
    ensures Unit(v, sqrt) == v
  {
    SqrtOfSquare(sqrt, 0.0, 0.0);
  }

  /** Normalising the reversed vector gives the reversed unit vector. */
  lemma {:induction false} UnitOfNegated(v: Vec, sqrt: real -> real)
    ensures Unit(Negated(v), sqrt) == Negated(Unit(v, sqrt))
  {
    assert SquaredLength(Negated(v)) == SquaredLength(v);
    var d := sqrt(SquaredLength(v));
    if d > 0.0 {
      assert -v.x / d == -(v.x / d);
      assert -v.y / d == -(v.y / d);
    }
  }

  /** Reflecting twice across a unit axis gives back the original vector. */
  lemma {:induction false} ReflectOnUnitTwice(v: Vec, n: Vec)
    requires SquaredLength(n) == 1.0
    ensures ReflectionOnUnit(ReflectionOnUnit(v, n), n) == v
  {
    var r := ReflectionOnUnit(v, n);
    var d := DotProduct(v, n);
    assert r == Vec(2.0 * d * n.x - v.x, 2.0 * d * n.y - v.y);
    calc {
      DotProduct(r, n);
      2.0 * d * (n.x * n.x + n.y * n.y) - d;
      d;
    }
  }

  /** Projecting onto a unit axis twice is the same as projecting once. */
  lemma {:induction false} ProjectOnUnitIdempotent(v: Vec, n: Vec)
    requires SquaredLength(n) == 1.0
    ensures ProjectionOnUnit(ProjectionOnUnit(v, n), n) == ProjectionOnUnit(v, n)
  {
    var d := DotProduct(v, n);
    calc {
      DotProduct(ProjectionOnUnit(v, n), n);
      d * (n.x * n.x + n.y * n.y);
      d;
    }
  }

  /** A mutable vector. Every mutating operation returns the receiver itself. */
  class Vector {
    var x: real
    var y: real

    function Value(): Vec
      reads this
    {
      Vec(x, y)
    }

    /** `new Vector(x, y)`: `x || 0` keeps any real and turns a missing coordinate into 0,
        so `new Vector()` is `Vector(0.0, 0.0)`. */
    constructor (x: real, y: real)
      ensures Value() == Vec(x, y)
    {
      this.x := x;
      this.y := y;
    }

    method Copy(other: Vector) returns (r: Vector)
      modifies this
      ensures r == this
      ensures Value() == old(other.Value())
      ensures other.Value() == old(other.Value())
    {
      x := other.x;
      y := other.y;
      r := this;
    }

    method Perp() returns (r: Vector)
      modifies this
      ensures r == this
      ensures Value() == Perpendicular(old(Value()))
    {
      var oldX := x;
      x := y;
      y := -oldX;
      r := this;
    }

    method Reverse() returns (r: Vector)
      modifies this
      ensures r == this
      ensures Value() == Negated(old(Value()))
    {
      x := -x;
      y := -y;
      r := this;
    }

    /** Divides by the length when it is positive; a zero vector is left unchanged. */
    method Normalize(sqrt: real -> real) returns (r: Vector)
      requires IsSqrt(sqrt)
      modifies this
      ensures r == this
      ensures Value() == Unit(old(Value()), sqrt)
      ensures SquaredLength(old(Value())) == 0.0 ==> Value() == old(Value())
    {
      ghost var before := Value();
      var d := Len(sqrt);
      assert d == sqrt(SquaredLength(before));
      if d > 0.0 {
        x := x / d;
        y := y / d;
      }
      r := this;
      assert Value() == Unit(before, sqrt);
      if SquaredLength(before) == 0.0 {
        UnitOfZeroLength(before, sqrt);
      }
    }

    method Add(other: Vector) returns (r: Vector)
      modifies this
      ensures r == this
      ensures Value() == Plus(old(Value()), old(other.Value()))
    {
      x := x + other.x;
      y := y + other.y;
      r := this;
    }

    method Sub(other: Vector) returns (r: Vector)
      modifies this
      ensures r == this
      ensures Value() == Minus(old(Value()), old(other.Value()))
    {
      x := x - other.x;
      y := y - other.y;
      r := this;
    }

    /** `scale(sx, sy)`; an omitted `sy` is `None`. */
    method Scale(sx: real, sy: Option<real>) returns (r: Vector)
      modifies this
      ensures r == this
      ensures Value() == ScaledXY(old(Value()), sx, sy)
      ensures sy.None? ==> Value() == Times(old(Value()), sx)
    {
      x := x * sx;
      y := y * if sy.Some? && sy.value != 0.0 then sy.value else sx;
      r := this;
    }

    /** Projection onto a non-zero vector (a zero one would divide by zero). */
    method Project(other: Vector) returns (r: Vector)
      requires other.Len2() != 0.0
      modifies this
      ensures r == this
      ensures Value() == Projection(old(Value()), old(other.Value()))
    {
      ghost var v, o := Value(), other.Value();
      var amt := Dot(other) / other.Len2();
      assert amt == DotProduct(v, o) / SquaredLength(o);
      var ox, oy := other.x, other.y;
      x := amt * ox;
      y := amt * oy;
      assert Value() == Times(o, amt);
      r := this;
    }

    method ProjectN(other: Vector) returns (r: Vector)
      modifies this
      ensures r == this
      ensures Value() == ProjectionOnUnit(old(Value()), old(other.Value()))
    {
      var amt := Dot(other);
      x := amt * other.x;
      y := amt * other.y;
      r := this;
    }

    method Reflect(axis: Vector) returns (r: Vector)
      requires axis.Len2() != 0.0
      modifies this
      ensures r == this
      ensures Value() == Reflection(old(Value()), old(axis.Value()))
    {
      var x0, y0 := x, y;
      r := Project(axis);
      r := r.Scale(2.0, None);
      x := x - x0;
      y := y - y0;
      r := this;
    }

    method ReflectN(axis: Vector) returns (r: Vector)
      modifies this
      ensures r == this
      ensures Value() == ReflectionOnUnit(old(Value()), old(axis.Value()))
    {
      var x0, y0 := x, y;
      r := ProjectN(axis);
      r := r.Scale(2.0, None);
      x := x - x0;
      y := y - y0;
      r := this;
    }

    function Dot(other: Vector): (r: real)
      reads this, other
      ensures r == DotProduct(Value(), other.Value())
    {
      x * other.x + y * other.y
    }

    function Len2(): (r: real)
      reads this
      ensures r == SquaredLength(Value()) && 0.0 <= r
    {
      SquaredLengthNonNegative(Value());
      Dot(this)
    }

    function Len(sqrt: real -> real): (r: real)
      requires IsSqrt(sqrt)
      reads this
      ensures 0.0 <= r && r * r == SquaredLength(Value())
      ensures r == sqrt(SquaredLength(Value()))
    {
      var t := Len2();
      assert t == SquaredLength(Value());
      SquaredLengthNonNegative(Value());
      assert 0.0 <= sqrt(t) && sqrt(t) * sqrt(t) == t;
      sqrt(t)
    }
  }
}
