/** The result record of an intersection test (plugins/sat/response.js).

    `a` and `b` are the two participants, `overlapN` the direction and `overlap` the
    length of the smallest push that takes `a` out of `b`, `overlapV` that push as a
    vector, and `aInB`/`bInA` say whether one shape lies wholly inside the other. The
    tests narrow `overlap` and clear the two flags, so a response is cleared first. */
module Responses {
  import opened JsValues
  import opened Vectors
  import opened Polygons
  import opened Circles

  /** What `response.a` or `response.b` refers to. */
  datatype Participant = Nobody | PolygonShape(polygon: Polygon) | CircleShape(circle: Circle)

  /** The part of a response that the tests accumulate, as values. */
  datatype Tally = Tally(overlap: real, overlapN: Vec, aInB: bool, bInA: bool)

  /** The tally `clear` leaves: both flags set and the overlap at Number.MAX_VALUE. */
  function Cleared(t: Tally): (c: Tally)
    ensures c.aInB && c.bInA && c.overlap == MaxValue
    ensures c.overlapN == t.overlapN
  {
    t.(overlap := MaxValue, aInB := true, bInA := true)
  }

  /** Clearing twice is the same as clearing once. */
  lemma ClearIdempotent(t: Tally)
    ensures Cleared(Cleared(t)) == Cleared(t)
  {
  }

  /** The tally seen from the other participant: the push reversed and the two
      containment flags exchanged. */
  function Swapped(t: Tally): Tally
  {
    Tally(t.overlap, Negated(t.overlapN), t.bInA, t.aInB)
  }

  /** Swapping back restores the tally. */
  lemma SwappedTwice(t: Tally)
    ensures Swapped(Swapped(t)) == t
  {
    ReverseTwiceIsIdentity(t.overlapN);
  }

  class Response {
    var a: Participant
    var b: Participant
    var overlapN: Vector
    var overlapV: Vector
    var aInB: bool
    var bInA: bool
    var overlap: real

    /** The two result vectors are distinct objects. */
    predicate Valid()
      reads this
    {
      overlapN != overlapV
    }

    function Snapshot(): Tally
      reads this, overlapN
    {
      Tally(overlap, overlapN.Value(), aInB, bInA)
    }

    /** `new Response()`. `init` keeps an `a`, `b`, `overlapN` or `overlapV` inherited
        from the prototype; this class's prototype has none, so both participants are
        null and both vectors are new zero vectors. `aInB`, `bInA` and `overlap` are
        left undefined until `clear`. */
    constructor ()
      ensures a == Nobody && b == Nobody
      ensures fresh(overlapN) && fresh(overlapV) && Valid()
      ensures overlapN.Value() == Origin && overlapV.Value() == Origin
    {
      a := Nobody;
      b := Nobody;
      overlapN := new Vector(0.0, 0.0);
      overlapV := new Vector(0.0, 0.0);
    }

    /** Resets the accumulated tally and returns the response itself. */
    method Clear() returns (r: Response)
      modifies this`aInB, this`bInA, this`overlap
      ensures r == this
      ensures aInB && bInA && overlap == MaxValue
      ensures Snapshot() == Cleared(old(Snapshot()))
    {
      aInB := true;
      bInA := true;
      overlap := MaxValue;
      r := this;
    }
  }
}
