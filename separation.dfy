/** The value-level meaning of the separating axis test (plugins/sat/collision.js).

    Two convex shapes are apart along an axis when their projections onto that axis,
    two closed ranges, leave a gap. `collision.js` projects each polygon's points with
    a running minimum and maximum, moves B's range by the projected offset between the
    two positions, and either reports a gap or narrows the smallest overlap seen so far. */
module Separation {
  import opened JsValues
  import opened Vectors
  import opened Responses

  /** A finite number of JavaScript: no further from 0 than Number.MAX_VALUE. */
  predicate Finite(d: real)
  {
    -MaxValue <= d <= MaxValue
  }

  /** The projections of points onto an axis, in order. */
  function Projections(ps: seq<Vec>, axis: Vec): (ds: seq<real>)
    ensures |ds| == |ps|
    ensures forall i :: 0 <= i < |ps| ==> ds[i] == DotProduct(ps[i], axis)
  {
    seq(|ps|, i requires 0 <= i < |ps| => DotProduct(ps[i], axis))
  }

  /** The running minimum of `flattenPointsOn`: it starts at Number.MAX_VALUE and is
      replaced by each strictly smaller value, in order. */
  function Lowest(ds: seq<real>): real
  {
    if |ds| == 0 then MaxValue
    else
      var m := Lowest(ds[..|ds| - 1]);
      if ds[|ds| - 1] < m then ds[|ds| - 1] else m
  }

  /** The running maximum: it starts at -Number.MAX_VALUE and is replaced by each strictly
      larger value. */
  function Highest(ds: seq<real>): real
  {
    if |ds| == 0 then -MaxValue
    else
      var m := Highest(ds[..|ds| - 1]);
      if ds[|ds| - 1] > m then ds[|ds| - 1] else m
  }

  lemma {:induction false} LowestIsLowerBound(ds: seq<real>)
    ensures Lowest(ds) <= MaxValue
    ensures forall i :: 0 <= i < |ds| ==> Lowest(ds) <= ds[i]
  {
    if |ds| > 0 {
      var front := ds[..|ds| - 1];
      LowestIsLowerBound(front);
      assert forall i :: 0 <= i < |front| ==> front[i] == ds[i];
    }
  }

  lemma {:induction false} HighestIsUpperBound(ds: seq<real>)
    ensures -MaxValue <= Highest(ds)
    ensures forall i :: 0 <= i < |ds| ==> ds[i] <= Highest(ds)
  {
    if |ds| > 0 {
      var front := ds[..|ds| - 1];
      HighestIsUpperBound(front);
      assert forall i :: 0 <= i < |front| ==> front[i] == ds[i];
    }
  }

  /** When no value lies above Number.MAX_VALUE, the running minimum of a non-empty
      sequence is one of its values. */
  lemma {:induction false} LowestIsAttained(ds: seq<real>)
    requires |ds| > 0
    requires forall i :: 0 <= i < |ds| ==> ds[i] <= MaxValue
    ensures exists i :: 0 <= i < |ds| && Lowest(ds) == ds[i]
  {
    var front := ds[..|ds| - 1];
    if |front| == 0 {
      assert Lowest(ds) == ds[0];
    } else {
      assert forall i :: 0 <= i < |front| ==> front[i] == ds[i];
      LowestIsAttained(front);
      var k :| 0 <= k < |front| && Lowest(front) == front[k];
      assert Lowest(ds) == ds[k] || Lowest(ds) == ds[|ds| - 1];
    }
  }

  lemma {:induction false} HighestIsAttained(ds: seq<real>)
    requires |ds| > 0
    requires forall i :: 0 <= i < |ds| ==> -MaxValue <= ds[i]
    ensures exists i :: 0 <= i < |ds| && Highest(ds) == ds[i]
  {
    var front := ds[..|ds| - 1];
    if |front| == 0 {
      assert Highest(ds) == ds[0];
    } else {
      assert forall i :: 0 <= i < |front| ==> front[i] == ds[i];
      HighestIsAttained(front);
      var k :| 0 <= k < |front| && Highest(front) == front[k];
      assert Highest(ds) == ds[k] || Highest(ds) == ds[|ds| - 1];
    }
  }

  /** A closed range on an axis; `flattenPointsOn` stores it as `[lo, hi]`. */
  datatype Range = Range(lo: real, hi: real)

  /** The range `flattenPointsOn` computes. */
  function Flatten(ps: seq<Vec>, axis: Vec): Range
  {
    Range(Lowest(Projections(ps, axis)), Highest(Projections(ps, axis)))
  }

  /** For non-empty finite projections the flattened range is ordered and exactly spans
      them: both ends are attained and every projection lies inside. */
  lemma FlattenSpans(ps: seq<Vec>, axis: Vec)
    requires |ps| > 0
    requires forall i :: 0 <= i < |ps| ==> Finite(DotProduct(ps[i], axis))
    ensures Flatten(ps, axis).lo <= Flatten(ps, axis).hi
    ensures forall i :: 0 <= i < |ps| ==>
      Flatten(ps, axis).lo <= DotProduct(ps[i], axis) <= Flatten(ps, axis).hi
    ensures exists i :: 0 <= i < |ps| && Flatten(ps, axis).lo == DotProduct(ps[i], axis)
    ensures exists i :: 0 <= i < |ps| && Flatten(ps, axis).hi == DotProduct(ps[i], axis)
  {
    var ds := Projections(ps, axis);
    LowestIsLowerBound(ds);
    HighestIsUpperBound(ds);
    LowestIsAttained(ds);
    HighestIsAttained(ds);
    assert Lowest(ds) <= ds[0] <= Highest(ds);
  }

  /** The projection of B's position relative to A's onto the axis. */
  function Offset(aPos: Vec, bPos: Vec, axis: Vec): real
  {
    DotProduct(Minus(bPos, aPos), axis)
  }

  function Shift(r: Range, d: real): Range
  {
    Range(r.lo + d, r.hi + d)
  }

  /** Two closed ranges leave a gap; ranges that only touch do not. */
  predicate Gap(ra: Range, rb: Range)
  {
    ra.lo > rb.hi || rb.lo > ra.hi
  }

  /** The two polygons, as values: positions and points relative to them. */
  datatype Scene = Scene(aPos: Vec, aPoints: seq<Vec>, bPos: Vec, bPoints: seq<Vec>)

  /** A's range and B's range moved into A's frame, on one axis. */
  function RangeOfA(s: Scene, axis: Vec): Range
  {
    Flatten(s.aPoints, axis)
  }

  function RangeOfB(s: Scene, axis: Vec): Range
  {
    Shift(Flatten(s.bPoints, axis), Offset(s.aPos, s.bPos, axis))
  }

  /** What `isSeparatingAxis` decides. */
  predicate Separates(s: Scene, axis: Vec)
  {
    Gap(RangeOfA(s, axis), RangeOfB(s, axis))
  }

  /** For non-empty finite projections, a gap between the ranges means exactly that every
      projection of A lies strictly above every (moved) projection of B, or strictly below. */
  lemma {:induction false} GapIffApart(ds: seq<real>, es: seq<real>, off: real)
    requires |ds| > 0 && |es| > 0
    requires forall i :: 0 <= i < |ds| ==> Finite(ds[i])
    requires forall j :: 0 <= j < |es| ==> Finite(es[j])
    ensures Gap(Range(Lowest(ds), Highest(ds)), Range(Lowest(es) + off, Highest(es) + off)) <==>
      (forall i, j :: 0 <= i < |ds| && 0 <= j < |es| ==> ds[i] > es[j] + off) ||
      (forall i, j :: 0 <= i < |ds| && 0 <= j < |es| ==> es[j] + off > ds[i])
  {
    LowestIsLowerBound(ds);
    HighestIsUpperBound(ds);
    LowestIsLowerBound(es);
    HighestIsUpperBound(es);
    LowestIsAttained(ds);
    HighestIsAttained(ds);
    LowestIsAttained(es);
    HighestIsAttained(es);
    var iLo :| 0 <= iLo < |ds| && Lowest(ds) == ds[iLo];
    var iHi :| 0 <= iHi < |ds| && Highest(ds) == ds[iHi];
    var jLo :| 0 <= jLo < |es| && Lowest(es) == es[jLo];
    var jHi :| 0 <= jHi < |es| && Highest(es) == es[jHi];
    if (forall i, j :: 0 <= i < |ds| && 0 <= j < |es| ==> ds[i] > es[j] + off) {
      assert ds[iLo] > es[jHi] + off;
    }
    if (forall i, j :: 0 <= i < |ds| && 0 <= j < |es| ==> es[j] + off > ds[i]) {
      assert es[jLo] + off > ds[iHi];
    }
  }

  /** The signed overlap of `isSeparatingAxis`: the distance A must move along the axis
      (against the sign) until the ranges only touch. */
  function SignedOverlap(ra: Range, rb: Range): (r: real)
    // The four-way case split always picks the shorter of the two ways out.
    ensures r == if ra.hi - rb.lo < rb.hi - ra.lo then ra.hi - rb.lo else -(rb.hi - ra.lo)
    ensures !Gap(ra, rb) ==> Abs(r) == Min(ra.hi - rb.lo, rb.hi - ra.lo)
    ensures ra.hi - r == rb.lo || ra.lo - r == rb.hi
  {
    var option1 := ra.hi - rb.lo;
    var option2 := rb.hi - ra.lo;
    if ra.lo < rb.lo then
      if ra.hi < rb.hi then ra.hi - rb.lo
      else if option1 < option2 then option1 else -option2
    else
      if ra.hi > rb.hi then ra.lo - rb.hi
      else if option1 < option2 then option1 else -option2
  }

  /** How one non-separating axis refines the response's tally. */
  function Refine(t: Tally, ra: Range, rb: Range, axis: Vec): (r: Tally)
    ensures r.aInB == (t.aInB && rb.lo <= ra.lo && ra.hi <= rb.hi)
    ensures r.bInA == (t.bInA && ra.lo < rb.lo && rb.hi <= ra.hi)
    ensures r.overlap == Min(t.overlap, Abs(SignedOverlap(ra, rb)))
    ensures r.overlap < t.overlap ==>
      r.overlapN == if SignedOverlap(ra, rb) < 0.0 then Negated(axis) else axis
    ensures r.overlap == t.overlap ==> r.overlapN == t.overlapN
  {
    var aInB := if ra.lo < rb.lo || ra.hi > rb.hi then false else t.aInB;
    var bInA := if ra.lo < rb.lo && ra.hi >= rb.hi then t.bInA else false;
    var overlap := SignedOverlap(ra, rb);
    if Abs(overlap) < t.overlap then
      Tally(Abs(overlap), if overlap < 0.0 then Negated(axis) else axis, aInB, bInA)
    else
      Tally(t.overlap, t.overlapN, aInB, bInA)
  }

  /** The result of testing a list of axes in order. */
  datatype Outcome = Outcome(separated: bool, tally: Tally)

  /** What `isSeparatingAxis` measures on one axis: A's range, B's moved range and the
      axis itself. */
  datatype Probe = Probe(ra: Range, rb: Range, axis: Vec)

  function ProbeOf(s: Scene, axis: Vec): Probe
  {
    Probe(RangeOfA(s, axis), RangeOfB(s, axis), axis)
  }

  function ProbesOf(s: Scene, axes: seq<Vec>): (ps: seq<Probe>)
    ensures |ps| == |axes|
    ensures forall k :: 0 <= k < |axes| ==> ps[k] == ProbeOf(s, axes[k])
  {
    seq(|axes|, k requires 0 <= k < |axes| => ProbeOf(s, axes[k]))
  }

  /** Probe `k` is the one measured on axis `k`. */
  ghost predicate Measures(ps: seq<Probe>, s: Scene, axes: seq<Vec>, k: nat)
  {
    k < |ps| && k < |axes| && ps[k] == ProbeOf(s, axes[k])
  }

  /** Every probe of `ProbesOf(s, axes)` measures its own axis. */
  lemma ProbesMeasure(s: Scene, axes: seq<Vec>, ps: seq<Probe>)
    requires ps == ProbesOf(s, axes)
    ensures |ps| == |axes|
    ensures forall k :: 0 <= k < |axes| ==> Measures(ps, s, axes, k)
  {
  }


  /** One call of `isSeparatingAxis` after the calls so far: nothing once an axis has
      separated, otherwise either separation or a refined tally. */
  function Step(o: Outcome, p: Probe): Outcome
  {
    if o.separated then o
    else if Gap(p.ra, p.rb) then Outcome(true, o.tally)
    else Outcome(false, Refine(o.tally, p.ra, p.rb, p.axis))
  }

  /** The calls on a list of probes, in order. */
  function Fold(ps: seq<Probe>, t: Tally): Outcome
  {
    if |ps| == 0 then Outcome(false, t) else Step(Fold(ps[..|ps| - 1], t), ps[|ps| - 1])
  }

  /** `isSeparatingAxis` over `axes` in order, stopping at the first separating axis. */
  function Sweep(s: Scene, axes: seq<Vec>, t: Tally): Outcome
  {
    Fold(ProbesOf(s, axes), t)
  }

  /** One more probe after the calls so far. */
  lemma FoldExtend(ps: seq<Probe>, p: Probe, t: Tally)
    ensures Fold(ps + [p], t) == Step(Fold(ps, t), p)
  {
    assert (ps + [p])[..|ps|] == ps;
  }

  lemma {:induction false} FoldSeparatedIff(ps: seq<Probe>, t: Tally)
    ensures Fold(ps, t).separated <==> exists k :: 0 <= k < |ps| && Gap(ps[k].ra, ps[k].rb)
  {
    if |ps| > 0 {
      var front := ps[..|ps| - 1];
      FoldSeparatedIff(front, t);
      assert forall k :: 0 <= k < |front| ==> front[k] == ps[k];
    }
  }

  lemma {:induction false} FoldStaysSeparated(ps: seq<Probe>, more: seq<Probe>, t: Tally)
    requires Fold(ps, t).separated
    ensures Fold(ps + more, t) == Fold(ps, t)
  {
    if |more| > 0 {
      var front := more[..|more| - 1];
      FoldStaysSeparated(ps, front, t);
      assert (ps + more)[..|ps + more| - 1] == ps + front;
    } else {
      assert ps + more == ps;
    }
  }

  /** Once every probe has run, or the probes so far have separated, the rest change
      nothing. */
  lemma FoldSettled(ps: seq<Probe>, i: nat, t: Tally)
    requires i <= |ps|
    requires i == |ps| || Fold(ps[..i], t).separated
    ensures Fold(ps, t) == Fold(ps[..i], t)
  {
    if i < |ps| {
      assert ps[..i] + ps[i..] == ps;
      FoldStaysSeparated(ps[..i], ps[i..], t);
    } else {
      assert ps[..i] == ps;
    }
  }

  lemma {:induction false} FoldOnlyNarrows(ps: seq<Probe>, t: Tally)
    ensures Fold(ps, t).tally.overlap <= t.overlap
    ensures Fold(ps, t).tally.aInB ==> t.aInB
    ensures Fold(ps, t).tally.bInA ==> t.bInA
  {
    if |ps| > 0 {
      FoldOnlyNarrows(ps[..|ps| - 1], t);
    }
  }

  /** A non-negative starting overlap stays non-negative: every axis offers a magnitude. */
  lemma {:induction false} FoldOverlapNonNegative(ps: seq<Probe>, t: Tally)
    requires 0.0 <= t.overlap
    ensures 0.0 <= Fold(ps, t).tally.overlap
  {
    if |ps| > 0 {
      FoldOverlapNonNegative(ps[..|ps| - 1], t);
    }
  }

  lemma {:induction false} FoldFindsSmallestOverlap(ps: seq<Probe>, t: Tally)
    requires !Fold(ps, t).separated
    ensures forall k :: 0 <= k < |ps| ==> Fold(ps, t).tally.overlap <= Abs(SignedOverlap(ps[k].ra, ps[k].rb))
    ensures Fold(ps, t).tally.overlap == t.overlap ||
      exists k :: 0 <= k < |ps| && Fold(ps, t).tally.overlap == Abs(SignedOverlap(ps[k].ra, ps[k].rb))
  {
    if |ps| > 0 {
      var front := ps[..|ps| - 1];
      FoldFindsSmallestOverlap(front, t);
      assert forall k :: 0 <= k < |front| ==> front[k] == ps[k];
    }
  }

  /** The probes of a prefix, or of two lists of axes one after the other. */
  lemma ProbesOfSplit(s: Scene, axes: seq<Vec>, more: seq<Vec>, k: nat)
    requires k <= |axes|
    ensures ProbesOf(s, axes[..k]) == ProbesOf(s, axes)[..k]
    ensures ProbesOf(s, axes + more) == ProbesOf(s, axes) + ProbesOf(s, more)
  {
  }

  /** The sweep reports separation exactly when some axis separates. */
  lemma SweepSeparatedIff(s: Scene, axes: seq<Vec>, t: Tally)
    ensures Sweep(s, axes, t).separated <==> exists k :: 0 <= k < |axes| && Separates(s, axes[k])
  {
    var ps := ProbesOf(s, axes);
    FoldSeparatedIff(ps, t);
    assert forall k :: 0 <= k < |axes| ==> (Gap(ps[k].ra, ps[k].rb) <==> Separates(s, axes[k]));
  }

  /** Axes after the first separating one are never examined. */
  lemma SweepStopsAtFirst(s: Scene, axes: seq<Vec>, t: Tally, k: nat)
    requires k < |axes| && Separates(s, axes[k])
    ensures Sweep(s, axes, t) == Sweep(s, axes[..k + 1], t)
  {
    var ps := ProbesOf(s, axes);
    ProbesOfSplit(s, axes, [], k + 1);
    assert ps[..k + 1][k] == ps[k];
    FoldSeparatedIff(ps[..k + 1], t);
    assert ps == ps[..k + 1] + ps[k + 1..];
    FoldStaysSeparated(ps[..k + 1], ps[k + 1..], t);
  }

  /** Once an axis has separated, later axes change nothing. */
  lemma SweepStaysSeparated(s: Scene, axes: seq<Vec>, more: seq<Vec>, t: Tally)
    requires Sweep(s, axes, t).separated
    ensures Sweep(s, axes + more, t) == Sweep(s, axes, t)
  {
    ProbesOfSplit(s, axes, more, 0);
    FoldStaysSeparated(ProbesOf(s, axes), ProbesOf(s, more), t);
  }

  /** The overlap only shrinks and the containment flags are only ever cleared. */
  lemma SweepOnlyNarrows(s: Scene, axes: seq<Vec>, t: Tally)
    ensures Sweep(s, axes, t).tally.overlap <= t.overlap
    ensures Sweep(s, axes, t).tally.aInB ==> t.aInB
    ensures Sweep(s, axes, t).tally.bInA ==> t.bInA
  {
    FoldOnlyNarrows(ProbesOf(s, axes), t);
  }

  /** After `clear` (or any non-negative start), the overlap a sweep leaves is never
      negative. */
  lemma SweepOverlapNonNegative(s: Scene, axes: seq<Vec>, t: Tally)
    requires 0.0 <= t.overlap
    ensures 0.0 <= Sweep(s, axes, t).tally.overlap
  {
    FoldOverlapNonNegative(ProbesOf(s, axes), t);
  }

  /** Without separation, the final overlap is the smallest |overlap| over all axes (or the
      starting overlap when that is smaller still). */
  lemma SweepFindsSmallestOverlap(s: Scene, axes: seq<Vec>, t: Tally)
    requires !Sweep(s, axes, t).separated
    ensures forall k :: 0 <= k < |axes| ==>
      Sweep(s, axes, t).tally.overlap <= Abs(SignedOverlap(RangeOfA(s, axes[k]), RangeOfB(s, axes[k])))
    ensures Sweep(s, axes, t).tally.overlap == t.overlap ||
      exists k :: 0 <= k < |axes| &&
        Sweep(s, axes, t).tally.overlap == Abs(SignedOverlap(RangeOfA(s, axes[k]), RangeOfB(s, axes[k])))
  {
    var ps := ProbesOf(s, axes);
    FoldFindsSmallestOverlap(ps, t);
    assert forall k :: 0 <= k < |axes| ==> ps[k].ra == RangeOfA(s, axes[k]) && ps[k].rb == RangeOfB(s, axes[k]);
  }
}
