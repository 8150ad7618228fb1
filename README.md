# Separating Axis Theorem collision plugin: a Dafny model

This project models the collision core of the Separating Axis Theorem plugin
for the Impact game engine (`plugins/sat`). The plugin exposes five classes:

* `Vector`: a mutable 2-D vector. Every operation updates the receiver in
  place and returns it, so that calls can be chained.
* `Polygon`: a position plus a list of points. `recalc` derives one edge
  vector and one unit edge normal per point.
* `Box` (an axis-aligned rectangle) and `Circle` (a centre and a radius).
* `Response`: an object that an intersection test fills in when one is
  passed. It records the two participants, the smallest overlap, the overlap
  normal and vector, and whether either shape lies wholly inside the other.
* `Collision`: the tests themselves. It keeps two pools of scratch objects,
  `T_VECTOR` for vectors and `T_ARRAYS` for two-slot arrays. Every test pops
  what it needs from the pools and pushes it back before returning.

Objects whose fields the plugin updates in place are Dafny classes:
`Vectors.Vector`, `Polygons.Polygon`, `Boxes.Box`, `Responses.Response` and
`Engine.Collision`. The pools are `seq` fields of `Engine.Collision`, and a
scratch array is a Dafny `array<real>` of length 2. Beside each class, a pure
layer of datatypes and functions defines what the operations compute:

* `Vectors.Vec` and its arithmetic.
* `Separation`: projections, ranges, the gap test and the response tally that
  `isSeparatingAxis` refines, folded over a list of axes.
* `CircleTests`: the circle tests, Voronoi regions and the per-edge verdicts
  of `testPolygonCircle`, folded over the edges.
* `Boxes.Rect`: box overlap.

Each method's `ensures` ties its result and its new state to these functions.
The lemmas then prove what the plugin promises about them:

* the pools keep their objects;
* an axis separates exactly when the projected ranges leave a gap;
* the sweep over the axes stops at the first separating axis;
* the recorded overlap is the smallest one seen;
* a test that reports a hit leaves a non-negative overlap in a cleared response;
* testing two circles in the other order swaps the response;
* swapping a response twice restores it;
* round trips on vectors, such as adding then subtracting, restore the input.

Numbers are exact reals. `Math.sqrt` is a parameter `sqrt: real -> real`,
constrained by `Vectors.IsSqrt` to return the non-negative root of every
non-negative argument. `Number.MAX_VALUE` is the constant
`JsValues.MaxValue`. Where the source defaults an argument with `x || d`, the
model takes an `Option`: `None` and `Some(0)` both select the default.

## Model

| member | source | states |
|---|---|---|
| `JsValues.Abs` | plugins/sat/collision.js:106 | `Math.abs`: never negative, and equal to the argument or its negation |
| `JsValues.Min` | plugins/sat/collision.js:86-88 | the smaller of two numbers: at most both, and equal to one of them |
| `JsValues.Max` | plugins/sat/collision.js:353-360 | the larger of two numbers, at least both and equal to one of them; it gives the common point of two overlapping boxes |
| `Vectors.PerpTwiceIsReverse` | plugins/sat/vector.js:28-41 | turning a vector through a right angle twice reverses it |
| `Vectors.ReverseTwiceIsIdentity` | plugins/sat/vector.js:37-41 | reversing twice gives back the vector |
| `Vectors.ReverseOfScaled` | plugins/sat/vector.js:37-41 | reversing a scaled vector is scaling the reversed vector |
| `Vectors.AddThenSubRestores` | plugins/sat/vector.js:57-70 | adding a vector and then subtracting it restores the original |
| `Vectors.ScaleFallsBack` | plugins/sat/vector.js:76-80 | `scale(x)` with the y factor missing or 0 scales both coordinates by x |
| `Vectors.DotSymmetric` | plugins/sat/vector.js:130-132 | the dot product does not depend on argument order |
| `Vectors.SquaredLengthNonNegative` | plugins/sat/vector.js:137-139 | `len2` is never negative |
| `Vectors.PerpendicularIsOrthogonal` | plugins/sat/vector.js:28-33 | the perpendicular is orthogonal to the vector and has the same length |
| `Vectors.SqrtOfSquare` | plugins/sat/vector.js:144-146 | the square root of d*d is d, for every non-negative d |
| `Vectors.UnitOfZeroLength` | plugins/sat/vector.js:45-52 | normalising a zero-length vector leaves it unchanged |
| `Vectors.UnitOfNegated` | plugins/sat/vector.js:37-52 | normalising a reversed vector gives the reversed unit vector |
| `Vectors.ReflectOnUnitTwice` | plugins/sat/vector.js:117-124 | reflecting twice on the same unit axis restores the vector |
| `Vectors.ProjectOnUnitIdempotent` | plugins/sat/vector.js:95-100 | projecting onto a unit axis a second time changes nothing |
| `Vectors.Vector.constructor` | plugins/sat/vector.js:11-15 | a new vector holds the given coordinates |
| `Vectors.Vector.Copy` | plugins/sat/vector.js:20-24 | the receiver takes the other vector's value, the other is unchanged, and the receiver is returned |
| `Vectors.Vector.Perp` | plugins/sat/vector.js:28-33 | the receiver becomes its perpendicular (y, -x) |
| `Vectors.Vector.Reverse` | plugins/sat/vector.js:37-41 | the receiver becomes its negation |
| `Vectors.Vector.Normalize` | plugins/sat/vector.js:45-52 | the receiver becomes the unit vector in its direction; a zero vector stays as it is |
| `Vectors.Vector.Add` | plugins/sat/vector.js:57-61 | the receiver becomes the sum of both values |
| `Vectors.Vector.Sub` | plugins/sat/vector.js:66-70 | the receiver becomes the difference of both values |
| `Vectors.Vector.Scale` | plugins/sat/vector.js:76-80 | x is scaled by the first factor and y by the second, which defaults to the first |
| `Vectors.Vector.Project` | plugins/sat/vector.js:85-90 | the receiver becomes its projection onto a non-zero vector |
| `Vectors.Vector.ProjectN` | plugins/sat/vector.js:95-100 | the receiver becomes its projection onto a unit vector |
| `Vectors.Vector.Reflect` | plugins/sat/vector.js:105-112 | the receiver becomes its reflection on a non-zero axis |
| `Vectors.Vector.ReflectN` | plugins/sat/vector.js:117-124 | the receiver becomes its reflection on a unit axis |
| `Vectors.Vector.Dot` | plugins/sat/vector.js:130-132 | the dot product of the two values; nothing changes |
| `Vectors.Vector.Len2` | plugins/sat/vector.js:137-139 | the squared length, which is never negative |
| `Vectors.Vector.Len` | plugins/sat/vector.js:144-146 | the length: the non-negative number whose square is `len2` |
| `Polygons.Next` | plugins/sat/polygon.js:32 | the index after i wraps around and stays in range |
| `Polygons.Edges` | plugins/sat/polygon.js:30-37 | one edge per point, running from that point to the next, wrapping to the first |
| `Polygons.Normals` | plugins/sat/polygon.js:34 | one normal per edge: the edge turned through a right angle and normalised |
| `Polygons.EdgePrefixTelescopes` | plugins/sat/polygon.js:30-37 | the first k edges add up to the step from point 0 to point k |
| `Polygons.EdgesSumToZero` | plugins/sat/polygon.js:30-37 | the edges of a closed polygon add up to the zero vector |
| `Polygons.NormalsAreOrthogonal` | plugins/sat/polygon.js:34 | the normal `recalc` stores for edge i is orthogonal to that edge, as is the edge's perpendicular |
| `Polygons.Polygon.constructor` | plugins/sat/polygon.js:17-21 | the position defaults to a fresh origin vector and the points to an empty list; edges and normals are then consistent with the points |
| `Polygons.Polygon.Recalc` | plugins/sat/polygon.js:25-38 | afterwards there are fresh edge and normal vectors, one of each per point, holding `Edges` and `Normals` of the point values |
| `Polygons.BuildEdges` | plugins/sat/polygon.js:30-37 | the loop builds exactly `Edges` and `Normals` of the points, in order, from fresh vectors |
| `Polygons.HoldValues` | plugins/sat/polygon.js:35-36 | vectors that hold the values ws, one by one, have the value list ws |
| `Polygons.NewEdge` | plugins/sat/polygon.js:31-34 | a fresh edge p2 - p1 and a distinct fresh vector holding its normal |
| `Polygons.NewNormal` | plugins/sat/polygon.js:34 | a fresh vector holding the edge's unit perpendicular |
| `Polygons.InitDropsPoints` | plugins/sat/polygon.js:19 | as written, the bitwise or stores the number 0 rather than a given non-empty list, so the polygon gets no edges |
| `Polygons.RecalcAsWrittenThrows` | plugins/sat/polygon.js:33-34 | as written, `new ig.global.Vector.copy(p2)` throws a TypeError on the first point of a non-empty polygon |
| `Boxes.ToPolygonAsWrittenHasNoEdges` | plugins/sat/box.js:27-33 | as written, the polygon `toPolygon` builds from a box's four corners gets none of its four edges |
| `Circles.NewCircle` | plugins/sat/circle.js:19-22 | the position defaults to a fresh origin vector and the radius to 0 |
| `Responses.Cleared` | plugins/sat/response.js:25-30 | clearing sets both containment flags and the overlap to `Number.MAX_VALUE`, and keeps the normal |
| `Responses.ClearIdempotent` | plugins/sat/response.js:25-30 | clearing twice is clearing once |
| `Responses.SwappedTwice` | plugins/sat/collision.js:305-315 | swapping a response's sides twice restores it |
| `Responses.Response.constructor` | plugins/sat/response.js:14-19 | a new response has no participants and fresh zero overlap vectors |
| `Responses.Response.Clear` | plugins/sat/response.js:25-30 | the response's tally becomes `Cleared` of the old one, and the response is returned |
| `Boxes.CornerEdgesAreSides` | plugins/sat/box.js:28-32 | the four corners of a w x h box have the edges (w,0), (0,h), (-w,0), (0,-h) |
| `Boxes.OverlapSymmetric` | plugins/sat/collision.js:353-360 | box overlap does not depend on argument order |
| `Boxes.OverlapIffCommonPoint` | plugins/sat/collision.js:353-360 | boxes of non-negative size overlap exactly when some point lies in both |
| `Boxes.CornerInsideOverlaps` | plugins/sat/collision.js:353-360 | if a's corner lies in b then the boxes overlap |
| `Boxes.OverlapFacts` | plugins/sat/collision.js:353-360 | symmetry, the common point and the corner test together, for any two boxes |
| `Boxes.Box.constructor` | plugins/sat/box.js:14-18 | the position defaults to a fresh origin vector, and the width and height to 0 |
| `Boxes.Box.ToPolygon` | plugins/sat/box.js:23-34 | a fresh polygon at a copy of the position, with four fresh corners (0,0), (w,0), (w,h), (0,h) and consistent edges |
| `Separation.Projections` | plugins/sat/collision.js:46-47 | the dot product of each point with the axis, in order |
| `Separation.LowestIsLowerBound` | plugins/sat/collision.js:43-50 | the running minimum is at most every projection and at most `Number.MAX_VALUE` |
| `Separation.HighestIsUpperBound` | plugins/sat/collision.js:43-50 | the running maximum is at least every projection and at least `-Number.MAX_VALUE` |
| `Separation.LowestIsAttained` | plugins/sat/collision.js:43-50 | for finite projections, the minimum is one of them |
| `Separation.HighestIsAttained` | plugins/sat/collision.js:43-50 | for finite projections, the maximum is one of them |
| `Separation.FlattenSpans` | plugins/sat/collision.js:42-52 | the flattened range of a non-empty point list is ordered, contains every projection and has both ends attained |
| `Separation.GapIffApart` | plugins/sat/collision.js:68 | the range test finds a gap exactly when every projection of A lies below every projection of B or above every one |
| `Separation.SignedOverlap` | plugins/sat/collision.js:78-103 | the signed overlap has the magnitude of the shorter way out and moves one range's end onto the other's |
| `Separation.Refine` | plugins/sat/collision.js:75-113 | one axis clears `aInB` unless A's range lies inside B's, and clears `bInA` unless B's lies inside A's; the overlap becomes the smaller one, and the normal follows it |
| `Separation.ProbesOf` | plugins/sat/collision.js:331-341 | one probe of the scene per axis, in order |
| `Separation.ProbesMeasure` | plugins/sat/collision.js:331-341 | each probe measures its own axis |
| `Separation.FoldExtend` | plugins/sat/collision.js:331-341 | folding over one more probe is one more step |
| `Separation.FoldSeparatedIff` | plugins/sat/collision.js:330-341 | the fold ends separated exactly when some probe shows a gap |
| `Separation.FoldStaysSeparated` | plugins/sat/collision.js:332-334 | once separated, further probes change nothing |
| `Separation.FoldSettled` | plugins/sat/collision.js:331-341 | stopping at the first separating probe gives the whole fold's outcome |
| `Separation.FoldOnlyNarrows` | plugins/sat/collision.js:75-113 | the fold never raises the overlap and never sets a containment flag |
| `Separation.FoldFindsSmallestOverlap` | plugins/sat/collision.js:105-113 | without separation, the final overlap is at most every probe's and is either the initial value or one of them |
| `Separation.FoldOverlapNonNegative` | plugins/sat/collision.js:105-113 | from a non-negative start, the overlap after any list of probes is non-negative |
| `Separation.ProbesOfSplit` | plugins/sat/collision.js:331-341 | probing a prefix, or two lists joined, is the prefix, or the join, of the probes |
| `Separation.SweepSeparatedIff` | plugins/sat/collision.js:330-341 | a sweep over axes separates exactly when some axis separates the scene |
| `Separation.SweepStopsAtFirst` | plugins/sat/collision.js:331-341 | the sweep's outcome is decided at the first separating axis |
| `Separation.SweepStaysSeparated` | plugins/sat/collision.js:336-341 | axes after a separating one change nothing |
| `Separation.SweepOnlyNarrows` | plugins/sat/collision.js:105-113 | the sweep never raises the overlap and never sets a containment flag |
| `Separation.SweepFindsSmallestOverlap` | plugins/sat/collision.js:105-113 | without separation, the final overlap is the smallest among the axes or the initial value |
| `Separation.SweepOverlapNonNegative` | plugins/sat/collision.js:325-351 | after `clear`, or from any non-negative start, the overlap `testPolygonPolygon` leaves is never negative |
| `CircleTests.CirclesApartSymmetric` | plugins/sat/collision.js:147-156 | whether two circles are apart does not depend on their order |
| `CircleTests.CirclesApartIffFar` | plugins/sat/collision.js:148-152 | the squared test says apart exactly when the centre distance exceeds the sum of the radii |
| `CircleTests.CircleInCircle` | plugins/sat/collision.js:165-166 | a circle counted as inside another fits inside it |
| `CircleTests.CircleContact` | plugins/sat/collision.js:158-167 | the normal is the unit centre difference, and each containment flag implies that circle fits inside the other |
| `CircleTests.MutualContainmentMeansEqual` | plugins/sat/collision.js:165-166 | two circles each inside the other are the same circle |
| `CircleTests.CircleOverlapNonNegative` | plugins/sat/collision.js:162 | intersecting circles have a non-negative overlap |
| `CircleTests.CircleContactSwapped` | plugins/sat/collision.js:147-170 | testing the circles in the other order gives the swapped contact: same overlap, reversed normal, exchanged containment flags |
| `CircleTests.VornoiRegion` | plugins/sat/collision.js:133-139 | left exactly when the point projects before the segment, right exactly when beyond its end, middle exactly when onto it |
| `CircleTests.SegmentIsMiddle` | plugins/sat/collision.js:133-139 | every point of the segment lies in its middle region |
| `CircleTests.Prev` | plugins/sat/collision.js:189 | the index before i wraps around and stays in range |
| `CircleTests.Keep` | plugins/sat/collision.js:277-280 | a candidate overlap replaces the kept one only when its magnitude is smaller |
| `CircleTests.Apply` | plugins/sat/collision.js:198-281 | one edge's verdict rejects, clears `aInB` when the centre is outside the radius around the vertex, clears `bInA` as the verdict says, and never raises the overlap magnitude |
| `CircleTests.ScanFoldExtend` | plugins/sat/collision.js:187-282 | scanning one more edge is one more step, or nothing after a rejection |
| `CircleTests.ScanFoldRejectedIff` | plugins/sat/collision.js:187-282 | the scan rejects exactly when some edge's verdict rejects |
| `CircleTests.ScanFoldStaysRejected` | plugins/sat/collision.js:215-219 | after a rejection, further edges change nothing |
| `CircleTests.ScanFoldSettled` | plugins/sat/collision.js:187-282 | stopping at the first rejecting edge gives the whole scan's outcome |
| `CircleTests.ScanFoldOnlyNarrows` | plugins/sat/collision.js:187-282 | the scan never sets a containment flag and never raises the overlap magnitude |
| `CircleTests.BeforeStartAsWritten` | plugins/sat/collision.js:204-227 | the vertex test before an edge's start never proposes a candidate overlap |
| `CircleTests.BeyondEndAsWritten` | plugins/sat/collision.js:228-274 | the test beyond an edge's end proposes no candidate when it rejects |
| `CircleTests.StartVerdictAsWritten` | plugins/sat/collision.js:204-227 | the left-region verdict of edge i proposes no candidate |
| `CircleTests.EndVerdictAsWritten` | plugins/sat/collision.js:228-281 | the right-region verdict of edge i proposes no candidate when it rejects |
| `CircleTests.SidesVerdict` | plugins/sat/collision.js:196-200 | the verdict clears `aInB` exactly when the centre is outside the radius around the vertex |
| `CircleTests.VerdictAsWritten` | plugins/sat/collision.js:194-281 | as written, a centre in edge i's middle region gives a verdict that neither rejects nor proposes an overlap |
| `CircleTests.VerdictBySides` | plugins/sat/collision.js:188-194 | the verdict of edge i depends only on its vertex, its neighbours and their edges |
| `CircleTests.IntendedVerdict` | plugins/sat/collision.js:250-274 | the intended verdict rejects whenever the centre is outside edge i by more than the radius |
| `CircleTests.VerdictsAsWritten` | plugins/sat/collision.js:187-282 | one as-written verdict per edge, in order |
| `CircleTests.Verdicts` | plugins/sat/collision.js:187-282 | one intended verdict per edge, in order |
| `CircleTests.ScanAsWrittenRejectedIff` | plugins/sat/collision.js:187-293 | the as-written scan rejects exactly when some edge's verdict rejects |
| `CircleTests.ScanFoldOverlapNonNegative` | plugins/sat/collision.js:277-280 | if no edge offers a negative overlap, a non-negative starting overlap stays non-negative |
| `CircleTests.BeyondEndOffersNonNegative` | plugins/sat/collision.js:234-273 | for a radius that is not negative, the tests beyond an edge's end offer radius - distance only when it is not negative |
| `CircleTests.ScanAsWrittenOverlapNonNegative` | plugins/sat/collision.js:178-294 | after `clear`, with a radius that is not negative, the overlap `testPolygonCircle` leaves is never negative |
| `CircleTests.ScanEdgesOverlapNonNegative` | plugins/sat/collision.js:187-282 | the same for the loop with the intended braces |
| `CircleTests.ApplyAfterClearingA` | plugins/sat/collision.js:198-200 | clearing `aInB` before the region test gives the same step as clearing it in the step |
| `CircleTests.RejectionIsFinal` | plugins/sat/collision.js:215-219 | a rejection on the first j edges stays a rejection on more edges |
| `CircleTests.MiddleEverywhereNeverRejectsAsWritten` | plugins/sat/collision.js:228-281 | as written, a centre in every edge's middle region is never rejected |
| `CircleTests.OutsideAnEdgeRejects` | plugins/sat/collision.js:250-274 | with the intended verdicts, a centre beyond any edge by more than the radius is rejected |
| `CircleTests.TriangleEdges` | plugins/sat/polygon.js:30-37 | the edges of the triangle (0,0), (10,0), (0,10) |
| `CircleTests.TriangleEdge` | plugins/sat/polygon.js:30-37 | one named edge of that triangle |
| `CircleTests.CentreFromCorners` | plugins/sat/collision.js:196 | the centre (8,8) relative to each corner of that triangle |
| `CircleTests.LevelWithSide` | plugins/sat/collision.js:133-139 | the three relative centres lie in their edges' middle regions |
| `CircleTests.CentreLevelWithEveryEdge` | plugins/sat/collision.js:203 | the centre (8,8) lies in the middle region of every edge of the triangle |
| `CircleTests.MiddleRegionIgnoredAsWritten` | plugins/sat/collision.js:228-281 | as written, a radius-1 circle at (8,8) is not rejected by that triangle |
| `CircleTests.SqrtOf200Bounds` | plugins/sat/collision.js:254 | the root of 200 lies between 0 and 60 |
| `CircleTests.QuotientAboveOne` | plugins/sat/collision.js:256-259 | a/d exceeds 1 when 0 < d < a |
| `CircleTests.HypotenuseNormal` | plugins/sat/collision.js:254 | the unit normal of the hypotenuse has equal coordinates, each above 1/6 |
| `CircleTests.BeyondHypotenuse` | plugins/sat/collision.js:256-259 | the relative centre (-2,8) lies beyond the hypotenuse by more than radius 1 |
| `CircleTests.TriangleCentreBeyondHypotenuse` | plugins/sat/collision.js:250-263 | the circle at (8,8) with radius 1 lies outside the triangle's hypotenuse |
| `CircleTests.BracesDisagree` | plugins/sat/collision.js:228-281 | when the centre is in every middle region but beyond one edge, the as-written scan accepts and the intended scan rejects |
| `CircleTests.TriangleShowsBraces` | plugins/sat/collision.js:228-281 | for the triangle and the circle at (8,8) with radius 1, the as-written scan accepts and the intended scan rejects |
| `Engine.PoolSize` | plugins/sat/collision.js:24-25 | the pool size is the given size, or 10 when it is missing or 0 |
| `Engine.SwapTop` | plugins/sat/collision.js:55-56 | popping two arrays and pushing them back in pop order swaps the top two |
| `Engine.SwapTopTwice` | plugins/sat/collision.js:115-117 | swapping the top twice restores the pool, and a swap keeps the same arrays |
| `Engine.SwapTopKeepsArrays` | plugins/sat/collision.js:115-117 | a swapped array pool still holds distinct two-slot arrays |
| `Engine.Reversed` | plugins/sat/collision.js:290-292 | reversing a list puts item j at position n-1-j |
| `Engine.ReversedKeepsItems` | plugins/sat/collision.js:290-292 | reversing keeps the same items |
| `Engine.FlipTop` | plugins/sat/collision.js:290-292 | pushing back the top k in pop order reverses them and keeps the rest |
| `Engine.FlipTopKeepsItems` | plugins/sat/collision.js:290-292 | flipping the top keeps the same items, and keeps them distinct |
| `Engine.DropTopKeepsDistinct` | plugins/sat/collision.js:179-185 | popping from a pool of distinct vectors leaves distinct vectors |
| `Engine.FlipTopPushed` | plugins/sat/collision.js:290-292 | pushing back taken items in pop order is `FlipTop` |
| `Engine.ReturnedThree` | plugins/sat/collision.js:290-292 | pushing back circlePos, edge and point flips the top three |
| `Engine.ReturnedFour` | plugins/sat/collision.js:215-218 | pushing back circlePos, edge, point and point2 flips the top four |
| `Engine.VerdictsOfEdges` | plugins/sat/collision.js:187-282 | the as-written verdicts of all edges fold to the as-written scan |
| `Engine.CandidateAxes` | plugins/sat/collision.js:331-341 | A's normals and then B's, in order |
| `Engine.PrefixStep` | plugins/sat/collision.js:331-341 | the prefix of length i+1 is the prefix of length i plus item i |
| `Engine.BoxCornerTestMissesOverlap` | plugins/sat/collision.js:353-360 | boxes (0,0,10,10) and (5,5,10,10) overlap, yet the corner test says no |
| `Engine.AsWrittenPolygonsAlwaysCollide` | plugins/sat/collision.js:326-341 | for polygons built by the as-written constructor, whatever their points, `testPolygonPolygon` tries no axis and reports a hit with the tally untouched |
| `Engine.AsWrittenPolygonAlwaysMeetsCircle` | plugins/sat/collision.js:183-187 | for a polygon built by the as-written constructor, the edge loop of `testPolygonCircle` does not run, so every circle is reported as hitting it |
| `Engine.Collision.constructor` | plugins/sat/collision.js:23-32 | the vector pool holds `PoolSize` fresh zero vectors and the array pool `PoolSize` fresh arrays |
| `Engine.Collision.FlattenPointsOn` | plugins/sat/collision.js:42-52 | result[0] and result[1] hold the lowest and highest projection onto the normal |
| `Engine.Collision.IsSeparatingAxis` | plugins/sat/collision.js:54-119 | true exactly when the axis separates the two shapes; otherwise the response is refined by that axis; the pools keep their objects |
| `Engine.Collision.ProjectRanges` | plugins/sat/collision.js:55-66 | the two arrays hold A's range and B's range shifted by the projected offset |
| `Engine.Collision.RefineResponse` | plugins/sat/collision.js:75-113 | the response's tally becomes `Refine` of the old one for these ranges |
| `Engine.Collision.TestPolygonPolygon` | plugins/sat/collision.js:325-351 | true exactly when no normal of A or B separates the polygons; on a hit the response holds the sweep's tally, both participants and overlapV = overlapN * overlap |
| `Engine.Collision.JoinedNormals` | plugins/sat/collision.js:331-341 | A's normals followed by B's hold the candidate axes and are distinct objects |
| `Engine.Collision.RecordHit` | plugins/sat/collision.js:345-349 | records both participants and sets overlapV = overlapN * overlap |
| `Engine.Collision.SweepNormals` | plugins/sat/collision.js:331-341 | separated exactly when the fold over the normals separates; the response holds the fold's tally |
| `Engine.Collision.ProbeNormal` | plugins/sat/collision.js:332 | probing axis i, after i axes that do not separate, gives the fold over the first i+1 probes, both in the result and in the response |
| `Engine.Collision.TestCircleCircle` | plugins/sat/collision.js:147-170 | true exactly when the circles are not apart; on a hit the response holds their contact: participants, unit normal, overlap = r1 + r2 - distance and the containment flags |
| `Engine.Collision.RecordCircles` | plugins/sat/collision.js:158-167 | the response holds `CircleContact` and overlapV = overlapN * overlap |
| `Engine.Collision.TestPolygonCircle` | plugins/sat/collision.js:178-294 | true exactly when no edge's as-written verdict rejects; on a hit the response holds the scan's tally and overlapV = overlapN * overlap; the pool gets its vectors back |
| `Engine.Collision.TestCirclePolygonAsWritten` | plugins/sat/collision.js:303-304 | as written, the call throws: the circle has no `points`, and the pool loses the vector already popped |
| `Engine.Collision.TestCirclePolygon` | plugins/sat/collision.js:303-317 | with the arguments in order: the polygon-circle result, with the response's sides swapped and both overlap vectors reversed |
| `Engine.Collision.SwapResponse` | plugins/sat/collision.js:305-315 | swaps participants and containment flags and reverses overlapN and overlapV |
| `Engine.Collision.TestBoxBox` | plugins/sat/collision.js:353-360 | as written: true exactly when a's corner lies within b |
| `Engine.Collision.BoxesIntersect` | plugins/sat/collision.js:353-360 | true exactly when the boxes overlap, in either order; for sizes that are not negative, exactly when they share a point; it holds whenever the corner test does |
| `Engine.Collision.SweepEdges` | plugins/sat/collision.js:187-289 | rejects exactly when the as-written scan rejects; the response holds the scan's tally |
| `Engine.Collision.TakeScratch` | plugins/sat/collision.js:179-185 | pops three distinct vectors and sets circlePos to the circle's centre relative to the polygon |
| `Engine.Collision.GiveBackScratch` | plugins/sat/collision.js:290-292 | pushes the scratch vectors back, so the pool is the original with its top three or four flipped |
| `Engine.Collision.EdgeLoop` | plugins/sat/collision.js:187-282 | the loop rejects exactly when the fold of the edge verdicts rejects, stops at the first rejection, and leaves the fold's tally in the response |
| `Engine.Collision.ScanEdge` | plugins/sat/collision.js:187-282 | after i edges that do not reject, iteration i gives the fold over the first i+1 verdicts, both in its result and in the response |
| `Engine.Collision.StartAsWritten` | plugins/sat/collision.js:204-227 | the left-region branch rejects as `BeforeStartAsWritten` says and pushes point2 back unless it rejects |
| `Engine.Collision.EndAsWritten` | plugins/sat/collision.js:228-281 | the right-region branch rejects as `BeyondEndAsWritten` says |
| `Engine.Collision.EndVertex` | plugins/sat/collision.js:234-249 | when the centre lies before the next edge's start: rejects exactly when it is farther than the radius from that vertex; otherwise, with a response, it clears `bInA` and offers the centre's unit direction and radius - distance as the candidate overlap |
| `Engine.Collision.EndSide` | plugins/sat/collision.js:250-274 | otherwise: rejects exactly when the centre lies outside the next edge by more than the radius; otherwise, with a response, it offers the edge's unit normal as the candidate and clears `bInA` unless the circle lies wholly inside that edge |
| `Engine.Collision.EdgeAsWritten` | plugins/sat/collision.js:188-281 | edge i rejects exactly when its as-written verdict rejects; the response's tally takes that verdict's step; the vertex and edge values and the pool's other vectors are unchanged |
| `Engine.Collision.EdgeStep` | plugins/sat/collision.js:194-281 | the pass over edge i rejects exactly when `SidesVerdict` of its vertex, its neighbours and their edges rejects, and the response takes that verdict's step |
| `Engine.Collision.LocateCentre` | plugins/sat/collision.js:194-200 | copies the edge, puts the centre relative to the vertex, and clears `aInB` when the centre is outside the radius |
| `Engine.Collision.PopVector` | plugins/sat/collision.js:179 | takes the top vector of the pool |
| `Engine.Collision.PushVector` | plugins/sat/collision.js:290 | appends a vector to the pool |
| `Engine.Collision.PopTwoArrays` | plugins/sat/collision.js:55-56 | takes the top two arrays, top first |
| `Engine.Collision.PushTwoArrays` | plugins/sat/collision.js:116-117 | appends two arrays in order |

## Left out

- Floating point: coordinates are exact reals. Rounding, `NaN` and `Infinity` are not modelled. `Number.MAX_VALUE` is the starting value of the overlap in `Response.clear`, and also the starting minimum of `flattenPointsOn`, whose maximum starts at `-Number.MAX_VALUE` (plugins/sat/collision.js:43-44). With exact reals a projection can lie beyond ±`Number.MAX_VALUE`, which no double can. `Separation.Finite` excludes such projections as the counterpart of the double range, and `Separation.LowestIsAttained`, `Separation.HighestIsAttained`, `Separation.FlattenSpans` and `Separation.GapIffApart` require it.
- `Math.sqrt` is passed in as a parameter: any function that returns the non-negative root of each non-negative number.
- The `ig.module` / `ig.Class.extend` wiring and the constants `LEFT_VORNOI_REGION`, `MIDDLE_VORNOI_REGION` and `RIGHT_VORNOI_REGION` are plain integer constants. The other plugins and the Impact engine are not part of this model.
- JavaScript `x || d` defaults take an `Option`. `None` and `Some(0)` select the default. Other falsy values (`NaN`, `""`, `false`) do not exist in the model.
- Dynamic typing: a polygon's `points` is always a list of vectors. A circle passed where a polygon is expected appears only in `Engine.Collision.TestCirclePolygonAsWritten`.
- `Responses.Response`'s `aInB`, `bInA` and `overlap` exist from construction. In the source they are undefined until `clear` is called.
- Engine.Collision.IsSeparatingAxis and Engine.Collision.TestPolygonPolygon take the polygons' points as lists of values, not as `Vector` objects. These tests only read the points.
- Engine.Collision.TestPolygonPolygon models the two loops of the source as one sweep over A's normals followed by B's. The first separating axis ends the sweep, as in the source.
- Engine.Collision.TestPolygonCircle requires a vector pool of at least four. The source pops `undefined` from a shorter pool and then fails.
- Aliasing: the tests require that the pools hold none of the caller's shapes or a response's vectors. They also require that a response's `overlapN` is not `overlapV`, the axis tested, a polygon's `pos`, or one of its normals, points or edges. Polygons must not share a point, edge or normal object between two indices. The source assumes all this silently. If `overlapN` were the axis, for instance, `overlapN.reverse()` would reverse the polygon's own normal. The model does not capture those aliased runs.
- Single exit: early `return false` in testPolygonPolygon, isSeparatingAxis and testPolygonCircle become one exit path. The pool and response effects are the same.
- `Polygons.Polygon.Recalc` builds its edges and normals through `Polygons.BuildEdges` over local lists, then assigns the fields.
- `Engine.Collision.TestCirclePolygon` builds on the as-written `Engine.Collision.TestPolygonCircle`, so it inherits the misplaced braces of the fourth finding below.
- `Separation.Refine`: when the ranges start at the same point, the source clears `bInA` and not `aInB`. The model keeps this asymmetry.
- `testCirclePolygon`'s doc comment (plugins/sat/collision.js:296-302) promises the polygon-circle result for the arguments in the other order, and `testBoxBox`'s name promises a box-box intersection test. The code does neither. The model follows the code in `Engine.Collision.TestCirclePolygonAsWritten` and `Engine.Collision.TestBoxBox`, and gives the intended behaviour in `Engine.Collision.TestCirclePolygon` and `Engine.Collision.BoxesIntersect`.
- Boxes.Box.ToPolygon, and every test on a polygon built by a constructor, goes through the corrected `Polygons.Polygon.constructor` and the corrected `Polygons.Polygon.Recalc`. As written, plugins/sat/box.js:27-33 passes the corners to polygon.js:19, which stores `points = 0` and builds no edges. Every `testPolygonPolygon` and `testPolygonCircle` on such a polygon then runs its loops zero times and returns true. `Boxes.ToPolygonAsWrittenHasNoEdges`, `Engine.AsWrittenPolygonsAlwaysCollide` and `Engine.AsWrittenPolygonAlwaysMeetsCircle` state this as-written behaviour.
- Polygons.Next and CircleTests.Prev: their contracts state only that the neighbouring index is in range. Their bodies are the source's wrap-around ternaries.

## Findings

| source | as written | input that shows it | evidently intended | confidence | as-written member | corrected member |
|---|---|---|---|---|---|---|
| plugins/sat/polygon.js:19 | `points` and `[]` are combined with a bitwise or, which turns an array of points into the number 0 | any non-empty point list, such as the four corners of a box | a logical or: keep the given points, defaulting to an empty list | not executed | `Polygons.InitDropsPoints` | `Polygons.Polygon.constructor` |
| plugins/sat/polygon.js:33-34 | `new ig.global.Vector.copy(p2)` calls `copy` as a constructor on no vector, which throws a TypeError | a polygon whose `points` is assigned a non-empty array after construction, followed by a call to `recalc()` (polygon.js:23 asks for that call). A polygon straight from the constructor never reaches it: its `points` is 0, `(0).length` is undefined, and the loop does not run | `new ig.global.Vector().copy(p2)` | not executed | `Polygons.RecalcAsWrittenThrows` | `Polygons.Polygon.Recalc` |
| plugins/sat/collision.js:304 | `testPolygonCircle(circle, polygon, response)` passes the circle as the polygon, so reading `points.length` of `undefined` throws | any circle and polygon | `testPolygonCircle(polygon, circle, response)` | not executed | `Engine.Collision.TestCirclePolygonAsWritten` | `Engine.Collision.TestCirclePolygon` |
| plugins/sat/collision.js:228-281 | the middle-region test and the minimum update sit inside the right-region branch, so a centre in an edge's middle region is never tested against that edge | triangle (0,0), (10,0), (0,10) and a circle of radius 1 at (8,8): reported as intersecting | test every edge whose middle region holds the centre | not executed | `CircleTests.TriangleShowsBraces` | `CircleTests.OutsideAnEdgeRejects` |
| plugins/sat/collision.js:353-360 | only tests whether a's corner lies inside b | boxes (0,0,10,10) and (5,5,10,10) overlap, but the test returns false | test whether the boxes' extents overlap on both axes | not executed | `Engine.BoxCornerTestMissesOverlap` | `Engine.Collision.BoxesIntersect` |
