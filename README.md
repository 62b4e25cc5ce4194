# KiPadCheck, modelled in Dafny

KiPadCheck is a KiCad pcbnew plugin that checks a board against
manufacturing rules. This project models its core: the geometric engine
and the rule checks built on top of it, taken from `kipadcheck.py`. The
model consists of the following parts.

- **The point kernel (`wxPointUtil`).**
  - Dot products and squared distances over integer nanometre coordinates.
  - The clamped projection of a point onto a segment.
  - The point-to-segment distance, with its guard for a segment of zero length.
  - The separating-axis test of two polygons, with its `closed` flag.
- **Polygon distances and shapes (`KiPadCheck`).**
  - The minimum squared distance from a line to a polygon, and between two polygons.
  - The overlap test of two orthogonal rectangles.
  - The rotated outlines of rectangles and point vectors.
- **Drill rules (`DrillInfo_Worker`).**
  - Holes too close to a straight board edge.
  - The hole separation sweep per layer.
  - The forward-only via to via distances and the `FailedVias` list.
  - Vias too close to tracks of another net.
  - The first standard drill that fits each hole size.
  - Holes grouped by drill size.
- **Silk rules (`SilkInfo_Worker`).**
  - The thickness, height and aspect thresholds for texts.
  - The width threshold for graphic items.
  - The tiered pad-against-text and pad-against-line decision.
- **Stencil classification (`StencilInfo`).**
  - Paste aperture and mask sizes, and pads grouped by size.
  - The area and aspect ratios of every aperture size at stencil thicknesses of 2 to 7 mil.
  - The failure lists for area ratios below 0.66 and aspect ratios below 1.5.
  - The least and largest ratio per thickness.
- **Units.**
  - `parse_measurement`, which reads a number and a unit suffix with a regular expression.
  - The `conversion` table, with its squared suffixes.
  - `convert_to_iu`, and the parse-and-convert step of `gui.get_value_float`.

Board objects are plain records: centres, sizes, drill sizes, nets, layer
sets, thicknesses, heights and end points. Calls to `SetSelected` become
sets of indices that the checks return. Coordinates are integers in
nanometres.

The projection parameter `t = k / |w - v|^2` is kept as an exact
fraction. The projected point is a point with rational coordinates.
Ratios and distances are `real`. Square root, cosine and sine are
parameters of the operations that use them. The only assumption about the
square root is that it is non-negative on non-negative arguments
(`Geometry.NonNegativeRoot`).

The model keeps the source's own behaviour where it departs from the
textbook algorithm, and proves where and how it departs:

- **The absolute value in `projection_line`.** `projection_line` takes the
  absolute value of `(p - v).(w - v)`. With the projected point kept exact,
  as the model keeps it, the point-to-segment distance is exact when the
  point lies ahead of `v` and too large when it lies behind it. Proved by
  `Geometry.MinDistance2ExactWhenAhead` and
  `Geometry.MinDistance2OverestimatesBehindStart`, against the exact
  distance `Geometry.SegmentDistance2`. The source also truncates the
  projected point to integers, which the model does not (see "Left out"),
  so these are facts about the exact projection, not about the source's
  integer result.
- **`not minA` in `check_polygons_intersecting`.** This test treats a
  running extremum of 0 as unset. The test therefore agrees with the exact
  separating-axis test when no projection is 0
  (`Polygons.SeparatesExactWhenNonZero`). It reports two overlapping
  polygons as disjoint in the case shown by
  `Polygons.QuirkSeparatesOverlapping`.
- **The hole separation sweep.**
  - It keeps one running minimum across all layers.
  - It counts a pair as failed whenever that running minimum is within the limit.
  - It never measures the last hole of a layer.
- **The drill-to-edge check.** It subtracts the full first drill dimension
  from the distance, not the radius. It still measures edge shapes that are
  not straight lines, and reports them as not checked.
- **The slow stroke loop of the silk check.** It keeps the last stroke's
  distance, not the smallest one.
- **The text aspect ratio.** `USER_text_minimum_WtoH` is read from the
  "Draw All Outlines" check box (`dao`, kipadcheck.py:2511), not from a
  width-to-height entry. As written, the ratio is 0 or 1
  (`Silk.TextMinimumWtoHAsWritten`). The reading its comment describes, a
  number entered by the user with 1.0 when it does not parse, is
  `Silk.TextMinimumWtoH`.

Where a prose description of the plugin and the code disagree, the model
follows the code:

- **Closest point.** The projection is not always the closest point of the
  segment, because of the absolute value above.
- **Drill-to-edge.** The check subtracts `d[0]`, the full first drill
  dimension, not the drill radius.
- **Via-to-track tolerance.** The guard is on the reduced distance
  (`|reduced| > 1000`), together with a raw distance other than 0. It is
  not a tolerance on the raw distance.
- **Hole separation.** Pairs fail on the running minimum, not on their own
  gap.

Module layout:

| file | module |
|---|---|
| `wrappers.dfy` | `Option` |
| `arithmetic.dfy` | integer facts the proofs share |
| `geometry.dfy` | point kernel |
| `polygons.dfy` | separating-axis test |
| `distances.dfy` | line/polygon and polygon/polygon distances |
| `rectangles.dfy` | rectangle overlap |
| `shapes.dfy` | rotated outlines |
| `board.dfy` | board records |
| `grouping.dfy` | `setdefault` grouping and per-layer filtering |
| `drill.dfy` | drill rules |
| `silk.dfy` | silk rules |
| `silk_geometry.dfy` | the silk rules' measures from the geometry modules |
| `stencil.dfy` | stencil classification |
| `units.dfy` | parsing and conversion |
| `conversion.dfy` | squared suffixes |
| `unit_table.dfy` | the `conversion` literal |

## Model

| member | source | states |
|---|---|---|
| Geometry.Distance2 | kipadcheck.py:460-465 | the squared distance is the dot product of w - v with itself, is never negative, and is zero exactly when the points are equal |
| Geometry.Distance2Symmetric | kipadcheck.py:460-465 | the squared distance from v to w equals that from w to v |
| Geometry.Distance | kipadcheck.py:467-470 | the distance is non-negative and is the square root of the squared distance |
| Geometry.Scale | kipadcheck.py:472-477 | scaling by the factor 0 gives the origin and by the factor 1 gives the point itself |
| Geometry.ProjectionNumerator | kipadcheck.py:505-511 | the numerator of t lies in [0, \|w - v\|^2]; it is \|(p - v).(w - v)\| unless clamped at the upper end |
| Geometry.ProjectionParameter | kipadcheck.py:511 | the clamped projection parameter t lies in [0, 1] |
| Geometry.ProjectionLine | kipadcheck.py:493-514 | the projected point v + t (w - v) lies on the closed segment [v, w] |
| Geometry.AlongOnSegment | kipadcheck.py:512-513 | every point v + (k / \|w - v\|^2)(w - v) with k in range lies on the segment |
| Geometry.ProjectionOfEndpoints | kipadcheck.py:493-514 | projecting an end point of the segment gives that end point |
| Geometry.ProjectionRepresentsIff | kipadcheck.py:493-514 | the projection of u is u itself exactly when u lies on the segment |
| Geometry.RatDistance2 | kipadcheck.py:460-465 | the squared distance from a point to a projected point is non-negative and zero exactly when they coincide |
| Geometry.MinDistance2 | kipadcheck.py:543-551 | the point-to-segment squared distance is non-negative; for v == w it is the squared distance to v; it is 0 when u is an end point |
| Geometry.MinDistance | kipadcheck.py:554-560 | mindistance is non-negative and is the root of mindistance2 |
| Geometry.SegmentDistance2IsLeast | kipadcheck.py:493-514 | the exact reference distance is no larger than the distance to any point of the segment |
| Geometry.MinDistance2AtLeastExact | kipadcheck.py:543-551 | measured from the exact projection, the distance is never below the exact point-to-segment distance |
| Geometry.MinDistance2ExactWhenAhead | kipadcheck.py:511 | when (u - v).(w - v) >= 0 the distance measured from the exact projection is the exact one |
| Geometry.MinDistance2OverestimatesBehindStart | kipadcheck.py:511 | when (u - v).(w - v) < 0 the absolute value makes the distance measured from the exact projection strictly larger than the exact one |
| Geometry.MinDistance2ZeroIff | kipadcheck.py:543-551 | for a segment of non-zero length, the distance is 0 exactly when u lies on the segment |
| Polygons.NextIsModulo | kipadcheck.py:609 | the vertex after i is (i + 1) % len |
| Polygons.UpdateMin | kipadcheck.py:622-623 | the running minimum becomes set, stays or takes the projection, and is the smaller of the two once it holds a non-zero value |
| Polygons.UpdateMax | kipadcheck.py:624-625 | the same for the running maximum, keeping the larger value |
| Polygons.Projections | kipadcheck.py:619-620 | projection i is the dot product of the edge normal with vertex i |
| Polygons.ProjectionRange | kipadcheck.py:619-633 | the loop over a polygon's vertices yields the running minimum and maximum of their projections |
| Polygons.CheckPolygonsIntersecting | kipadcheck.py:591-640 | returns True exactly when no visited edge of either polygon gives a separating axis. There are len - 1 edges when closed and len wrapping edges when open |
| Polygons.FindSeparatingEdge | kipadcheck.py:608-637 | the edge loop over one polygon returns True exactly when the normal of one of its visited edges separates the two polygons |
| Polygons.PolygonsIntersectSymmetric | kipadcheck.py:596-640 | swapping the two polygons does not change the answer |
| Polygons.RunExtremaAttained | kipadcheck.py:617-633 | the running extrema of a non-empty polygon are set and are projections of its vertices |
| Polygons.RunExtremaBound | kipadcheck.py:622-633 | with no projection equal to 0 the running extrema bound every projection |
| Polygons.SeparatesExactWhenNonZero | kipadcheck.py:622-637 | with no projection equal to 0 the source's axis test is the exact separating-axis test, in both directions |
| Polygons.QuirkSeparatesOverlapping | kipadcheck.py:622-637 | two polygons sharing a vertex, which no axis can separate, are reported as not intersecting because a minimum of 0 counts as unset |
| Polygons.SharedVertexNotSeparated | kipadcheck.py:636-637 | no axis separates two polygons with a common vertex |
| Polygons.DisjointSquares | kipadcheck.py:2282-2285 | the unit square and the square at x 100..200, y 50..100 are reported as not intersecting |
| Polygons.QuadsSeparatedVertically | kipadcheck.py:608-637 | closed quadrilaterals whose extrema along a vertical first-edge normal do not overlap give False |
| Distances.Min | kipadcheck.py:3383-3394 | min(a, b) is no larger than either and is one of them |
| Distances.MinDistance2NonNegative | kipadcheck.py:543-551 | every point-to-segment term is non-negative |
| Distances.LineStep | kipadcheck.py:3381-3394 | one loop iteration leaves a minimum no larger than the previous one or its three terms, and equal to one of them |
| Distances.LineBoundComplete | kipadcheck.py:3378-3394 | after the last edge the running minimum bounds every term of the line-to-polygon family |
| Distances.LinePolygonMin2 | kipadcheck.py:3374-3395 | the line-to-polygon value is the least of the vertex-to-line and end-to-edge terms, and is non-negative |
| Distances.MinDistance2LinePolygon | kipadcheck.py:3374-3395 | the loop returns the least term: no larger than every term and equal to one of them |
| Distances.MinDistanceLinePolygon | kipadcheck.py:3369-3372 | the line-to-polygon distance is non-negative and is the root of the least squared term |
| Distances.LinePolygonMinUnique | kipadcheck.py:3374-3395 | the least term is unique, so every call returns the same value |
| Distances.PairStep | kipadcheck.py:3412-3421 | one inner iteration leaves a minimum no larger than the four vertex-to-edge terms of the pair, and equal to one of them or the previous value |
| Distances.GridBoundComplete | kipadcheck.py:3407-3421 | after the last pair the running minimum bounds every vertex-to-edge term |
| Distances.PolygonPolygonMin2 | kipadcheck.py:3402-3422 | the polygon-to-polygon value is the least distance from a vertex of either polygon to a wrapped edge of the other, and is non-negative |
| Distances.MinDistance2PolygonPolygon | kipadcheck.py:3402-3422 | the nested loop returns that least term |
| Distances.MinDistancePolygonPolygon | kipadcheck.py:3397-3400 | the polygon-to-polygon distance is non-negative and is the root of the least squared term |
| Distances.PolygonPolygonMinUnique | kipadcheck.py:3402-3422 | the least term is unique |
| Distances.PolygonPolygonMinSymmetric | kipadcheck.py:3402-3422 | the least term from P to Q is the least term from Q to P |
| Distances.PolygonPolygonMin2Symmetric | kipadcheck.py:3402-3422 | mindistance2_polygon_polygon(P, Q) equals mindistance2_polygon_polygon(Q, P) |
| Rectangles.RectangleIntersect | kipadcheck.py:1975-2016 | the rectangles overlap exactly when, along each axis, their centres are no further apart than the two half-extents together, the first one grown by the margin |
| Rectangles.RectangleIntersectSymmetric | kipadcheck.py:1975-2016 | without a margin the order of the rectangles does not matter |
| Rectangles.RectangleIntersectMonotone | kipadcheck.py:1975-2016 | a larger margin only adds overlaps |
| Rectangles.RectangleIntersectsItself | kipadcheck.py:1975-2016 | a rectangle of non-negative size overlaps itself at every non-negative margin |
| Shapes.Trunc | kipadcheck.py:2212 | int() truncates toward zero: the result is within 1 of x on the side of zero |
| Shapes.TruncOfInteger | kipadcheck.py:2212 | int() of an integral value is that value |
| Shapes.RotateByZero | kipadcheck.py:2208-2212 | a rotation by angle 0 leaves every point in place |
| Shapes.RotateByHalfTurn | kipadcheck.py:2208-2212 | a half turn reflects every point through the centre |
| Shapes.GetRotatedVector | kipadcheck.py:2189-2218 | an empty vector comes back unchanged; otherwise every point is rotated about the centre and the first rotated point is repeated at the end |
| Shapes.Corners | kipadcheck.py:2238-2243 | a rectangle has four corners |
| Shapes.GetCornersRotatedRect | kipadcheck.py:2219-2259 | the result is the four corners rotated about the centre, followed by the first of them again |
| Shapes.UnrotatedCorners | kipadcheck.py:2219-2259 | unrotated, the outline is the rectangle's own corners as a closed quadrilateral |
| Shapes.UnrotatedVector | kipadcheck.py:2189-2218 | unrotated, a vector comes back as itself followed by its first point |
| Board.PadHole | kipadcheck.py:1851-1854 | a pad's hole has the pad's centre, drill size and layers |
| Board.ViaHole | kipadcheck.py:1855-1858 | a via's hole has the via's position and the drill value in both directions |
| Board.DrilledPads | kipadcheck.py:1863 | the drilled pads are exactly the pads with a non-zero drill size in both directions |
| Board.PadHolesAndVias | kipadcheck.py:1861-1865 | the holes are the drilled pads in order followed by one hole for each via |
| Board.OrDefault | kipadcheck.py:2859 | `value or default` gives the default for an empty or zero field and the value otherwise |
| Grouping.Bucket | kipadcheck.py:1948-1950 | a bucket holds no more values than the input |
| Grouping.BucketMembership | kipadcheck.py:1948-1950 | v is in the bucket of k exactly when some position holds key k and value v |
| Grouping.BucketSize | kipadcheck.py:1948-1950 | a bucket holds one value per occurrence of its key |
| Grouping.ExactlyOneBucket | kipadcheck.py:1948-1950 | with distinct values, each value lies in the bucket of its own key and in no other |
| Grouping.SetdefaultAppend | kipadcheck.py:1950 | `setdefault(k, []).append(v)` adds k, appends v to its list and leaves every other key unchanged |
| Grouping.BucketOfAbsentKey | kipadcheck.py:1948-1950 | a key that does not occur has an empty bucket |
| Grouping.GroupByKey | kipadcheck.py:1946-1950 | the dictionary has exactly the keys that occur, each with that key's values in input order |
| Grouping.AllPads | kipadcheck.py:1944 | range(n) lists 0 .. n - 1 |
| Grouping.GetApertureSize | kipadcheck.py:3149-3155 | each side of the aperture differs from the pad's by the paste margin of that axis, and is no larger than the pad's exactly when that margin is not positive |
| Grouping.GetMaskSize | kipadcheck.py:3157-3163 | both sides of the mask differ from the pad's by the one mask margin, so the difference between width and height is the pad's |
| Grouping.MaskIsUniformAperture | kipadcheck.py:3149-3163 | the mask size is the aperture size with the mask margin on both axes; zero margins leave the pad size |
| Grouping.ApertureShrinks | kipadcheck.py:3149-3155 | a non-positive paste margin gives an aperture no larger than the pad |
| Grouping.GetPadSizes | kipadcheck.py:1925-1937 | pads are grouped by their size: one entry per size that occurs, holding those pads in order |
| Grouping.GetStencilSizes | kipadcheck.py:1939-1951 | pad numbers are grouped by their paste aperture size: one entry per aperture size that occurs, holding those numbers in order |
| Grouping.StencilSizesPartition | kipadcheck.py:1939-1951 | each distinct pad number lies in the bucket of its own aperture size and in no other |
| Grouping.GetPadHoles | kipadcheck.py:1953-1966 | pads are grouped by their drill size |
| Grouping.EmptyPadList | kipadcheck.py:1929-1960 | an empty pad list groups nothing in GetPadSizes but every pad in GetPadHoles (`padnums or range(...)`) |
| Grouping.NonZeroHoles | kipadcheck.py:2939-2940 | exactly the holes with a non-zero drill size in both directions are kept |
| Grouping.HolesBySize | kipadcheck.py:2928-2941 | the keys are exactly the non-zero drill sizes that occur, each with its holes in order |
| Grouping.OnLayer | kipadcheck.py:1869 | the filter keeps exactly the objects on the layer |
| Grouping.ObjectsByLayer | kipadcheck.py:1866-1872 | a layer has an entry exactly when it is one of the requested layers and some object is on it, and the entry is that layer's objects in order |
| Drill.HoleFailCountPositive | kipadcheck.py:2880-2894 | the count for one edge item is at most the number of holes, and positive exactly when some hole is too close |
| Drill.EdgeFailCountPositive | kipadcheck.py:2872-2894 | `edgefail` is positive exactly when some hole is too close to some edge item |
| Drill.HolesNearItem | kipadcheck.py:2880-2894 | the inner loop counts and collects the holes too close to one item |
| Drill.SelectedHolesMembers | kipadcheck.py:2890-2893 | a hole is selected exactly when it is too close to some edge item |
| Drill.SelectedItemsMembers | kipadcheck.py:2890-2893 | an edge item is selected exactly when some hole is too close to it |
| Drill.NotCheckedItems | kipadcheck.py:2875-2878 | the items reported as not checked are, in order, exactly the DRAWSEGMENTs whose shape is not "Line" |
| Drill.EdgeMindist | kipadcheck.py:2889 | the distance the edge rule measures is the root of Geometry's point-to-segment squared distance |
| Drill.HoleOnEdge | kipadcheck.py:2886-2890 | with that measure, a drilled hole centred on an edge line is reported exactly when minus its first drill dimension is below the limit |
| Drill.DrillToEdge | kipadcheck.py:2866-2894 | returns the failure count, the selected holes and items, and the not-checked items |
| Drill.MaxSide | kipadcheck.py:2963 | max(x, y) of a drill size is at least both sides and equal to one of them |
| Drill.SweepRow | kipadcheck.py:2960-2967 | one row of the sweep extends the running minimum, the failure count and the selection |
| Drill.SweepLayer | kipadcheck.py:2957-2967 | one layer's sweep yields the new running minimum, the layer's `fails` and its selected holes |
| Drill.SweepMinimumFacts | kipadcheck.py:2953-2963 | after a layer the running minimum is at most the start and every visited gap, equals one of them, and is within the limit exactly when the start or a gap is |
| Drill.SweepFailsFacts | kipadcheck.py:2963-2967 | a layer's `fails` is positive exactly when some visited pair fails on the running minimum |
| Drill.SweepSelectedFacts | kipadcheck.py:2963-2966 | a layer's selected holes are exactly those of its failing pairs |
| Drill.HoleSeparation | kipadcheck.py:2952-2968 | the sweep over all layers returns each layer's `fails`, their sum, and the selected holes |
| Drill.SepMinHit | kipadcheck.py:2953-2963 | the running minimum carried into a layer is within the limit exactly when one metre is, or some earlier layer has a gap within it |
| Drill.SepLayerFails | kipadcheck.py:2956-2967 | a layer's `fails` is positive exactly when one of its pairs fails in the whole sweep |
| Drill.SepLayerSelected | kipadcheck.py:2956-2966 | a layer's selected holes are those of its pairs that fail in the whole sweep |
| Drill.SepFailsFacts | kipadcheck.py:2955-2968 | there is one `fails` per layer, positive exactly when some pair of the layer fails |
| Drill.SepSelectedFacts | kipadcheck.py:2956-2966 | the selected holes over all layers are exactly those of the failing pairs |
| Drill.LowerForward | kipadcheck.py:3054-3065 | the inner loop lowers `distmin[i]` to the least of one metre and the gaps to the later vias, and changes no other entry |
| Drill.ViaDistances | kipadcheck.py:3051-3065 | there is one entry per via; it is at most one metre and at most every gap to a later via, and equals one of them |
| Drill.LastViaKeepsStart | kipadcheck.py:3051-3065 | the last via keeps one metre |
| Drill.FailedVias | kipadcheck.py:3075-3079 | the list holds, in increasing order, exactly the vias whose forward distance is below the limit |
| Drill.TracksNearVia | kipadcheck.py:3090-3133 | the tracks reported against one via are exactly those meeting the rule; the via is selected exactly when one of them has a negative reduced distance |
| Drill.ViasNearTracks | kipadcheck.py:3087-3135 | the reported pairs and the failed tracks are exactly those meeting the rule (not a via, other net, raw distance not 0, \|reduced\| > 1000, reduced below the limit); the selected vias are those with a negative reduced distance in some such pair |
| Drill.FirstStandardDrill | kipadcheck.py:3007-3025 | finds the first table entry at least as large as the hole, or None exactly when no entry is |
| Drill.StandardDrills | kipadcheck.py:2995-3025 | every row is right (a non-zero size, its first fitting drill, and whether it exceeds the limits), and every such size that some entry fits gets a row |
| Silk.CheckTexts | kipadcheck.py:2565-2585 | a text is selected exactly when it is thinner than `smw`, shorter than `tmh`, or has thickness times ratio below its height |
| Silk.CheckGraphics | kipadcheck.py:2586-2596 | a graphic item is selected exactly when it has a width and that width is below `smw` |
| Silk.TextMinimumWtoHAsWritten | kipadcheck.py:2510-2513 | the ratio read from the check box is 0 or 1 |
| Silk.AsWrittenFailsEveryText | kipadcheck.py:2510-2582 | with the check box cleared, every text of positive height is reported as too tall for its width |
| Silk.TextMinimumWtoH | kipadcheck.py:2508-2513 | the intended ratio is the parsed entry, or 1.0 when it does not parse |
| Silk.IntendedAspectRule | kipadcheck.py:2576-2578 | with the intended ratio r > 0, a text passes the aspect test exactly when width / height >= 1 / r |
| Silk.Clearance2 | kipadcheck.py:2638 | `(dist - half)**2.0` is non-negative |
| Silk.LastStroke | kipadcheck.py:2661 | the last stroke starts at an even position and is the last one `range(0, len-1, 2)` visits |
| Silk.StrokeHitTier | kipadcheck.py:2653-2658 | the loop finds a hit exactly when some stroke intersects the pad |
| Silk.StrokeDistanceTier | kipadcheck.py:2660-2666 | the result is within the spacing exactly when some stroke is; otherwise it is the last stroke's term, or one metre squared when there are no strokes |
| Silk.TextPadCheck | kipadcheck.py:2631-2671 | the pair fails exactly when the tiered decision is reached, and its final `mindist2` is within the spacing exactly then |
| Silk.TextFailCountBounds | kipadcheck.py:2619-2671 | the number of texts failing against one pad is at most the number of texts, and positive exactly when one fails |
| Silk.TextsNearPad | kipadcheck.py:2619-2671 | the texts that fail against one pad; the count added to `failed` is exactly the number of failing texts (TextFailCount) |
| Silk.PadFailCountBounds | kipadcheck.py:2684-2721 | the number of pads a graphic item fails against is at most the number of pads, positive exactly when the item fails, and 0 for an item that is not a line |
| Silk.PadsNearGraphic | kipadcheck.py:2684-2721 | the pads a graphic line fails against; the count added to `failed` is exactly the number of those pads (PadFailCount) |
| Silk.PairFailCountBounds | kipadcheck.py:2614-2671 | a side's failing pad and text pairs are at most the pairs checked, and there is one exactly when some pair fails |
| Silk.PadsAgainstTexts | kipadcheck.py:2614-2671 | every pad and text pair is checked; `failed` grows by exactly the number of failing pairs (PairFailCount); a pad or text is selected exactly when it is in a failing pair |
| Silk.GraphicFailCountBounds | kipadcheck.py:2676-2721 | a side's failing graphic item and pad pairs are at most one per item and pad, and there is one exactly when some item fails |
| Silk.GraphicsAgainstPads | kipadcheck.py:2676-2721 | `failed` grows by exactly the number of failing graphic item and pad pairs (GraphicFailCount); a pad or graphic item is selected exactly when it is in a failing pair |
| Silk.SideFailCountBounds | kipadcheck.py:2614-2721 | a side's failure count is positive exactly when the side fails, and at most one per pad and text pair plus one per graphic item and pad pair |
| Silk.CheckSide | kipadcheck.py:2614-2721 | one side's checked count, its exact failure count (SideFailCount), and its selected pads, texts and graphics |
| Silk.SidesFailCountPositive | kipadcheck.py:2600-2723 | the `failed` total over the sides is positive, so the "selected" line is printed, exactly when some side fails |
| Silk.Tagged | kipadcheck.py:2669-2670 | selections are tagged with the position of their side |
| Silk.CheckPadSpacing | kipadcheck.py:2600-2723 | over all sides: the `checked` total, the `failed` total as the sum of every side's failing pairs (SidesFailCount), positive exactly when some side fails, and the selections of every side |
| SilkGeometry.SilkMeasures | kipadcheck.py:2632-2663 | the silk rules measure with the separating-axis test and the roots of the least line and polygon distances |
| Stencil.TlistValues | kipadcheck.py:3189 | the thicknesses are 2 to 7 mil |
| Stencil.Max | kipadcheck.py:3199 | max(a, b) is at least both and equal to one of them |
| Stencil.AreaRatios | kipadcheck.py:3192-3194 | a size has one area ratio per thickness, L W / (2 (L + W) T) |
| Stencil.AspectRatios | kipadcheck.py:3192-3195 | a size has one aspect ratio per thickness, W / T |
| Stencil.RatiosFallWithThickness | kipadcheck.py:3193-3195 | both ratios fall as the stencil gets thicker |
| Stencil.FailurePersists | kipadcheck.py:3205-3208 | a size failing a rule at one thickness fails it at every thicker one |
| Stencil.ExampleAperture | kipadcheck.py:212-213 | 0.225 x 0.725 mm passes both rules at 5 mil (about 0.68 and 1.77) and fails both at 6 mil (about 0.56 and 1.48) |
| Stencil.Widen | kipadcheck.py:3196-3203 | a range starts at [1000000, 0] and takes the min and max with the new ratio; other thicknesses are unchanged |
| Stencil.Record | kipadcheck.py:3194-3195 | appending a ratio to a size's list leaves the other sizes unchanged |
| Stencil.RecordFacts | kipadcheck.py:3194-3195 | recorded ratios stay recorded, and the one new entry is the next ratio of the size |
| Stencil.PastePads | kipadcheck.py:3176-3177 | exactly the pads on the paste layer are listed |
| Stencil.RecordThicknessConsistent | kipadcheck.py:3192-3208 | one thickness pass keeps the ranges and failure lists in agreement with the recorded ratios |
| Stencil.AddSizeRatios | kipadcheck.py:3184-3211 | a new size gets its six ratios of each kind and its aperture entry, and no other size changes |
| Stencil.AddSizeConsistent | kipadcheck.py:3184-3211 | handling a new size keeps ranges and failure lists consistent |
| Stencil.RecordSize | kipadcheck.py:3184-3211 | handling one size records its ratio at every thickness, widens each range, flags each failing thickness and adds its aperture entry |
| Stencil.LastIsNew | kipadcheck.py:3184 | dictionary keys are visited once each |
| Stencil.TablesOfKeys | kipadcheck.py:3184-3211 | the handled sizes, and only those, have ratio lists and aperture entries |
| Stencil.TablesOfRatios | kipadcheck.py:3184-3211 | every handled size has its six ratios of each kind and its aperture entry |
| Stencil.TablesOfConsistent | kipadcheck.py:3184-3208 | in every visiting order the ranges and failure lists agree with the ratios |
| Stencil.RecordSizes | kipadcheck.py:3184-3211 | the tables are those of some order that visits each aperture size once |
| Stencil.StencilInfo | kipadcheck.py:3166-3211 | the tables are those of the paste aperture sizes, visited in some order |
| Stencil.StencilTablesFacts | kipadcheck.py:3166-3211 | one entry per aperture size with its six ratios of each kind, and consistent ranges and failure lists |
| Stencil.TablesVerdicts | kipadcheck.py:3196-3208 | a size is listed as failing at a thickness exactly when its ratio is below 0.66 (area) or 1.5 (aspect), and its ratio lies in that thickness's range |
| Stencil.TablesRangeEnds | kipadcheck.py:3196-3199 | each end of an area range is the initial value or the ratio of a handled size |
| Units.Run | kipadcheck.py:734-736 | a greedy `\d*`, `\s*` or `\S*` match takes characters of its class and stops before the first other one |
| Units.SignLength | kipadcheck.py:730 | `[-+]?` takes one character exactly when the string starts with a sign |
| Units.ScanFraction | kipadcheck.py:731 | `(\.\d*)?` reads the point and its digits or nothing |
| Units.ScanMantissa | kipadcheck.py:731 | `\d+(\.\d*)?\|\.\d+` reads at least one digit around an optional point |
| Units.ScanExponent | kipadcheck.py:732 | `([eE][-+]?\d+)?` reads a marker, a sign and at least one digit, or nothing |
| Units.ScanNumber | kipadcheck.py:728-733 | a number found at the start is well formed and within the string |
| Units.ScanReadsPrefix | kipadcheck.py:728-733 | what the scan reads is the prefix of the string that spells the number |
| Units.ParseMeasurement | kipadcheck.py:746-761 | a value is found exactly when units are, and the units contain no blank |
| Units.ParseFindsNumber | kipadcheck.py:746-761 | parse_measurement finds a value exactly when the string starts with a number |
| Units.ParseRoundTrip | kipadcheck.py:746-761 | parsing a printed number, a blank and a suffix gives back the number's value and the suffix |
| Units.MeasurementScan | kipadcheck.py:746-761 | the round trip for any string spelling the number, a blank and the suffix |
| Units.StripNoSpace | kipadcheck.py:411-417 | a suffix without blanks is its own strip |
| Units.FieldFactor | kipadcheck.py:412-424 | the factor used is 1 or one of the table's factors |
| Units.FieldValue | kipadcheck.py:397-431 | an empty entry or one without a number reads as 0; otherwise the parsed value times 1 or one of the table's factors |
| Units.FieldValueOfNumber | kipadcheck.py:397-431 | an entered number and suffix read as the value times the suffix's factor, or the label's factor when there is no suffix |
| Units.FieldValueOfMeasurement | kipadcheck.py:397-431 | any entry that parses reads as its value times the factor of its units |
| Units.FieldValueWithoutNumber | kipadcheck.py:397-431 | an empty entry, or one not starting with a number, reads as 0 |
| Units.ConvertToIu | kipadcheck.py:818-829 | there is no value exactly when there is no number; a TypeError is raised exactly when neither the units nor the default units have a non-zero factor; otherwise the result is the value times the factor of the units found, or of the default units when those are not in the table |
| Units.ConvertRoundTrip | kipadcheck.py:818-829 | a printed number, a blank and a suffix with a non-zero factor convert to the number's value times that factor, whatever the default units |
| Units.ConvertFailsOnUnknownUnits | kipadcheck.py:818-829 | with non-zero factors, a TypeError is raised exactly when neither the units found nor the default units are in the table |
| Conversion.RootInverse | kipadcheck.py:811-816 | a squared suffix is its root followed by "2", "^2" or "**2" |
| Conversion.RootOfSquared | kipadcheck.py:811-816 | the three squared spellings of a plain suffix lead back to it and are not plain |
| Conversion.Keys | kipadcheck.py:812 | the keys listed are exactly the table's keys |
| Conversion.AddSquares | kipadcheck.py:811-816 | the loop yields exactly the base suffixes with their factors and the squared spellings with the squared factors |
| Conversion.SquaredEntries | kipadcheck.py:811-816 | every base suffix keeps its factor and its three squared spellings have the factor squared |
| Conversion.SquaresPositive | kipadcheck.py:811-816 | squaring keeps every factor positive |
| UnitTable.BaseConversionPlain | kipadcheck.py:764-810 | no suffix of the literal ends in '2', '^' or '*', and every factor is positive |
| UnitTable.BuildConversion | kipadcheck.py:764-816 | the built table extends the literal with the squared suffixes, and every factor is positive |
| UnitTable.TableConvertFailsOnUnknownUnits | kipadcheck.py:818-829 | with the built table, convert_to_iu raises a TypeError exactly when neither the units nor the default units are in it |

## Left out

- kipadcheck_gui.py is not part of this model. It is generated wx user interface code. The same holds for the wx dialogs, menus and `FindWindowBy*` lookups in kipadcheck.py.
- Threads, queues, progress updates and report text (console lines, drill table contents, the powder size table, the PadInfo report) are not modelled, because they do not affect any verdict.
- Board access (`GetPads`, `get_vias`, `get_text_objects`, `get_all_drawings_and_graphic_items`, `GetPadLayerNameNum`) and drawing (`draw_*`, `remove_drawings`) are replaced by input sequences. Selection and highlighting are replaced by returned index sets.
- `get_corners_rotated_pad`, `get_corners_rotated_text` and `TransformTextShapeToSegmentList` are not modelled. They read pcbnew objects. Pad and text outlines and text strokes are inputs to the silk rules.
- Sorting report lines by area is not modelled, because it only orders the output.
- Square root, cosine and sine are parameters. Floating-point rounding is not modelled: ratios and decimals are exact reals, and `float()` of a number token is its exact decimal value.
- Deprecated or broken code is not modelled, because it is never called or cannot run:
  - `StencilInfo_old`, `GetAllHolesByLayer` and `GetAllDrawingsAndGraphicItemsByLayer`;
  - `BoundingBoxIntersect`, which calls an undefined function;
  - `GetViaLayerNameNum`;
  - `normal`, `projection_axis` and `convex_hull`;
  - `test`, which uses random points; only its fixed square example is modelled.
- Geometry.Scale: the factor is the exact fraction k / den, not a float.
- Geometry.ProjectionLine: the projected point is kept exact, with rational coordinates. The source builds it as a wxPoint and so truncates both coordinates to integers. For v = (0, 0), w = (3, 3) and p = (1, 0) the source's point is (0, 0) at squared distance 1, where the model's is (1/2, 1/2) at squared distance 1/2.
- Geometry.MinDistance2: measured from that exact projected point, not from the truncated one, so it can be smaller or larger than the source's value.
- Geometry.MinDistance2AtLeastExact: holds for the exact projection only. With the source's truncation, v = (0, 0), w = (3, 1) and u = (2, -1) give t = 1/2, a scaled vector (1.5, 0.5) truncated to (1, 0), and a measured 2, below the exact 5/2.
- Geometry.MinDistance2ExactWhenAhead: holds for the exact projection only. In the same example the dot product is 5 >= 0, yet the source measures 2, not the exact 5/2.
- Geometry.MinDistance2OverestimatesBehindStart: holds for the exact projection only. With v = (0, 0) and w = (3, 1), the source measures exactly the exact 5 at u = (-1, 2), and 64, below the exact 65, at u = (1, -8).
- Shapes.GetRotatedVector: the rotated coordinates are truncated from exact reals, and cos and sin are whatever the parameters return.
- Shapes.GetCornersRotatedRect: the same as Shapes.GetRotatedVector.
- Distances.MinDistance2LinePolygon requires a non-empty polygon. The source raises IndexError on an empty one, and that exception is not modelled.
- Distances.MinDistance2PolygonPolygon requires at least one vertex in the first polygon and two in the second, for the same reason.
- SilkGeometry.SilkMeasures gives 0 for polygons too short to measure, where the source raises IndexError.
- Silk.StrokeDistanceTier requires the spacing squared to be below one metre squared. The source only enters the loop in that case.
- Stencil.StencilInfo requires every paste aperture to have sides that do not sum to 0. The source raises ZeroDivisionError on such a size.
- Stencil.RecordSizes and Stencil.StencilInfo leave the order of the sizes open, like the iteration order of a Python dictionary.
- Drill.HoleSeparation takes the layers in the order given, which stands for the dictionary order of `get_holes_by_layer`.
- Drill.ViasNearTracks does not build the messages of `FailedViaTracks`. It keeps only the (via, track) pairs.
- Units.ConvertToIu takes `default_units` as a suffix only. A numeric multiplier as default is not modelled.
- Units.FieldValueOfNumber models `get_value_float` given the entered text and the units label. Setting the units label is not modelled.
