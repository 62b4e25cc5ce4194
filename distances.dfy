/** The minimum squared distances between a line and a polygon and between
    two polygons (KiPadCheck.mindistance2_line_polygon and
    KiPadCheck.mindistance2_polygon_polygon), and their roots.

    Each is the least of a family of point-to-segment terms. The methods
    keep the source's running minimum and its order of visiting, and are
    proved to return the least term. The predicates that describe the
    family take the point-to-segment distance as a parameter `dist`; the
    methods use wxPointUtil.mindistance2 (Geometry.MinDistance2). */
module Distances {

  import opened Geometry
  import opened Polygons

  /** Python's min(a, b) on two reals. */
  function Min(a: real, b: real): (r: real)
    ensures r <= a && r <= b
    ensures r == a || r == b
  {
    if b < a then b else a
  }

  ghost predicate NonNegativeDistance(dist: (Point, Point, Point) -> real) {
    forall u, v, w :: dist(u, v, w) >= 0.0
  }

  lemma MinDistance2NonNegative()
    ensures NonNegativeDistance(MinDistance2)
  {
  }

  // ------------------------------------------------------------------
  // Line to polygon
  // ------------------------------------------------------------------

  /** d is no larger than any term the source compares: every vertex to the
      line, and each end of the line to every edge i -> i + 1. */
  predicate LinePolygonBound(dist: (Point, Point, Point) -> real, line: Segment, poly: seq<Point>, d: real) {
    (forall i :: 0 <= i < |poly| ==> d <= dist(poly[i], line.start, line.end)) &&
    (forall i :: 0 <= i < |poly| - 1 ==>
       d <= dist(line.start, poly[i], poly[i + 1]) && d <= dist(line.end, poly[i], poly[i + 1]))
  }

  /** d is one of those terms. */
  predicate LinePolygonTerm(dist: (Point, Point, Point) -> real, line: Segment, poly: seq<Point>, d: real) {
    (exists i :: 0 <= i < |poly| && d == dist(poly[i], line.start, line.end)) ||
    (exists i :: 0 <= i < |poly| - 1 &&
       (d == dist(line.start, poly[i], poly[i + 1]) || d == dist(line.end, poly[i], poly[i + 1])))
  }

  /** d is the least of the terms. */
  predicate IsLinePolygonMin(dist: (Point, Point, Point) -> real, line: Segment, poly: seq<Point>, d: real) {
    LinePolygonBound(dist, line, poly, d) && LinePolygonTerm(dist, line, poly, d)
  }

  /** The running minimum after the loop has visited edges 0 .. n - 1: no
      larger than the distance from the last vertex to the line nor any
      term of those edges. */
  predicate LineBoundUpTo(dist: (Point, Point, Point) -> real, line: Segment, poly: seq<Point>, n: int, d: real)
    requires 0 <= n <= |poly| - 1
  {
    d <= dist(poly[|poly| - 1], line.start, line.end) &&
    forall k :: 0 <= k < n ==>
      d <= dist(line.start, poly[k], poly[k + 1]) &&
      d <= dist(line.end, poly[k], poly[k + 1]) &&
      d <= dist(poly[k], line.start, line.end)
  }

  /** One iteration of the source's loop: the minimum with the distances of
      both line ends to edge i and of vertex i to the line. */
  function LineStep(dist: (Point, Point, Point) -> real, line: Segment, poly: seq<Point>, i: int,
                    min2: real): (r: real)
    requires 0 <= i < |poly| - 1
    ensures r <= min2
    ensures r <= dist(line.start, poly[i], poly[i + 1])
    ensures r <= dist(line.end, poly[i], poly[i + 1])
    ensures r <= dist(poly[i], line.start, line.end)
    ensures r == min2 || r == dist(line.start, poly[i], poly[i + 1])
         || r == dist(line.end, poly[i], poly[i + 1]) || r == dist(poly[i], line.start, line.end)
  {
    var m1 := Min(min2, dist(line.start, poly[i], poly[i + 1]));
    var m2 := Min(m1, dist(line.end, poly[i], poly[i + 1]));
    Min(m2, dist(poly[i], line.start, line.end))
  }

  lemma LineStepKeepsBound(dist: (Point, Point, Point) -> real, line: Segment, poly: seq<Point>,
                           i: int, d: real)
    requires 0 <= i < |poly| - 1
    requires LineBoundUpTo(dist, line, poly, i, d)
    ensures LineBoundUpTo(dist, line, poly, i + 1, LineStep(dist, line, poly, i, d))
  {
    var r := LineStep(dist, line, poly, i, d);
    forall k | 0 <= k < i + 1
      ensures r <= dist(line.start, poly[k], poly[k + 1])
      ensures r <= dist(line.end, poly[k], poly[k + 1])
      ensures r <= dist(poly[k], line.start, line.end)
    {
    }
  }

  lemma LineStepKeepsTerm(dist: (Point, Point, Point) -> real, line: Segment, poly: seq<Point>,
                          i: int, d: real)
    requires 0 <= i < |poly| - 1
    requires LinePolygonTerm(dist, line, poly, d)
    ensures LinePolygonTerm(dist, line, poly, LineStep(dist, line, poly, i, d))
  {
  }

  /** After the last edge the bound covers every term. */
  lemma LineBoundComplete(dist: (Point, Point, Point) -> real, line: Segment, poly: seq<Point>, d: real)
    requires |poly| >= 1
    requires LineBoundUpTo(dist, line, poly, |poly| - 1, d)
    ensures LinePolygonBound(dist, line, poly, d)
  {
  }

  lemma LineTermNonNegative(dist: (Point, Point, Point) -> real, line: Segment, poly: seq<Point>, d: real)
    requires NonNegativeDistance(dist)
    requires LinePolygonTerm(dist, line, poly, d)
    ensures d >= 0.0
  {
  }

  /** The running minimum of the line-to-polygon loop after edges
      0 .. n - 1, as a function of its inputs. */
  function LineFold(dist: (Point, Point, Point) -> real, line: Segment, poly: seq<Point>, n: int): real
    requires 0 <= n <= |poly| - 1
    decreases n
  {
    if n == 0 then dist(poly[|poly| - 1], line.start, line.end)
    else LineStep(dist, line, poly, n - 1, LineFold(dist, line, poly, n - 1))
  }

  lemma {:induction false} LineFoldBound(dist: (Point, Point, Point) -> real, line: Segment,
                                         poly: seq<Point>, n: int)
    requires 0 <= n <= |poly| - 1
    ensures LineBoundUpTo(dist, line, poly, n, LineFold(dist, line, poly, n))
  {
    if n > 0 {
      var d := LineFold(dist, line, poly, n - 1);
      LineFoldBound(dist, line, poly, n - 1);
      LineStepKeepsBound(dist, line, poly, n - 1, d);
    }
  }

  lemma {:induction false} LineFoldTerm(dist: (Point, Point, Point) -> real, line: Segment,
                                        poly: seq<Point>, n: int)
    requires 0 <= n <= |poly| - 1
    ensures LinePolygonTerm(dist, line, poly, LineFold(dist, line, poly, n))
  {
    if n == 0 {
      assert LineFold(dist, line, poly, 0) == dist(poly[|poly| - 1], line.start, line.end);
    } else {
      var d := LineFold(dist, line, poly, n - 1);
      LineFoldTerm(dist, line, poly, n - 1);
      LineStepKeepsTerm(dist, line, poly, n - 1, d);
    }
  }

  /** The least squared distance from a line to a polygon: the value every
      call of mindistance2_line_polygon returns. */
  function LinePolygonMin2(line: Segment, poly: seq<Point>): (d: real)
    requires |poly| >= 1
    ensures IsLinePolygonMin(MinDistance2, line, poly, d)
    ensures d >= 0.0
  {
    LineFoldBound(MinDistance2, line, poly, |poly| - 1);
    LineFoldTerm(MinDistance2, line, poly, |poly| - 1);
    LineBoundComplete(MinDistance2, line, poly, LineFold(MinDistance2, line, poly, |poly| - 1));
    MinDistance2NonNegative();
    LineTermNonNegative(MinDistance2, line, poly, LineFold(MinDistance2, line, poly, |poly| - 1));
    LineFold(MinDistance2, line, poly, |poly| - 1)
  }

  /** KiPadCheck.mindistance2_line_polygon. The running minimum starts at
      the distance from the last vertex to the line, so the polygon must
      not be empty (the source raises IndexError on an empty one). */
  method MinDistance2LinePolygon(line: Segment, polygon: seq<Point>) returns (min2: real)
    requires |polygon| >= 1
    ensures IsLinePolygonMin(MinDistance2, line, polygon, min2)
    ensures min2 == LinePolygonMin2(line, polygon)
  {
    min2 := MinDistance2(polygon[|polygon| - 1], line.start, line.end);
    var i := 0;
    while i < |polygon| - 1
      invariant 0 <= i <= |polygon| - 1
      invariant LineBoundUpTo(MinDistance2, line, polygon, i, min2)
      invariant LinePolygonTerm(MinDistance2, line, polygon, min2)
    {
      ghost var before := min2;
      min2 := Min(min2, MinDistance2(line.start, polygon[i], polygon[i + 1]));
      min2 := Min(min2, MinDistance2(line.end, polygon[i], polygon[i + 1]));
      min2 := Min(min2, MinDistance2(polygon[i], line.start, line.end));
      assert min2 == LineStep(MinDistance2, line, polygon, i, before);
      LineStepKeepsBound(MinDistance2, line, polygon, i, before);
      LineStepKeepsTerm(MinDistance2, line, polygon, i, before);
      i := i + 1;
    }
    LineBoundComplete(MinDistance2, line, polygon, min2);
    LinePolygonMinUnique(MinDistance2, line, polygon, min2, LinePolygonMin2(line, polygon));
  }

  /** KiPadCheck.mindistance_line_polygon: the root of the least squared
      distance. */
  method MinDistanceLinePolygon(sqrt: real -> real, line: Segment, polygon: seq<Point>)
    returns (r: real)
    requires NonNegativeRoot(sqrt)
    requires |polygon| >= 1
    ensures r >= 0.0
    ensures r == sqrt(LinePolygonMin2(line, polygon))
  {
    var min2 := MinDistance2LinePolygon(line, polygon);
    r := sqrt(min2);
  }

  /** The least term is unique, so every call on the same line and polygon
      returns the same value. */
  lemma LinePolygonMinUnique(dist: (Point, Point, Point) -> real, line: Segment, poly: seq<Point>,
                             d1: real, d2: real)
    requires IsLinePolygonMin(dist, line, poly, d1) && IsLinePolygonMin(dist, line, poly, d2)
    ensures d1 == d2
  {
  }

  // ------------------------------------------------------------------
  // Polygon to polygon
  // ------------------------------------------------------------------

  /** The distance from vertex i of `p` to the edge of `q` that starts at
      vertex j and wraps around to vertex 0. */
  function VertexToEdge(dist: (Point, Point, Point) -> real, p: seq<Point>, q: seq<Point>,
                        i: int, j: int): real
    requires 0 <= i < |p| && 0 <= j < |q|
  {
    dist(p[i], q[j], q[Next(j, |q|)])
  }

  /** d is no larger than the distance from any vertex of either polygon to
      any edge of the other. */
  predicate PolygonPolygonBound(dist: (Point, Point, Point) -> real, p: seq<Point>, q: seq<Point>, d: real) {
    forall i, j :: 0 <= i < |p| && 0 <= j < |q| ==>
      d <= VertexToEdge(dist, p, q, i, j) && d <= VertexToEdge(dist, q, p, j, i)
  }

  /** d is one of those distances. */
  predicate PolygonPolygonTerm(dist: (Point, Point, Point) -> real, p: seq<Point>, q: seq<Point>, d: real) {
    (exists i, j :: 0 <= i < |p| && 0 <= j < |q| && d == VertexToEdge(dist, p, q, i, j)) ||
    (exists i, j :: 0 <= i < |p| && 0 <= j < |q| && d == VertexToEdge(dist, q, p, j, i))
  }

  /** d is the least of them. */
  predicate IsPolygonPolygonMin(dist: (Point, Point, Point) -> real, p: seq<Point>, q: seq<Point>, d: real) {
    PolygonPolygonBound(dist, p, q, d) && PolygonPolygonTerm(dist, p, q, d)
  }

  /** The four terms of the pair (edge i of p, edge j of q). */
  predicate PairBound(dist: (Point, Point, Point) -> real, p: seq<Point>, q: seq<Point>,
                      i: int, j: int, d: real)
    requires 0 <= i < |p| && 0 <= j < |q|
  {
    d <= VertexToEdge(dist, p, q, i, j) && d <= VertexToEdge(dist, p, q, Next(i, |p|), j) &&
    d <= VertexToEdge(dist, q, p, j, i) && d <= VertexToEdge(dist, q, p, Next(j, |q|), i)
  }

  /** The running minimum after the pairs (i', j') with i' < i, and (i, j')
      with j' < j. */
  predicate GridBoundUpTo(dist: (Point, Point, Point) -> real, p: seq<Point>, q: seq<Point>,
                          i: int, j: int, d: real)
    requires 0 <= i <= |p| && 0 <= j <= |q|
  {
    (forall i', j' :: 0 <= i' < i && 0 <= j' < |q| ==> PairBound(dist, p, q, i', j', d)) &&
    (forall j' :: 0 <= j' < j && i < |p| ==> PairBound(dist, p, q, i, j', d))
  }

  /** One iteration of the source's inner loop: the minimum with the four
      distances of the pair (edge i of p, edge j of q), in the order the
      source takes them. */
  function PairStep(dist: (Point, Point, Point) -> real, p: seq<Point>, q: seq<Point>,
                    i: int, j: int, min2: real): (r: real)
    requires 0 <= i < |p| && 0 <= j < |q|
    ensures r <= min2
    ensures PairBound(dist, p, q, i, j, r)
    ensures r == min2 || r == VertexToEdge(dist, p, q, i, j) || r == VertexToEdge(dist, p, q, Next(i, |p|), j)
         || r == VertexToEdge(dist, q, p, j, i) || r == VertexToEdge(dist, q, p, Next(j, |q|), i)
  {
    var p1a, p1b := p[i], p[Next(i, |p|)];
    var p2a, p2b := q[j], q[Next(j, |q|)];
    var m1 := Min(min2, dist(p1a, p2a, p2b));
    var m2 := Min(m1, dist(p1b, p2a, p2b));
    var m3 := Min(m2, dist(p2a, p1a, p1b));
    Min(m3, dist(p2b, p1a, p1b))
  }

  lemma PairStepKeepsBound(dist: (Point, Point, Point) -> real, p: seq<Point>, q: seq<Point>,
                           i: int, j: int, d: real)
    requires 0 <= i < |p| && 0 <= j < |q|
    requires GridBoundUpTo(dist, p, q, i, j, d)
    ensures GridBoundUpTo(dist, p, q, i, j + 1, PairStep(dist, p, q, i, j, d))
  {
    var r := PairStep(dist, p, q, i, j, d);
    forall i', j' | 0 <= i' < i && 0 <= j' < |q|
      ensures PairBound(dist, p, q, i', j', r)
    {
      assert PairBound(dist, p, q, i', j', d);
    }
    forall j' | 0 <= j' < j + 1
      ensures PairBound(dist, p, q, i, j', r)
    {
      if j' < j {
        assert PairBound(dist, p, q, i, j', d);
      }
    }
  }

  lemma PairStepKeepsTerm(dist: (Point, Point, Point) -> real, p: seq<Point>, q: seq<Point>,
                          i: int, j: int, d: real)
    requires 0 <= i < |p| && 0 <= j < |q|
    requires PolygonPolygonTerm(dist, p, q, d)
    ensures PolygonPolygonTerm(dist, p, q, PairStep(dist, p, q, i, j, d))
  {
    var r := PairStep(dist, p, q, i, j, d);
    var i1, j1 := Next(i, |p|), Next(j, |q|);
    if r == VertexToEdge(dist, p, q, i1, j) {
      assert 0 <= i1 < |p|;
    } else if r == VertexToEdge(dist, q, p, j1, i) {
      assert 0 <= j1 < |q|;
    }
  }

  /** After the last pair the bound covers every vertex-to-edge distance. */
  lemma GridBoundComplete(dist: (Point, Point, Point) -> real, p: seq<Point>, q: seq<Point>, d: real)
    requires GridBoundUpTo(dist, p, q, |p|, 0, d)
    ensures PolygonPolygonBound(dist, p, q, d)
  {
    forall i, j | 0 <= i < |p| && 0 <= j < |q|
      ensures d <= VertexToEdge(dist, p, q, i, j) && d <= VertexToEdge(dist, q, p, j, i)
    {
      assert PairBound(dist, p, q, i, j, d);
    }
  }

  /** A finished row i is a finished grid up to row i + 1. */
  lemma NextRow(dist: (Point, Point, Point) -> real, p: seq<Point>, q: seq<Point>, i: int, d: real)
    requires 0 <= i < |p|
    requires GridBoundUpTo(dist, p, q, i, |q|, d)
    ensures GridBoundUpTo(dist, p, q, i + 1, 0, d)
  {
    forall i', j' | 0 <= i' < i + 1 && 0 <= j' < |q|
      ensures PairBound(dist, p, q, i', j', d)
    {
    }
  }

  lemma PolygonTermNonNegative(dist: (Point, Point, Point) -> real, p: seq<Point>, q: seq<Point>, d: real)
    requires NonNegativeDistance(dist)
    requires PolygonPolygonTerm(dist, p, q, d)
    ensures d >= 0.0
  {
  }

  /** The running minimum after row i of the polygon-to-polygon loop has
      visited edges 0 .. j - 1 of q, starting the row at d0. */
  function RowFold(dist: (Point, Point, Point) -> real, p: seq<Point>, q: seq<Point>,
                   i: int, j: int, d0: real): real
    requires 0 <= i < |p| && 0 <= j <= |q|
    decreases j
  {
    if j == 0 then d0 else PairStep(dist, p, q, i, j - 1, RowFold(dist, p, q, i, j - 1, d0))
  }

  /** The running minimum after rows 0 .. i - 1. */
  function GridFold(dist: (Point, Point, Point) -> real, p: seq<Point>, q: seq<Point>, i: int): real
    requires |p| >= 1 && |q| >= 2 && 0 <= i <= |p|
    decreases i
  {
    if i == 0 then dist(p[0], q[0], q[1])
    else RowFold(dist, p, q, i - 1, |q|, GridFold(dist, p, q, i - 1))
  }

  lemma {:induction false} RowFoldInvariant(dist: (Point, Point, Point) -> real, p: seq<Point>,
                                            q: seq<Point>, i: int, j: int, d0: real)
    requires 0 <= i < |p| && 0 <= j <= |q|
    requires GridBoundUpTo(dist, p, q, i, 0, d0) && PolygonPolygonTerm(dist, p, q, d0)
    ensures GridBoundUpTo(dist, p, q, i, j, RowFold(dist, p, q, i, j, d0))
    ensures PolygonPolygonTerm(dist, p, q, RowFold(dist, p, q, i, j, d0))
  {
    if j > 0 {
      RowFoldInvariant(dist, p, q, i, j - 1, d0);
      PairStepKeepsBound(dist, p, q, i, j - 1, RowFold(dist, p, q, i, j - 1, d0));
      PairStepKeepsTerm(dist, p, q, i, j - 1, RowFold(dist, p, q, i, j - 1, d0));
    }
  }

  lemma {:induction false} GridFoldInvariant(dist: (Point, Point, Point) -> real, p: seq<Point>,
                                             q: seq<Point>, i: int)
    requires |p| >= 1 && |q| >= 2 && 0 <= i <= |p|
    ensures GridBoundUpTo(dist, p, q, i, 0, GridFold(dist, p, q, i))
    ensures PolygonPolygonTerm(dist, p, q, GridFold(dist, p, q, i))
  {
    if i == 0 {
      assert GridFold(dist, p, q, 0) == VertexToEdge(dist, p, q, 0, 0);
    } else {
      GridFoldInvariant(dist, p, q, i - 1);
      RowFoldInvariant(dist, p, q, i - 1, |q|, GridFold(dist, p, q, i - 1));
      NextRow(dist, p, q, i - 1, GridFold(dist, p, q, i));
    }
  }

  /** The least squared distance between two polygons: the value every call
      of mindistance2_polygon_polygon returns. */
  function PolygonPolygonMin2(p: seq<Point>, q: seq<Point>): (d: real)
    requires |p| >= 1 && |q| >= 2
    ensures IsPolygonPolygonMin(MinDistance2, p, q, d)
    ensures d >= 0.0
  {
    GridFoldInvariant(MinDistance2, p, q, |p|);
    GridBoundComplete(MinDistance2, p, q, GridFold(MinDistance2, p, q, |p|));
    MinDistance2NonNegative();
    PolygonTermNonNegative(MinDistance2, p, q, GridFold(MinDistance2, p, q, |p|));
    GridFold(MinDistance2, p, q, |p|)
  }

  /** KiPadCheck.mindistance2_polygon_polygon. The running minimum starts
      at the distance from p[0] to the segment q[0] q[1], so p must not be
      empty and q needs two vertices (the source raises IndexError
      otherwise). Both polygons are walked with the wrap-around edge. */
  method MinDistance2PolygonPolygon(polygon1: seq<Point>, polygon2: seq<Point>) returns (min2: real)
    requires |polygon1| >= 1 && |polygon2| >= 2
    ensures IsPolygonPolygonMin(MinDistance2, polygon1, polygon2, min2)
    ensures min2 == PolygonPolygonMin2(polygon1, polygon2)
  {
    min2 := MinDistance2(polygon1[0], polygon2[0], polygon2[1]);
    assert min2 == VertexToEdge(MinDistance2, polygon1, polygon2, 0, 0);
    var i := 0;
    while i < |polygon1|
      invariant 0 <= i <= |polygon1|
      invariant GridBoundUpTo(MinDistance2, polygon1, polygon2, i, 0, min2)
      invariant PolygonPolygonTerm(MinDistance2, polygon1, polygon2, min2)
    {
      var p1a := polygon1[i];
      var p1b := polygon1[(i + 1) % |polygon1|];
      NextIsModulo(i, |polygon1|);
      var j := 0;
      while j < |polygon2|
        invariant 0 <= j <= |polygon2|
        invariant GridBoundUpTo(MinDistance2, polygon1, polygon2, i, j, min2)
        invariant PolygonPolygonTerm(MinDistance2, polygon1, polygon2, min2)
      {
        var p2a := polygon2[j];
        var p2b := polygon2[(j + 1) % |polygon2|];
        NextIsModulo(j, |polygon2|);
        ghost var before := min2;
        min2 := Min(min2, MinDistance2(p1a, p2a, p2b));
        min2 := Min(min2, MinDistance2(p1b, p2a, p2b));
        min2 := Min(min2, MinDistance2(p2a, p1a, p1b));
        min2 := Min(min2, MinDistance2(p2b, p1a, p1b));
        assert min2 == PairStep(MinDistance2, polygon1, polygon2, i, j, before);
        PairStepKeepsBound(MinDistance2, polygon1, polygon2, i, j, before);
        PairStepKeepsTerm(MinDistance2, polygon1, polygon2, i, j, before);
        j := j + 1;
      }
      NextRow(MinDistance2, polygon1, polygon2, i, min2);
      i := i + 1;
    }
    GridBoundComplete(MinDistance2, polygon1, polygon2, min2);
    PolygonPolygonMinUnique(MinDistance2, polygon1, polygon2, min2, PolygonPolygonMin2(polygon1, polygon2));
  }

  /** KiPadCheck.mindistance_polygon_polygon: the root of the least squared
      distance. */
  method MinDistancePolygonPolygon(sqrt: real -> real, polygon1: seq<Point>, polygon2: seq<Point>)
    returns (r: real)
    requires NonNegativeRoot(sqrt)
    requires |polygon1| >= 1 && |polygon2| >= 2
    ensures r >= 0.0
    ensures r == sqrt(PolygonPolygonMin2(polygon1, polygon2))
  {
    var min2 := MinDistance2PolygonPolygon(polygon1, polygon2);
    r := sqrt(min2);
  }

  /** The least term is unique. */
  lemma PolygonPolygonMinUnique(dist: (Point, Point, Point) -> real, p: seq<Point>, q: seq<Point>,
                                d1: real, d2: real)
    requires IsPolygonPolygonMin(dist, p, q, d1) && IsPolygonPolygonMin(dist, p, q, d2)
    ensures d1 == d2
  {
  }

  /** The family of terms is the same with the polygons swapped, so the
      distance from P to Q is the distance from Q to P. */
  lemma PolygonPolygonMinSymmetric(dist: (Point, Point, Point) -> real, p: seq<Point>, q: seq<Point>,
                                   d1: real, d2: real)
    requires IsPolygonPolygonMin(dist, p, q, d1) && IsPolygonPolygonMin(dist, q, p, d2)
    ensures d1 == d2
  {
  }

  /** mindistance2_polygon_polygon(P, Q) == mindistance2_polygon_polygon(Q, P). */
  lemma PolygonPolygonMin2Symmetric(p: seq<Point>, q: seq<Point>)
    requires |p| >= 2 && |q| >= 2
    ensures PolygonPolygonMin2(p, q) == PolygonPolygonMin2(q, p)
  {
    PolygonPolygonMinSymmetric(MinDistance2, p, q, PolygonPolygonMin2(p, q), PolygonPolygonMin2(q, p));
  }
}
