/** The separating-axis intersection test of KiPadCheck
    (wxPointUtil.check_polygons_intersecting), and an exact reference test
    beside it that shows where the source's running extrema depart from it.

    A polygon is a sequence of vertices. With `closed` the last vertex
    repeats the first, so the edges are i -> i + 1 for i < len - 1; without
    it every vertex starts an edge and the last edge wraps around to
    vertex 0. */
module Polygons {

  import opened Wrappers
  import opened Arithmetic
  import opened Geometry

  // ------------------------------------------------------------------
  // Separating-axis test
  // ------------------------------------------------------------------

  /** The number of edges the test visits: `len(polygon) - 1*closed`. */
  function EdgeCount(poly: seq<Point>, closed: bool): int {
    |poly| - (if closed then 1 else 0)
  }

  /** The vertex after i, wrapping from the last vertex to the first:
      `(i + 1) % len` (see NextIsModulo). */
  function Next(i: int, len: int): int
    requires 0 <= i < len
  {
    if i + 1 < len then i + 1 else 0
  }

  lemma NextIsModulo(i: int, len: int)
    requires 0 <= i < len
    ensures Next(i, len) == (i + 1) % len
  {
  }

  /** The normal (p2.y - p1.y, p1.x - p2.x) of the edge from vertex i to
      the next vertex. */
  function EdgeNormal(poly: seq<Point>, i: int): Point
    requires 0 <= i < |poly|
  {
    var p1 := poly[i];
    var p2 := poly[Next(i, |poly|)];
    Point(p2.y - p1.y, p1.x - p2.x)
  }

  /** Python 2 `<` between running extrema that may still be None: None
      is smaller than every number and not smaller than None. */
  predicate Py2Less(a: Option<int>, b: Option<int>) {
    match (a, b)
    case (None, None) => false
    case (None, Some(_)) => true
    case (Some(_), None) => false
    case (Some(x), Some(y)) => x < y
  }

  /** `not m` for a running extremum: true for None and also for 0. */
  predicate Unset(m: Option<int>) {
    m == None || m == Some(0)
  }

  /** `if not minA or projected < minA: minA = projected` */
  function UpdateMin(m: Option<int>, projected: int): (r: Option<int>)
    ensures r.Some?
    ensures r == m || r == Some(projected)
    ensures !Unset(m) ==> r.value == if projected < m.value then projected else m.value
  {
    if Unset(m) || projected < m.value then Some(projected) else m
  }

  /** `if not maxA or projected > maxA: maxA = projected` */
  function UpdateMax(m: Option<int>, projected: int): (r: Option<int>)
    ensures r.Some?
    ensures r == m || r == Some(projected)
    ensures !Unset(m) ==> r.value == if projected > m.value then projected else m.value
  {
    if Unset(m) || projected > m.value then Some(projected) else m
  }

  /** The projections `normal.x * p.x + normal.y * p.y` of the vertices. */
  function Projections(n: Point, poly: seq<Point>): (ps: seq<int>)
    ensures |ps| == |poly|
    ensures forall i :: 0 <= i < |poly| ==> ps[i] == Dot(n, poly[i])
  {
    seq(|poly|, i requires 0 <= i < |poly| => Dot(n, poly[i]))
  }

  /** The running minimum of a sequence of projections, as the source
      accumulates it from None in order. */
  function RunMin(ps: seq<int>): Option<int>
  {
    if |ps| == 0 then None else UpdateMin(RunMin(ps[..|ps| - 1]), ps[|ps| - 1])
  }

  /** The running maximum, accumulated in the same way. */
  function RunMax(ps: seq<int>): Option<int>
  {
    if |ps| == 0 then None else UpdateMax(RunMax(ps[..|ps| - 1]), ps[|ps| - 1])
  }

  /** Axis n separates the polygons: `maxA < minB or maxB < minA`. */
  predicate Separates(n: Point, a: seq<Point>, b: seq<Point>) {
    var pa, pb := Projections(n, a), Projections(n, b);
    Py2Less(RunMax(pa), RunMin(pb)) || Py2Less(RunMax(pb), RunMin(pa))
  }

  /** None of the edges of `poly` that the test visits separates a and b. */
  predicate NoSeparatingEdge(poly: seq<Point>, a: seq<Point>, b: seq<Point>, closed: bool) {
    forall i :: 0 <= i < EdgeCount(poly, closed) ==> !Separates(EdgeNormal(poly, i), a, b)
  }

  /** What check_polygons_intersecting returns: no visited edge of either
      polygon gives a separating axis. */
  predicate PolygonsIntersect(a: seq<Point>, b: seq<Point>, closed: bool) {
    NoSeparatingEdge(a, a, b, closed) && NoSeparatingEdge(b, a, b, closed)
  }

  /** wxPointUtil.check_polygons_intersecting: both polygons' edges in
      turn, the four running extrema per edge, and an early False at the
      first separating axis. */
  method CheckPolygonsIntersecting(polyA: seq<Point>, polyB: seq<Point>, closed: bool) returns (r: bool)
    ensures r == PolygonsIntersect(polyA, polyB, closed)
  {
    var polygons := [polyA, polyB];
    var pi := 0;
    while pi < 2
      invariant 0 <= pi <= 2
      invariant forall q :: 0 <= q < pi ==> NoSeparatingEdge(polygons[q], polyA, polyB, closed)
    {
      var polygon := polygons[pi];
      var separated := FindSeparatingEdge(polygon, polyA, polyB, closed);
      if separated {
        assert polygon == polyA || polygon == polyB;
        return false;
      }
      pi := pi + 1;
    }
    assert polygons[0] == polyA && polygons[1] == polyB;
    return true;
  }

  /** The inner loop of check_polygons_intersecting over the edges of one
      polygon: true as soon as an edge's normal separates the two
      polygons. */
  method FindSeparatingEdge(polygon: seq<Point>, polyA: seq<Point>, polyB: seq<Point>, closed: bool)
    returns (separated: bool)
    ensures separated <==> !NoSeparatingEdge(polygon, polyA, polyB, closed)
  {
    var i1 := 0;
    while i1 < |polygon| - (if closed then 1 else 0)
      invariant 0 <= i1
      invariant forall i :: 0 <= i < i1 && i < EdgeCount(polygon, closed) ==>
                  !Separates(EdgeNormal(polygon, i), polyA, polyB)
    {
      var i2 := (i1 + 1) % |polygon|;
      NextIsModulo(i1, |polygon|);
      var p1 := polygon[i1];
      var p2 := polygon[i2];
      var normal := Point(p2.y - p1.y, p1.x - p2.x);
      assert normal == EdgeNormal(polygon, i1);
      var minA, maxA := ProjectionRange(normal, polyA);
      var minB, maxB := ProjectionRange(normal, polyB);
      if Py2Less(maxA, minB) || Py2Less(maxB, minA) {
        assert Separates(EdgeNormal(polygon, i1), polyA, polyB);
        return true;
      }
      i1 := i1 + 1;
    }
    return false;
  }

  method ProjectionRange(normal: Point, poly: seq<Point>) returns (lo: Option<int>, hi: Option<int>)
    ensures lo == RunMin(Projections(normal, poly)) && hi == RunMax(Projections(normal, poly))
  {
    ghost var ps := Projections(normal, poly);
    lo, hi := None, None;
    var j := 0;
    while j < |poly|
      invariant 0 <= j <= |poly|
      invariant lo == RunMin(ps[..j]) && hi == RunMax(ps[..j])
    {
      var p := poly[j];
      var projected := normal.x * p.x + normal.y * p.y;
      if lo.None? || lo.value == 0 || projected < lo.value {
        lo := Some(projected);
      }
      if hi.None? || hi.value == 0 || projected > hi.value {
        hi := Some(projected);
      }
      RunStep(ps, j);
      j := j + 1;
    }
    assert ps[..j] == ps;
  }

  /** The test is symmetric in its two polygons. */
  lemma PolygonsIntersectSymmetric(a: seq<Point>, b: seq<Point>, closed: bool)
    ensures PolygonsIntersect(a, b, closed) == PolygonsIntersect(b, a, closed)
  {
  }

  // ------------------------------------------------------------------
  // The exact separating-axis test and where the source departs from it
  // ------------------------------------------------------------------

  /** Axis n separates a and b exactly: every projection of one polygon
      lies below every projection of the other. */
  predicate ExactSeparates(n: Point, a: seq<Point>, b: seq<Point>) {
    (forall i, j :: 0 <= i < |a| && 0 <= j < |b| ==> Dot(n, a[i]) < Dot(n, b[j])) ||
    (forall i, j :: 0 <= i < |a| && 0 <= j < |b| ==> Dot(n, b[j]) < Dot(n, a[i]))
  }

  /** Whatever the projections, the running extrema of a non-empty
      sequence are set and are elements of it. */
  lemma {:induction false} RunExtremaAttained(ps: seq<int>)
    requires |ps| > 0
    ensures RunMin(ps).Some? && RunMin(ps).value in ps
    ensures RunMax(ps).Some? && RunMax(ps).value in ps
  {
    var last := |ps| - 1;
    if last > 0 {
      RunExtremaAttained(ps[..last]);
      RunStep(ps, last);
    }
  }

  /** When no projection is 0, `not minA` never misfires, and the running
      extrema bound every projection. */
  lemma {:induction false} RunExtremaBound(ps: seq<int>)
    requires |ps| > 0
    requires forall i :: 0 <= i < |ps| ==> ps[i] != 0
    ensures RunMin(ps).Some? && RunMin(ps).value != 0
    ensures RunMax(ps).Some? && RunMax(ps).value != 0
    ensures forall i :: 0 <= i < |ps| ==> RunMin(ps).value <= ps[i] <= RunMax(ps).value
  {
    var last := |ps| - 1;
    if last > 0 {
      var init := ps[..last];
      RunExtremaBound(init);
      RunStep(ps, last);
      forall i | 0 <= i < |ps|
        ensures RunMin(ps).value <= ps[i] <= RunMax(ps).value
      {
        if i < last {
          assert ps[i] == init[i];
        }
      }
    }
  }

  /** With no projection equal to 0, the source's axis test is the exact
      one, in both directions. */
  lemma SeparatesExactWhenNonZero(n: Point, a: seq<Point>, b: seq<Point>)
    requires |a| > 0 && |b| > 0
    requires forall i :: 0 <= i < |a| ==> Dot(n, a[i]) != 0
    requires forall j :: 0 <= j < |b| ==> Dot(n, b[j]) != 0
    ensures Separates(n, a, b) <==> ExactSeparates(n, a, b)
  {
    var pa, pb := Projections(n, a), Projections(n, b);
    RunExtremaBound(pa);
    RunExtremaBound(pb);
    RunExtremaAttained(pa);
    RunExtremaAttained(pb);
  }

  /** `a` is the closed quadrilateral p0 p1 p2 p3 p0, the form in which the
      source passes its polygons. */
  predicate ClosedQuad(a: seq<Point>, p0: Point, p1: Point, p2: Point, p3: Point) {
    |a| == 5 && a[0] == p0 && a[1] == p1 && a[2] == p2 && a[3] == p3 && a[4] == p0
  }

  /** Two polygons that share the vertex (1, 0) and overlap: the axis of
      the first edge of A separates them for the source, because a running
      minimum of 0 is taken for unset and overwritten, while no axis can
      separate them exactly. So the source reports them as not
      intersecting. Along (0, 1) A spans 0..2 and B spans 0..3, but the
      running extrema of both start over at each projection of 0. */
  lemma QuirkSeparatesOverlapping(a: seq<Point>, b: seq<Point>)
    requires ClosedQuad(a, Point(1, 2), Point(0, 2), Point(0, 0), Point(1, 0))
    requires ClosedQuad(b, Point(0, 3), Point(2, 0), Point(1, 0), Point(-1, 3))
    ensures a[3] == b[2]
    ensures forall n :: !ExactSeparates(n, a, b)
    ensures Separates(EdgeNormal(a, 0), a, b)
    ensures !PolygonsIntersect(a, b, true)
  {
    forall n ensures !ExactSeparates(n, a, b) {
      SharedVertexNotSeparated(n, a, b, 3, 2);
    }
    ExampleFolds();
    QuadsSeparatedVertically(a, b, Point(0, 1), Point(1, 2), Point(0, 2), Point(0, 0), Point(1, 0),
                             Point(0, 3), Point(2, 0), Point(1, 0), Point(-1, 3), 2, 2, 3, 3);
  }

  /** No axis separates two polygons with a common vertex. */
  lemma SharedVertexNotSeparated(n: Point, a: seq<Point>, b: seq<Point>, i: int, j: int)
    requires 0 <= i < |a| && 0 <= j < |b| && a[i] == b[j]
    ensures !ExactSeparates(n, a, b)
  {
  }

  /** The source's own example: the unit square below the origin and the
      square spanning x 100..200, y 50..100 do not intersect; the first
      edge of the unit square is a separating axis, along which the unit
      square spans 0..1 and the other square -100..-50. */
  lemma DisjointSquares(a: seq<Point>, b: seq<Point>)
    requires ClosedQuad(a, Point(0, 0), Point(1, 0), Point(1, -1), Point(0, -1))
    requires ClosedQuad(b, Point(100, 100), Point(200, 100), Point(200, 50), Point(100, 50))
    ensures Separates(EdgeNormal(a, 0), a, b)
    ensures !PolygonsIntersect(a, b, true)
  {
    ExampleFolds();
    QuadsSeparatedVertically(a, b, Point(0, -1), Point(0, 0), Point(1, 0), Point(1, -1), Point(0, -1),
                             Point(100, 100), Point(200, 100), Point(200, 50), Point(100, 50), 0, 1, -100, -50);
  }

  /** Two closed quadrilaterals whose running extrema along the vertical
      normal of the first edge of `a` do not overlap: the test returns
      False. */
  lemma QuadsSeparatedVertically(a: seq<Point>, b: seq<Point>, n: Point,
                                 p0: Point, p1: Point, p2: Point, p3: Point,
                                 q0: Point, q1: Point, q2: Point, q3: Point,
                                 minA: int, maxA: int, minB: int, maxB: int)
    requires n == Point(0, 1) || n == Point(0, -1)
    requires ClosedQuad(a, p0, p1, p2, p3) && ClosedQuad(b, q0, q1, q2, q3)
    requires n == Point(p1.y - p0.y, p0.x - p1.x)
    requires UpdateMin(UpdateMin(UpdateMin(UpdateMin(UpdateMin(None, Vertical(n, p0)), Vertical(n, p1)),
               Vertical(n, p2)), Vertical(n, p3)), Vertical(n, p0)) == Some(minA)
    requires UpdateMax(UpdateMax(UpdateMax(UpdateMax(UpdateMax(None, Vertical(n, p0)), Vertical(n, p1)),
               Vertical(n, p2)), Vertical(n, p3)), Vertical(n, p0)) == Some(maxA)
    requires UpdateMin(UpdateMin(UpdateMin(UpdateMin(UpdateMin(None, Vertical(n, q0)), Vertical(n, q1)),
               Vertical(n, q2)), Vertical(n, q3)), Vertical(n, q0)) == Some(minB)
    requires UpdateMax(UpdateMax(UpdateMax(UpdateMax(UpdateMax(None, Vertical(n, q0)), Vertical(n, q1)),
               Vertical(n, q2)), Vertical(n, q3)), Vertical(n, q0)) == Some(maxB)
    requires maxA < minB || maxB < minA
    ensures Separates(EdgeNormal(a, 0), a, b)
    ensures !PolygonsIntersect(a, b, true)
  {
    assert EdgeNormal(a, 0) == n;
    QuadExtrema(n, a, p0, p1, p2, p3, minA, maxA);
    QuadExtrema(n, b, q0, q1, q2, q3, minB, maxB);
  }

  /** The running extrema of the projections in the two examples above. */
  lemma ExampleFolds()
    ensures UpdateMin(UpdateMin(UpdateMin(UpdateMin(UpdateMin(None, Vertical(Point(0, 1), Point(1, 2))),
              Vertical(Point(0, 1), Point(0, 2))), Vertical(Point(0, 1), Point(0, 0))),
              Vertical(Point(0, 1), Point(1, 0))), Vertical(Point(0, 1), Point(1, 2))) == Some(2)
    ensures UpdateMax(UpdateMax(UpdateMax(UpdateMax(UpdateMax(None, Vertical(Point(0, 1), Point(1, 2))),
              Vertical(Point(0, 1), Point(0, 2))), Vertical(Point(0, 1), Point(0, 0))),
              Vertical(Point(0, 1), Point(1, 0))), Vertical(Point(0, 1), Point(1, 2))) == Some(2)
    ensures UpdateMin(UpdateMin(UpdateMin(UpdateMin(UpdateMin(None, Vertical(Point(0, 1), Point(0, 3))),
              Vertical(Point(0, 1), Point(2, 0))), Vertical(Point(0, 1), Point(1, 0))),
              Vertical(Point(0, 1), Point(-1, 3))), Vertical(Point(0, 1), Point(0, 3))) == Some(3)
    ensures UpdateMax(UpdateMax(UpdateMax(UpdateMax(UpdateMax(None, Vertical(Point(0, 1), Point(0, 3))),
              Vertical(Point(0, 1), Point(2, 0))), Vertical(Point(0, 1), Point(1, 0))),
              Vertical(Point(0, 1), Point(-1, 3))), Vertical(Point(0, 1), Point(0, 3))) == Some(3)
    ensures UpdateMin(UpdateMin(UpdateMin(UpdateMin(UpdateMin(None, Vertical(Point(0, -1), Point(0, 0))),
              Vertical(Point(0, -1), Point(1, 0))), Vertical(Point(0, -1), Point(1, -1))),
              Vertical(Point(0, -1), Point(0, -1))), Vertical(Point(0, -1), Point(0, 0))) == Some(0)
    ensures UpdateMax(UpdateMax(UpdateMax(UpdateMax(UpdateMax(None, Vertical(Point(0, -1), Point(0, 0))),
              Vertical(Point(0, -1), Point(1, 0))), Vertical(Point(0, -1), Point(1, -1))),
              Vertical(Point(0, -1), Point(0, -1))), Vertical(Point(0, -1), Point(0, 0))) == Some(1)
    ensures UpdateMin(UpdateMin(UpdateMin(UpdateMin(UpdateMin(None, Vertical(Point(0, -1), Point(100, 100))),
              Vertical(Point(0, -1), Point(200, 100))), Vertical(Point(0, -1), Point(200, 50))),
              Vertical(Point(0, -1), Point(100, 50))), Vertical(Point(0, -1), Point(100, 100))) == Some(-100)
    ensures UpdateMax(UpdateMax(UpdateMax(UpdateMax(UpdateMax(None, Vertical(Point(0, -1), Point(100, 100))),
              Vertical(Point(0, -1), Point(200, 100))), Vertical(Point(0, -1), Point(200, 50))),
              Vertical(Point(0, -1), Point(100, 50))), Vertical(Point(0, -1), Point(100, 100))) == Some(-50)
  {
  }

  /** The running extrema of the projections of a closed quadrilateral onto
      a vertical normal, from the running extrema of the five projections. */
  lemma QuadExtrema(n: Point, a: seq<Point>, p0: Point, p1: Point, p2: Point, p3: Point, lo: int, hi: int)
    requires n == Point(0, 1) || n == Point(0, -1)
    requires ClosedQuad(a, p0, p1, p2, p3)
    requires UpdateMin(UpdateMin(UpdateMin(UpdateMin(UpdateMin(None, Vertical(n, p0)), Vertical(n, p1)),
               Vertical(n, p2)), Vertical(n, p3)), Vertical(n, p0)) == Some(lo)
    requires UpdateMax(UpdateMax(UpdateMax(UpdateMax(UpdateMax(None, Vertical(n, p0)), Vertical(n, p1)),
               Vertical(n, p2)), Vertical(n, p3)), Vertical(n, p0)) == Some(hi)
    ensures RunMin(Projections(n, a)) == Some(lo)
    ensures RunMax(Projections(n, a)) == Some(hi)
  {
    DotVertical(n, p0); DotVertical(n, p1); DotVertical(n, p2); DotVertical(n, p3);
    var ps := Projections(n, a);
    assert ps[..0] == [] && ps[..5] == ps;
    RunStep(ps, 0); RunStep(ps, 1); RunStep(ps, 2); RunStep(ps, 3); RunStep(ps, 4);
  }

  /** The projection of p onto the vertical unit normal n, written without
      multiplication. */
  function Vertical(n: Point, p: Point): int {
    if n.y == 1 then p.y else -p.y
  }

  lemma DotVertical(n: Point, p: Point)
    requires n == Point(0, 1) || n == Point(0, -1)
    ensures Dot(n, p) == Vertical(n, p)
  {
  }

  /** One step of the running extrema. */
  lemma RunStep(ps: seq<int>, k: int)
    requires 0 <= k < |ps|
    ensures RunMin(ps[..k + 1]) == UpdateMin(RunMin(ps[..k]), ps[k])
    ensures RunMax(ps[..k + 1]) == UpdateMax(RunMax(ps[..k]), ps[k])
  {
    assert ps[..k + 1][..k] == ps[..k];
  }
}
