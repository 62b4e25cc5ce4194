/** The point kernel of KiPadCheck (class wxPointUtil): dot products,
    squared distances, the clamped projection of a point onto a segment and
    the point-to-segment squared distance built on it.

    Board coordinates are integers (nanometres). The projection parameter
    t = k / |w - v|^2 is a fraction of integers (a float in the source),
    and the projected point v + t (w - v) is kept exactly as a point with
    rational coordinates, where the source builds it as a wxPoint and so
    truncates both coordinates to integers. The square root is a parameter
    `sqrt` of the operations that take one. */
module Geometry {

  import opened Arithmetic

  datatype Point = Point(x: int, y: int)

  /** A line segment, the (start, end) pair the source passes as `line`. */
  datatype Segment = Segment(start: Point, end: Point)

  /** The point (xn / den, yn / den). */
  datatype RatPoint = RatPoint(xn: int, yn: int, den: int)

  /** wxPoint subtraction `w - v`. */
  function Sub(w: Point, v: Point): Point {
    Point(w.x - v.x, w.y - v.y)
  }

  function Abs(x: int): nat {
    if x < 0 then -x else x
  }

  /** The z component of the cross product; zero when v and w are parallel. */
  function Cross(v: Point, w: Point): int {
    v.x * w.y - v.y * w.x
  }

  /** The square root is non-negative on non-negative arguments; the only
      property of `sqrt` that the model relies on. */
  ghost predicate NonNegativeRoot(sqrt: real -> real) {
    forall x: real :: 0.0 <= x ==> 0.0 <= sqrt(x)
  }

  /** wxPointUtil.dot */
  function Dot(v: Point, w: Point): int {
    v.x * w.x + v.y * w.y
  }

  /** wxPointUtil.distance2: the squared distance, which is the dot product
      of the difference vector with itself, zero exactly for equal points. */
  function Distance2(v: Point, w: Point): (r: int)
    ensures r == Dot(Sub(w, v), Sub(w, v))
    ensures r >= 0
    ensures r == 0 <==> v == w
  {
    var wvx := w.x - v.x;
    var wvy := w.y - v.y;
    SumOfSquares(wvx, wvy);
    wvx * wvx + wvy * wvy
  }

  lemma Distance2Symmetric(v: Point, w: Point)
    ensures Distance2(v, w) == Distance2(w, v)
  {
    assert (w.x - v.x) * (w.x - v.x) == (v.x - w.x) * (v.x - w.x);
    assert (w.y - v.y) * (w.y - v.y) == (v.y - w.y) * (v.y - w.y);
  }

  /** wxPointUtil.distance: the root of the squared distance. */
  function Distance(sqrt: real -> real, v: Point, w: Point): (r: real)
    requires NonNegativeRoot(sqrt)
    ensures r >= 0.0
    ensures r == sqrt(Distance2(v, w) as real)
  {
    var p := Sub(v, w);
    Distance2Symmetric(v, w);
    assert p.x * p.x + p.y * p.y == Distance2(w, v);
    sqrt((p.x * p.x + p.y * p.y) as real)
  }

  /** q stands for the integer point p. */
  predicate Represents(q: RatPoint, p: Point) {
    q.den > 0 && q.xn == p.x * q.den && q.yn == p.y * q.den
  }

  /** wxPointUtil.scale: w multiplied by the factor k / den. */
  function Scale(w: Point, k: int, den: int): (r: RatPoint)
    requires den > 0
    ensures r.den == den
    ensures k == 0 ==> Represents(r, Point(0, 0))
    ensures k == den ==> Represents(r, w)
  {
    RatPoint(w.x * k, w.y * k, den)
  }

  /** The point v + (k / den) (w - v) of the line through v and w. */
  function Along(v: Point, w: Point, k: int, den: int): (q: RatPoint)
    requires den > 0
    ensures q.den == den
  {
    var d := Scale(Sub(w, v), k, den);
    RatPoint(v.x * den + d.xn, v.y * den + d.yn, den)
  }

  /** den (q - v), the offset of q from v scaled by q's denominator. */
  function Offset(q: RatPoint, v: Point): Point {
    Point(q.xn - v.x * q.den, q.yn - v.y * q.den)
  }

  /** q lies on the closed segment [v, w]: q - v is parallel to w - v, and
      its component along w - v is between 0 and |w - v|. */
  predicate OnSegment(q: RatPoint, v: Point, w: Point) {
    q.den > 0 && Cross(Offset(q, v), Sub(w, v)) == 0 &&
    0 <= Dot(Offset(q, v), Sub(w, v)) <= q.den * Distance2(v, w)
  }

  /** The integer point p as a rational one. */
  function FromPoint(p: Point): RatPoint {
    RatPoint(p.x, p.y, 1)
  }

  /** The numerator k of the projection parameter t = k / |w - v|^2 of
      projection_line: the absolute value of (p - v).(w - v), clamped to
      [0, |w - v|^2]. Note the absolute value the source takes of the dot
      product. The source divides by |w - v|^2 and so fails when v == w;
      mindistance2 guards that case. */
  function ProjectionNumerator(p: Point, v: Point, w: Point): (k: int)
    requires v != w
    ensures 0 <= k <= Distance2(v, w)
    ensures k == Abs(Dot(Sub(p, v), Sub(w, v))) || k == Distance2(v, w)
    ensures k < Distance2(v, w) ==> k == Abs(Dot(Sub(p, v), Sub(w, v)))
  {
    var a := Abs(Dot(Sub(p, v), Sub(w, v)));
    var l2 := Distance2(v, w);
    if a < l2 then a else l2
  }

  /** The projection parameter t of projection_line, in [0, 1]. */
  function ProjectionParameter(p: Point, v: Point, w: Point): (t: real)
    requires v != w
    ensures 0.0 <= t <= 1.0
  {
    var k := ProjectionNumerator(p, v, w);
    var l2 := Distance2(v, w);
    RatioMonotone(k, l2, l2);
    RatioFacts(k, l2);
    k as real / l2 as real
  }

  /** wxPointUtil.projection_line: v + t (w - v), a point of the segment
      [v, w]. */
  function ProjectionLine(p: Point, v: Point, w: Point): (q: RatPoint)
    requires v != w
    ensures q.den == Distance2(v, w)
    ensures OnSegment(q, v, w)
  {
    var k := ProjectionNumerator(p, v, w);
    var q := Along(v, w, k, Distance2(v, w));
    AlongOnSegment(v, w, k);
    q
  }

  /** v + (k / L)(w - v) with L = |w - v|^2 and 0 <= k <= L is a point of
      the segment. */
  lemma AlongOnSegment(v: Point, w: Point, k: int)
    requires v != w
    requires 0 <= k <= Distance2(v, w)
    ensures OnSegment(Along(v, w, k, Distance2(v, w)), v, w)
  {
    var c := Sub(w, v);
    var L := Distance2(v, w);
    var q := Along(v, w, k, L);
    assert Offset(q, v) == Point(c.x * k, c.y * k);
    ScaledCross(c, k);
    assert Dot(Offset(q, v), c) == k * L by { ScaledDot(c, k); }
    NonNegProduct(k, L);
    NonNegProduct(L - k, L);
  }

  lemma ScaledCross(c: Point, k: int)
    ensures Cross(Point(c.x * k, c.y * k), c) == 0
  {
  }

  lemma ScaledDot(c: Point, k: int)
    ensures Dot(Point(c.x * k, c.y * k), c) == k * Dot(c, c)
  {
  }

  /** wxPointUtil.distance2 from an integer point to a rational one: zero
      exactly when q stands for p. */
  function RatDistance2(p: Point, q: RatPoint): (r: real)
    requires q.den > 0
    ensures r >= 0.0
    ensures r == 0.0 <==> Represents(q, p)
  {
    var dx := p.x * q.den - q.xn;
    var dy := p.y * q.den - q.yn;
    SumOfSquares(dx, dy);
    PositiveSquare(q.den);
    RatioFacts(dx * dx + dy * dy, q.den * q.den);
    (dx * dx + dy * dy) as real / (q.den * q.den) as real
  }

  /** wxPointUtil.mindistance2: squared distance from u to the segment
      [v, w] as the source measures it, falling back to the distance to w
      when the segment has zero length. */
  function MinDistance2(u: Point, v: Point, w: Point): (r: real)
    ensures r >= 0.0
    ensures v == w ==> r == Distance2(u, v) as real
    ensures u == v || u == w ==> r == 0.0
  {
    if w.x == v.x && w.y == v.y then
      Distance2(u, w) as real
    else
      var r := RatDistance2(u, ProjectionLine(u, v, w));
      assert u == v || u == w ==> r == 0.0 by {
        if u == v || u == w { ProjectionOfEndpoints(u, v, w); }
      }
      r
  }

  /** wxPointUtil.mindistance: the distance from u to the segment [v, w],
      the root of the squared distance mindistance2 measures (the source
      takes distance() to the same projected point, or to w when v == w). */
  function MinDistance(sqrt: real -> real, u: Point, v: Point, w: Point): (r: real)
    requires NonNegativeRoot(sqrt)
    ensures r >= 0.0
    ensures r == sqrt(MinDistance2(u, v, w))
  {
    sqrt(MinDistance2(u, v, w))
  }

  // ------------------------------------------------------------------
  // The squared distance to v + (k / den)(w - v) as a quadratic in k.
  // ------------------------------------------------------------------

  /** den^2 |p - v|^2 - 2 k den D + k^2 L, with D = (p - v).(w - v) and
      L = |w - v|^2: den^2 times the squared distance from p to
      v + (k / den)(w - v). */
  function Quadratic(p: Point, v: Point, w: Point, k: int, den: int): int {
    den * den * Distance2(v, p) - 2 * k * den * Dot(Sub(p, v), Sub(w, v))
      + k * k * Distance2(v, w)
  }

  lemma AlongDistance(p: Point, v: Point, w: Point, k: int, den: int)
    requires den > 0
    ensures RatDistance2(p, Along(v, w, k, den))
         == Quadratic(p, v, w, k, den) as real / (den * den) as real
  {
    var a, b := p.x - v.x, p.y - v.y;
    var c, d := w.x - v.x, w.y - v.y;
    var q := Along(v, w, k, den);
    var dx, dy := p.x * den - q.xn, p.y * den - q.yn;
    assert dx == den * a - k * c by {
      assert q.xn == v.x * den + c * k;
      assert p.x * den - v.x * den == den * a;
    }
    assert dy == den * b - k * d by {
      assert q.yn == v.y * den + d * k;
      assert p.y * den - v.y * den == den * b;
    }
    ExpandPlane(a, b, c, d, k, den);
    assert dx * dx + dy * dy == Quadratic(p, v, w, k, den);
  }

  lemma ProjectionOfEndpoints(u: Point, v: Point, w: Point)
    requires v != w
    requires u == v || u == w
    ensures Represents(ProjectionLine(u, v, w), u)
  {
    var k := ProjectionNumerator(u, v, w);
    var l2 := Distance2(v, w);
    if u == v {
      assert Dot(Sub(u, v), Sub(w, v)) == 0;
      assert k == 0;
    } else {
      assert Dot(Sub(u, v), Sub(w, v)) == l2;
      assert k == l2;
    }
  }

  // ------------------------------------------------------------------
  // Reference: the exact distance from a point to a segment, with the
  // signed projection parameter clamped to [0, 1].
  // ------------------------------------------------------------------

  /** The numerator of the parameter of the point of [v, w] nearest to p:
      (p - v).(w - v) clamped to [0, |w - v|^2]. */
  function ClosestNumerator(p: Point, v: Point, w: Point): (k: int)
    requires v != w
    ensures 0 <= k <= Distance2(v, w)
  {
    var dot := Dot(Sub(p, v), Sub(w, v));
    if dot < 0 then 0 else if dot > Distance2(v, w) then Distance2(v, w) else dot
  }

  /** The exact squared distance from p to the segment [v, w]. */
  function SegmentDistance2(p: Point, v: Point, w: Point): real {
    if v == w then Distance2(p, w) as real
    else RatDistance2(p, Along(v, w, ClosestNumerator(p, v, w), Distance2(v, w)))
  }

  /** The reference distance is the least squared distance from p to any
      point v + (j / m)(w - v) of the segment, 0 <= j / m <= 1. */
  lemma {:induction false} SegmentDistance2IsLeast(p: Point, v: Point, w: Point, j: int, m: int)
    requires v != w
    requires m > 0 && 0 <= j <= m
    ensures SegmentDistance2(p, v, w) <= RatDistance2(p, Along(v, w, j, m))
  {
    var L := Distance2(v, w);
    var k := ClosestNumerator(p, v, w);
    AlongDistance(p, v, w, k, L);
    AlongDistance(p, v, w, j, m);
    QuadraticLeast(Distance2(v, p), Dot(Sub(p, v), Sub(w, v)), L, k, j, m);
    PositiveSquare(L);
    PositiveSquare(m);
    RatioCompare(Quadratic(p, v, w, k, L), L * L, Quadratic(p, v, w, j, m), m * m);
  }

  /** Measured from the exact projection, the distance is never less than
      the exact one: that projection is a point of the segment, but not
      always the nearest one. The truncated point the source measures from
      need not lie on the segment, so this is a fact about the exact
      projection only. */
  lemma MinDistance2AtLeastExact(u: Point, v: Point, w: Point)
    ensures MinDistance2(u, v, w) >= SegmentDistance2(u, v, w)
  {
    if v != w {
      SegmentDistance2IsLeast(u, v, w, ProjectionNumerator(u, v, w), Distance2(v, w));
    }
  }

  /** When u lies on the side of v towards w, the absolute value in
      projection_line changes nothing and the distance measured from the
      exact projection is the exact one. */
  lemma MinDistance2ExactWhenAhead(u: Point, v: Point, w: Point)
    requires Dot(Sub(u, v), Sub(w, v)) >= 0
    ensures MinDistance2(u, v, w) == SegmentDistance2(u, v, w)
  {
    if v != w {
      assert ProjectionNumerator(u, v, w) == ClosestNumerator(u, v, w);
    }
  }

  /** Behind the start of the segment the absolute value in
      projection_line makes the distance measured from the exact projection
      strictly larger than the exact one; with MinDistance2ExactWhenAhead,
      the two agree exactly when (u - v).(w - v) >= 0. */
  lemma {:induction false} MinDistance2OverestimatesBehindStart(u: Point, v: Point, w: Point)
    requires Dot(Sub(u, v), Sub(w, v)) < 0
    ensures MinDistance2(u, v, w) > SegmentDistance2(u, v, w)
  {
    assert v != w;
    var L := Distance2(v, w);
    var D := Dot(Sub(u, v), Sub(w, v));
    var k := ProjectionNumerator(u, v, w);
    assert ClosestNumerator(u, v, w) == 0;
    AlongDistance(u, v, w, k, L);
    AlongDistance(u, v, w, 0, L);
    BehindStartQuadratic(Distance2(v, u), D, L, k);
    PositiveSquare(L);
    RatioMonotone(Quadratic(u, v, w, k, L), Quadratic(u, v, w, 0, L), L * L);
  }

  /** The projection of u stands for u itself exactly when u lies on the
      segment. */
  lemma {:induction false} ProjectionRepresentsIff(u: Point, v: Point, w: Point)
    requires v != w
    ensures Represents(ProjectionLine(u, v, w), u) <==> OnSegment(FromPoint(u), v, w)
  {
    var a, c := Sub(u, v), Sub(w, v);
    var L := Distance2(v, w);
    var k := ProjectionNumerator(u, v, w);
    var q := ProjectionLine(u, v, w);
    assert q == RatPoint(v.x * L + c.x * k, v.y * L + c.y * k, L);
    ShiftedProduct(u.x, v.x, L);
    ShiftedProduct(u.y, v.y, L);
    assert Represents(q, u) <==> L * a.x == k * c.x && L * a.y == k * c.y;
    assert Offset(FromPoint(u), v) == a;
    if OnSegment(FromPoint(u), v, w) {
      assert k == Dot(a, c);
      CollinearScaling(a, c);
    }
    if Represents(q, u) {
      ScaledVector(a, c, k, L);
    }
  }

  /** For a segment of non-zero length, the measured distance is zero
      exactly when u lies on the segment. */
  lemma MinDistance2ZeroIff(u: Point, v: Point, w: Point)
    requires v != w
    ensures MinDistance2(u, v, w) == 0.0 <==> OnSegment(FromPoint(u), v, w)
  {
    ProjectionRepresentsIff(u, v, w);
  }

  /** For a vector a parallel to c, |c|^2 a == (a.c) c. */
  lemma CollinearScaling(a: Point, c: Point)
    requires Cross(a, c) == 0
    ensures Dot(c, c) * a.x == Dot(a, c) * c.x
    ensures Dot(c, c) * a.y == Dot(a, c) * c.y
  {
    assert Dot(c, c) * a.x - Dot(a, c) * c.x == c.y * Cross(a, c);
    assert Dot(c, c) * a.y - Dot(a, c) * c.y == -c.x * Cross(a, c);
  }

  /** If L a == k c with L = |c|^2 > 0, then a is parallel to c and
      a.c == k. */
  lemma ScaledVector(a: Point, c: Point, k: int, L: int)
    requires L == Dot(c, c) && L > 0
    requires L * a.x == k * c.x && L * a.y == k * c.y
    ensures Cross(a, c) == 0
    ensures Dot(a, c) == k
  {
    assert L * Cross(a, c) == (L * a.x) * c.y - (L * a.y) * c.x;
    assert L * Cross(a, c) == 0;
    assert L * Dot(a, c) == (L * a.x) * c.x + (L * a.y) * c.y;
    assert L * Dot(a, c) == k * L;
  }
}
