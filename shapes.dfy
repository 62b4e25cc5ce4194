/** The rotated outlines KiPadCheck builds for pads and text strokes
    (KiPadCheck.get_rotated_vector and KiPadCheck.get_corners_rotated_rect).

    Orientations are in tenths of a degree, and the rotation is by the
    negated orientation. `cos` and `sin` are parameters taking an angle in
    degrees (math.cos(math.radians(a)) in the source). Each rotated
    coordinate is truncated toward zero, as Python's int() does. */
module Shapes {

  import opened Geometry
  import opened Rectangles
  import opened Polygons

  /** Python's int() on a float: truncation toward zero. */
  function Trunc(x: real): (n: int)
    ensures 0.0 <= x ==> n as real <= x < n as real + 1.0
    ensures x < 0.0 ==> n as real - 1.0 < x <= n as real
  {
    if x >= 0.0 then x.Floor else -((-x).Floor)
  }

  lemma TruncOfInteger(n: int)
    ensures Trunc(n as real) == n
  {
  }

  /** The angle in degrees the source rotates by: `-orientation/10.0`. */
  function RotationAngle(orientation: int): real {
    -(orientation as real) / 10.0
  }

  /** Point p rotated about `center` by the angle whose cosine is c and
      sine is s, each coordinate truncated. */
  function Rotate(c: real, s: real, center: Point, p: Point): Point {
    var pox := (p.x - center.x) as real;
    var poy := (p.y - center.y) as real;
    Point(Trunc(c * pox - s * poy + center.x as real), Trunc(s * pox + c * poy + center.y as real))
  }

  /** The rotation by angle 0 (cosine 1, sine 0) leaves every point where
      it is. */
  lemma RotateByZero(center: Point, p: Point)
    ensures Rotate(1.0, 0.0, center, p) == p
  {
    var pox := (p.x - center.x) as real;
    var poy := (p.y - center.y) as real;
    assert 1.0 * pox - 0.0 * poy + center.x as real == p.x as real;
    assert 0.0 * pox + 1.0 * poy + center.y as real == p.y as real;
    TruncOfInteger(p.x);
    TruncOfInteger(p.y);
  }

  /** A half-turn (cosine -1, sine 0) reflects every point through the
      centre, exactly, since the coordinates stay integers. */
  lemma RotateByHalfTurn(center: Point, p: Point)
    ensures Rotate(-1.0, 0.0, center, p) == Point(2 * center.x - p.x, 2 * center.y - p.y)
  {
    var pox := (p.x - center.x) as real;
    var poy := (p.y - center.y) as real;
    assert -1.0 * pox - 0.0 * poy + center.x as real == (2 * center.x - p.x) as real;
    assert 0.0 * pox + -1.0 * poy + center.y as real == (2 * center.y - p.y) as real;
    TruncOfInteger(2 * center.x - p.x);
    TruncOfInteger(2 * center.y - p.y);
  }

  /** KiPadCheck.get_rotated_vector: every point rotated about the centre,
      followed by the first rotated point again, which closes the polygon.
      An empty vector is returned unchanged. */
  method GetRotatedVector(cos: real -> real, sin: real -> real, vector: seq<Point>, center: Point,
                          orientation: int) returns (rpoints: seq<Point>)
    ensures |vector| == 0 ==> rpoints == vector
    ensures |vector| > 0 ==> |rpoints| == |vector| + 1 && rpoints[|vector|] == rpoints[0]
    ensures |vector| > 0 ==> forall i :: 0 <= i < |vector| ==>
              rpoints[i] == Rotate(cos(RotationAngle(orientation)), sin(RotationAngle(orientation)), center, vector[i])
  {
    if |vector| == 0 {
      return vector;
    }
    var angle := RotationAngle(orientation);
    var c := cos(angle);
    var s := sin(angle);
    rpoints := [];
    var k := 0;
    while k < |vector|
      invariant 0 <= k <= |vector|
      invariant |rpoints| == k
      invariant forall i :: 0 <= i < k ==> rpoints[i] == Rotate(c, s, center, vector[i])
    {
      rpoints := rpoints + [Rotate(c, s, center, vector[k])];
      k := k + 1;
    }
    rpoints := rpoints + [rpoints[0]];
  }

  /** The corners (x, y), (x + w, y), (x + w, y + h), (x, y + h) of a
      wxRect given as its upper left corner, width and height. */
  function Corners(rect: Rect): (cs: seq<Point>)
    ensures |cs| == 4
  {
    [Point(rect.x, rect.y), Point(rect.x + rect.w, rect.y),
     Point(rect.x + rect.w, rect.y + rect.h), Point(rect.x, rect.y + rect.h)]
  }

  /** KiPadCheck.get_corners_rotated_rect: the four corners rotated about
      the centre and the first of them again, a closed quadrilateral. */
  method GetCornersRotatedRect(cos: real -> real, sin: real -> real, rect: Rect, center: Point,
                               orientation: int) returns (rpoints: seq<Point>)
    ensures |rpoints| == 5 && rpoints[4] == rpoints[0]
    ensures forall i :: 0 <= i < 4 ==>
              rpoints[i] == Rotate(cos(RotationAngle(orientation)), sin(RotationAngle(orientation)), center, Corners(rect)[i])
  {
    var angle := RotationAngle(orientation);
    var corners := Corners(rect);
    rpoints := [];
    var k := 0;
    while k < 4
      invariant 0 <= k <= 4
      invariant |rpoints| == k
      invariant forall i :: 0 <= i < k ==> rpoints[i] == Rotate(cos(angle), sin(angle), center, corners[i])
    {
      var c := cos(angle);
      var s := sin(angle);
      rpoints := rpoints + [Rotate(c, s, center, corners[k])];
      k := k + 1;
    }
    rpoints := rpoints + [rpoints[0]];
  }

  /** Unrotated, the outline is the rectangle's own corners, closed: the
      form the separating-axis test expects with `closed` set. */
  lemma UnrotatedCorners(rpoints: seq<Point>, rect: Rect, center: Point)
    requires |rpoints| == 5 && rpoints[4] == rpoints[0]
    requires forall i :: 0 <= i < 4 ==> rpoints[i] == Rotate(1.0, 0.0, center, Corners(rect)[i])
    ensures ClosedQuad(rpoints, Point(rect.x, rect.y), Point(rect.x + rect.w, rect.y),
                       Point(rect.x + rect.w, rect.y + rect.h), Point(rect.x, rect.y + rect.h))
  {
    var cs := Corners(rect);
    RotateByZero(center, cs[0]);
    RotateByZero(center, cs[1]);
    RotateByZero(center, cs[2]);
    RotateByZero(center, cs[3]);
    assert rpoints[0] == Rotate(1.0, 0.0, center, cs[0]);
    assert rpoints[1] == Rotate(1.0, 0.0, center, cs[1]);
    assert rpoints[2] == Rotate(1.0, 0.0, center, cs[2]);
    assert rpoints[3] == Rotate(1.0, 0.0, center, cs[3]);
  }

  /** Unrotated, a vector comes back as itself followed by its first
      point. */
  lemma UnrotatedVector(rpoints: seq<Point>, vector: seq<Point>, center: Point)
    requires |vector| > 0
    requires |rpoints| == |vector| + 1 && rpoints[|vector|] == rpoints[0]
    requires forall i :: 0 <= i < |vector| ==> rpoints[i] == Rotate(1.0, 0.0, center, vector[i])
    ensures rpoints == vector + [vector[0]]
  {
    forall i | 0 <= i < |vector|
      ensures rpoints[i] == vector[i]
    {
      RotateByZero(center, vector[i]);
    }
  }
}
