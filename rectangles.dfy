/** KiPadCheck.RectangleIntersect: the overlap test of two orthogonal
    rectangles given as (x, y, w, h), where the first one is grown by a
    margin. The test treats (x, y) as the centre of the rectangle: it
    extends half the width to each side and half the height up and down. */
module Rectangles {

  /** The tuple (x, y, w, h) the source indexes as rect[0] .. rect[3]. */
  datatype Rect = Rect(x: int, y: int, w: int, h: int)

  function AbsReal(a: real): real {
    if a < 0.0 then -a else a
  }

  /** KiPadCheck.RectangleIntersect, with its corner comparisons: the x
      intervals must not lie beside each other and the y intervals must not
      lie above each other (the source's "top" corner has the larger y).
      It holds exactly when the centres are no further apart along each
      axis than the two half-extents together, the first one grown. */
  function RectangleIntersect(rect1: Rect, rect2: Rect, grow1by: int): (r: bool)
    ensures r <==> (AbsReal((rect1.x - rect2.x) as real) <= (rect1.w + grow1by + rect2.w) as real / 2.0 &&
                    AbsReal((rect1.y - rect2.y) as real) <= (rect1.h + grow1by + rect2.h) as real / 2.0)
  {
    var hr1 := (rect1.w + grow1by) as real / 2.0;
    var vr1 := (rect1.h + grow1by) as real / 2.0;
    var hr2 := rect2.w as real / 2.0;
    var vr2 := rect2.h as real / 2.0;
    var l1x, l1y := rect1.x as real - hr1, rect1.y as real + vr1;
    var r1x, r1y := rect1.x as real + hr1, rect1.y as real - vr1;
    var l2x, l2y := rect2.x as real - hr2, rect2.y as real + vr2;
    var r2x, r2y := rect2.x as real + hr2, rect2.y as real - vr2;
    if l1x > r2x || l2x > r1x then false
    else if l1y < r2y || l2y < r1y then false
    else true
  }

  /** Without a margin the test does not depend on the order of the
      rectangles. */
  lemma RectangleIntersectSymmetric(rect1: Rect, rect2: Rect)
    ensures RectangleIntersect(rect1, rect2, 0) == RectangleIntersect(rect2, rect1, 0)
  {
  }

  /** A larger margin only adds overlaps. */
  lemma RectangleIntersectMonotone(rect1: Rect, rect2: Rect, grow: int, more: int)
    requires grow <= more
    requires RectangleIntersect(rect1, rect2, grow)
    ensures RectangleIntersect(rect1, rect2, more)
  {
  }

  /** A rectangle of non-negative size overlaps itself at every
      non-negative margin. */
  lemma RectangleIntersectsItself(rect: Rect, grow: int)
    requires rect.w >= 0 && rect.h >= 0 && grow >= 0
    ensures RectangleIntersect(rect, rect, grow)
  {
  }
}
