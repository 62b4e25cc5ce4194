/** The drill hole rules of KiPadCheck.DrillInfo_Worker: holes too close
    to a straight board edge, the hole separation sweep per layer, the
    forward-only via to via distances, vias too close to tracks of other
    nets, and the lookup of the first standard drill that fits a pad hole.
    Selection of board objects (SetSelected, SetHighlighted) becomes sets
    of indices; report lines are left out. `sqrt` is a parameter, and so
    is `mindist`, the distance from a point to a segment
    (wxPointUtil.mindistance); EdgeMindist builds it from Geometry. */
module Drill {

  import opened Wrappers
  import opened Geometry
  import opened Rectangles
  import opened Board

  // ------------------------------------------------------------------
  // Holes near an edge
  // ------------------------------------------------------------------

  /** An item on the Edge_Cuts layer: whether it is a DRAWSEGMENT, whether
      its shape is "Line", and its end points. */
  datatype EdgeItem = EdgeItem(isDrawSegment: bool, isLine: bool, start: Point, end: Point)

  /** A hole the edge check measures: `d[0] == 0.0 or d[1] == 0.0` skips
      the others. */
  predicate Drilled(hole: Hole) {
    hole.drill.x != 0 && hole.drill.y != 0
  }

  /** `(dist - d[0]) < USER_drill_to_edge`: the distance from the hole
      centre to the edge segment less the full first drill dimension is
      below the limit. Items that are not DRAWSEGMENTs are skipped; those
      whose shape is not "Line" are still measured as the segment between
      their end points. */
  predicate TooCloseToEdge(mindist: (Point, Point, Point) -> real, hole: Hole, item: EdgeItem, limit: real)
  {
    item.isDrawSegment && Drilled(hole) &&
    mindist(hole.center, item.start, item.end) - hole.drill.x as real < limit
  }

  /** wxPointUtil.mindistance as the `mindist` of the edge rule: the root
      of the point-to-segment squared distance of Geometry. */
  function EdgeMindist(sqrt: real -> real): (d: (Point, Point, Point) -> real)
    ensures forall u, v, w :: d(u, v, w) == sqrt(MinDistance2(u, v, w))
  {
    (u: Point, v: Point, w: Point) => sqrt(MinDistance2(u, v, w))
  }

  /** With that measure, a drilled hole whose centre lies on an edge line
      of non-zero length is reported exactly when minus its first drill
      dimension is below the limit: the rule subtracts the full `d[0]`, so
      with a limit of at most -d[0] even a hole cut through the edge
      passes. */
  lemma HoleOnEdge(sqrt: real -> real, hole: Hole, item: EdgeItem, limit: real)
    requires sqrt(0.0) == 0.0
    requires item.isDrawSegment && Drilled(hole) && item.start != item.end
    requires OnSegment(FromPoint(hole.center), item.start, item.end)
    ensures TooCloseToEdge(EdgeMindist(sqrt), hole, item, limit) <==> -(hole.drill.x as real) < limit
  {
    MinDistance2ZeroIff(hole.center, item.start, item.end);
  }

  /** The number of the first n holes too close to `item`. */
  function HoleFailCount(mindist: (Point, Point, Point) -> real, holes: seq<Hole>, item: EdgeItem, limit: real, n: int): nat
    requires 0 <= n <= |holes|
  {
    if n == 0 then 0
    else HoleFailCount(mindist, holes, item, limit, n - 1) + (if TooCloseToEdge(mindist, holes[n - 1], item, limit) then 1 else 0)
  }

  /** The count is at most n, and positive exactly when some hole fails. */
  lemma {:induction false} HoleFailCountPositive(mindist: (Point, Point, Point) -> real, holes: seq<Hole>, item: EdgeItem,
                                                 limit: real, n: int)
    requires 0 <= n <= |holes|
    ensures HoleFailCount(mindist, holes, item, limit, n) <= n
    ensures HoleFailCount(mindist, holes, item, limit, n) > 0 <==>
              exists h :: 0 <= h < n && TooCloseToEdge(mindist, holes[h], item, limit)
  {
    if n > 0 {
      HoleFailCountPositive(mindist, holes, item, limit, n - 1);
    }
  }

  /** The number of failing (item, hole) pairs over the first m items:
      the final value of `edgefail`. */
  function EdgeFailCount(mindist: (Point, Point, Point) -> real, holes: seq<Hole>, items: seq<EdgeItem>, limit: real, m: int): nat
    requires 0 <= m <= |items|
  {
    if m == 0 then 0
    else EdgeFailCount(mindist, holes, items, limit, m - 1) + HoleFailCount(mindist, holes, items[m - 1], limit, |holes|)
  }

  /** `edgefail` is positive exactly when some hole is too close to some
      item. */
  lemma {:induction false} EdgeFailCountPositive(mindist: (Point, Point, Point) -> real, holes: seq<Hole>, items: seq<EdgeItem>,
                                                 limit: real, m: int)
    requires 0 <= m <= |items|
    ensures EdgeFailCount(mindist, holes, items, limit, m) > 0 <==>
              exists i, h :: 0 <= i < m && 0 <= h < |holes| && TooCloseToEdge(mindist, holes[h], items[i], limit)
  {
    if m > 0 {
      EdgeFailCountPositive(mindist, holes, items, limit, m - 1);
      HoleFailCountPositive(mindist, holes, items[m - 1], limit, |holes|);
      if HoleFailCount(mindist, holes, items[m - 1], limit, |holes|) > 0 {
        var h :| 0 <= h < |holes| && TooCloseToEdge(mindist, holes[h], items[m - 1], limit);
        assert 0 <= m - 1 < m && TooCloseToEdge(mindist, holes[h], items[m - 1], limit);
      }
    }
  }

  /** The holes too close to one edge item. */
  function NearHoles(mindist: (Point, Point, Point) -> real, holes: seq<Hole>, item: EdgeItem, limit: real): set<int> {
    set h | 0 <= h < |holes| && TooCloseToEdge(mindist, holes[h], item, limit)
  }

  /** The holes too close to one edge item: the inner loop of the edge
      check. */
  method HolesNearItem(mindist: (Point, Point, Point) -> real, holes: seq<Hole>, item: EdgeItem, limit: real)
    returns (count: nat, near: set<int>)
    ensures count == HoleFailCount(mindist, holes, item, limit, |holes|)
    ensures near == NearHoles(mindist, holes, item, limit)
  {
    count := 0;
    near := {};
    var h := 0;
    while h < |holes|
      invariant 0 <= h <= |holes|
      invariant count == HoleFailCount(mindist, holes, item, limit, h)
      invariant forall h' :: h' in near <==> 0 <= h' < h && TooCloseToEdge(mindist, holes[h'], item, limit)
    {
      var hole := holes[h];
      if item.isDrawSegment && Drilled(hole) {
        var dist := mindist(hole.center, item.start, item.end);
        if dist - hole.drill.x as real < limit {
          near := near + {h};
          count := count + 1;
        }
      }
      h := h + 1;
    }
    assert forall x :: x in near <==> x in NearHoles(mindist, holes, item, limit);
  }

  /** The holes selected after the first m edge items: the union of the
      holes too close to each. */
  function SelectedHoles(mindist: (Point, Point, Point) -> real, holes: seq<Hole>, items: seq<EdgeItem>, limit: real, m: int): set<int>
    requires 0 <= m <= |items|
  {
    if m == 0 then {}
    else SelectedHoles(mindist, holes, items, limit, m - 1) + NearHoles(mindist, holes, items[m - 1], limit)
  }

  /** A hole is selected exactly when it is too close to one of the first
      m items. */
  lemma {:induction false} SelectedHolesMembers(mindist: (Point, Point, Point) -> real, holes: seq<Hole>, items: seq<EdgeItem>,
                                                limit: real, m: int)
    requires 0 <= m <= |items|
    ensures forall h :: h in SelectedHoles(mindist, holes, items, limit, m) <==>
              0 <= h < |holes| && exists i :: 0 <= i < m && TooCloseToEdge(mindist, holes[h], items[i], limit)
  {
    if m > 0 {
      SelectedHolesMembers(mindist, holes, items, limit, m - 1);
      forall h | 0 <= h < |holes| && TooCloseToEdge(mindist, holes[h], items[m - 1], limit)
        ensures exists i :: 0 <= i < m && TooCloseToEdge(mindist, holes[h], items[i], limit)
      {
        assert 0 <= m - 1 < m;
      }
    }
  }

  /** The items selected after the first m: those with a positive count. */
  function SelectedItems(mindist: (Point, Point, Point) -> real, holes: seq<Hole>, items: seq<EdgeItem>, limit: real, m: int): set<int>
    requires 0 <= m <= |items|
  {
    if m == 0 then {}
    else SelectedItems(mindist, holes, items, limit, m - 1) +
         (if HoleFailCount(mindist, holes, items[m - 1], limit, |holes|) > 0 then {m - 1} else {})
  }

  /** An item is selected exactly when some hole is too close to it. */
  lemma {:induction false} SelectedItemsMembers(mindist: (Point, Point, Point) -> real, holes: seq<Hole>, items: seq<EdgeItem>,
                                                limit: real, m: int)
    requires 0 <= m <= |items|
    ensures forall i :: i in SelectedItems(mindist, holes, items, limit, m) <==>
              0 <= i < m && exists h :: 0 <= h < |holes| && TooCloseToEdge(mindist, holes[h], items[i], limit)
  {
    if m > 0 {
      SelectedItemsMembers(mindist, holes, items, limit, m - 1);
      HoleFailCountPositive(mindist, holes, items[m - 1], limit, |holes|);
    }
  }

  /** The positions among the first n items of the DRAWSEGMENTs whose
      shape is not "Line", in order: those reported as not checked. */
  function NotChecked(items: seq<EdgeItem>, n: int): seq<int>
    requires 0 <= n <= |items|
  {
    if n == 0 then []
    else NotChecked(items, n - 1) + (if items[n - 1].isDrawSegment && !items[n - 1].isLine then [n - 1] else [])
  }

  /** The not-checked list is increasing and holds exactly the
      DRAWSEGMENTs among the first n items whose shape is not "Line". */
  lemma {:induction false} NotCheckedItems(items: seq<EdgeItem>, n: int)
    requires 0 <= n <= |items|
    ensures forall k :: 0 <= k < |NotChecked(items, n)| ==> 0 <= NotChecked(items, n)[k] < n
    ensures forall a, b :: 0 <= a < b < |NotChecked(items, n)| ==> NotChecked(items, n)[a] < NotChecked(items, n)[b]
    ensures forall i :: i in NotChecked(items, n) <==> 0 <= i < n && items[i].isDrawSegment && !items[i].isLine
  {
    if n > 0 {
      NotCheckedItems(items, n - 1);
    }
  }

  /** The drill-to-edge part of DrillInfo_Worker. `limit` is the
      USER_drill_to_edge field read with `or 0.0`. It returns the final
      `edgefail` count, the selected holes and items, and, in order, the
      DRAWSEGMENTs whose shape is not "Line" (reported as not checked).
      EdgeFailCountPositive, SelectedHolesMembers, SelectedItemsMembers and
      NotCheckedItems say what each of them holds. */
  method DrillToEdge(mindist: (Point, Point, Point) -> real, holes: seq<Hole>, items: seq<EdgeItem>, limit: real)
    returns (edgefail: nat, selectedHoles: set<int>, selectedItems: set<int>, notChecked: seq<int>)
    ensures edgefail == EdgeFailCount(mindist, holes, items, limit, |items|)
    ensures selectedHoles == SelectedHoles(mindist, holes, items, limit, |items|)
    ensures selectedItems == SelectedItems(mindist, holes, items, limit, |items|)
    ensures notChecked == NotChecked(items, |items|)
  {
    edgefail := 0;
    selectedHoles := {};
    selectedItems := {};
    notChecked := [];
    var i := 0;
    while i < |items|
      invariant 0 <= i <= |items|
      invariant edgefail == EdgeFailCount(mindist, holes, items, limit, i)
      invariant selectedHoles == SelectedHoles(mindist, holes, items, limit, i)
      invariant selectedItems == SelectedItems(mindist, holes, items, limit, i)
      invariant notChecked == NotChecked(items, i)
    {
      var item := items[i];
      if item.isDrawSegment && !item.isLine {
        notChecked := notChecked + [i];
      }
      var count, near := HolesNearItem(mindist, holes, item, limit);
      selectedHoles := selectedHoles + near;
      if count > 0 {
        selectedItems := selectedItems + {i};
      }
      edgefail := edgefail + count;
      i := i + 1;
    }
  }

  // ------------------------------------------------------------------
  // Hole separation
  // ------------------------------------------------------------------

  /** `mindist = 1000*pcbnew.IU_PER_MM`: one metre in nanometres. */
  const SweepStart: real := 1000000000.0

  /** Python's max(a, b) on the two sides of a drill size. */
  function MaxSide(s: Size): (m: int)
    ensures m >= s.x && m >= s.y && (m == s.x || m == s.y)
  {
    if s.y > s.x then s.y else s.x
  }

  /** `math.sqrt(dist2) - (max(sizei.x,sizei.y) + max(sizej.x,sizej.y))/2.0` */
  function HoleGap(sqrt: real -> real, holes: seq<Hole>, i: int, j: int): real
    requires 0 <= i < |holes| && 0 <= j < |holes|
  {
    sqrt(Distance2(holes[i].center, holes[j].center) as real) -
    (MaxSide(holes[i].drill) + MaxSide(holes[j].drill)) as real / 2.0
  }

  /** The pairs the sweep visits on a layer of n holes:
      `for i in range(len-2)` and `for j in range(i+1, len-1)`, so the
      last hole is never measured. */
  predicate IsPair(n: int, i: int, j: int) {
    0 <= i < n - 2 && i < j < n - 1
  }

  /** Pair (i', j') is visited no later than (i, j). */
  predicate NotAfter(i': int, j': int, i: int, j: int) {
    i' < i || (i' == i && j' <= j)
  }

  /** Some pair visited no later than (i, j) has a gap within the limit. */
  ghost predicate HitBy(sqrt: real -> real, holes: seq<Hole>, limit: real, i: int, j: int) {
    // IsPair and NotAfter written out, so that a witness brings no new
    // IsPair or NotAfter term into a proof
    exists i', j' :: 0 <= i' < |holes| - 2 && i' < j' < |holes| - 1 && (i' < i || (i' == i && j' <= j)) &&
                     HoleGap(sqrt, holes, i', j') <= limit
  }

  /** Some pair of the layer has a gap within the limit. */
  ghost predicate LayerHit(sqrt: real -> real, holes: seq<Hole>, limit: real) {
    exists i, j :: 0 <= i < |holes| - 2 && i < j < |holes| - 1 && HoleGap(sqrt, holes, i, j) <= limit
  }

  /** `if mindist <= MinimumViaVia` on one layer: the pair fails when the
      running minimum, not the pair's own gap, is within the limit, that
      is when the minimum the layer starts from already was (`early`) or
      some pair visited no later has a gap within it. */
  ghost predicate LayerPairFails(sqrt: real -> real, holes: seq<Hole>, early: bool, limit: real, i: int, j: int) {
    early || HitBy(sqrt, holes, limit, i, j)
  }

  /** After visiting the pairs no later than (i, j), `mindist` is the
      minimum of mindist0 and their gaps. */
  ghost predicate MinimumSoFar(sqrt: real -> real, holes: seq<Hole>, mindist0: real, i: int, j: int, mindist: real) {
    mindist <= mindist0 &&
    (forall i', j' :: IsPair(|holes|, i', j') && NotAfter(i', j', i, j) ==> mindist <= HoleGap(sqrt, holes, i', j')) &&
    (mindist == mindist0 ||
     exists i', j' :: IsPair(|holes|, i', j') && NotAfter(i', j', i, j) && mindist == HoleGap(sqrt, holes, i', j'))
  }

  /** ... and it is within the limit exactly when mindist0 is or one of
      those gaps is. */
  ghost predicate HitSoFar(sqrt: real -> real, holes: seq<Hole>, mindist0: real, limit: real, i: int, j: int, mindist: real) {
    mindist <= limit <==> mindist0 <= limit || HitBy(sqrt, holes, limit, i, j)
  }

  /** `fails` is positive exactly when one of those pairs failed. */
  ghost predicate FailsSoFar(sqrt: real -> real, holes: seq<Hole>, mindist0: real, limit: real, i: int, j: int, fails: nat) {
    fails > 0 <==>
    exists i', j' :: IsPair(|holes|, i', j') && NotAfter(i', j', i, j) && LayerPairFails(sqrt, holes, mindist0 <= limit, limit, i', j')
  }

  /** `selected` holds the holes of the failing ones. */
  ghost predicate SelectedSoFar(sqrt: real -> real, holes: seq<Hole>, mindist0: real, limit: real, i: int, j: int,
                                selected: set<int>) {
    forall k :: k in selected <==>
      exists i', j' :: IsPair(|holes|, i', j') && NotAfter(i', j', i, j) && (k == i' || k == j') &&
                       LayerPairFails(sqrt, holes, mindist0 <= limit, limit, i', j')
  }

  /** The number of rows the sweep visits on a layer of n holes:
      `range(len-2)`. */
  function Rows(n: int): nat {
    if n > 2 then n - 2 else 0
  }

  /** The running minimum within row i after visiting (i, i + 1) .. (i, j),
      starting from m: `mindist = min(dist, mindist)` for each. */
  function RowMin(sqrt: real -> real, holes: seq<Hole>, m: real, i: int, j: int): real
    requires 0 <= i <= j < |holes|
    decreases j - i
  {
    if j == i then m
    else
      var prev := RowMin(sqrt, holes, m, i, j - 1);
      var gap := HoleGap(sqrt, holes, i, j);
      if gap < prev then gap else prev
  }

  /** The failures counted within row i up to (i, j), starting from m. */
  function RowFails(sqrt: real -> real, holes: seq<Hole>, m: real, limit: real, i: int, j: int): nat
    requires 0 <= i <= j < |holes|
    decreases j - i
  {
    if j == i then 0
    else RowFails(sqrt, holes, m, limit, i, j - 1) + (if RowMin(sqrt, holes, m, i, j) <= limit then 1 else 0)
  }

  /** The holes selected within row i up to (i, j), starting from m. */
  function RowSelected(sqrt: real -> real, holes: seq<Hole>, m: real, limit: real, i: int, j: int): set<int>
    requires 0 <= i <= j < |holes|
    decreases j - i
  {
    if j == i then {}
    else RowSelected(sqrt, holes, m, limit, i, j - 1) + (if RowMin(sqrt, holes, m, i, j) <= limit then {i, j} else {})
  }

  /** The running minimum after the first r rows, starting from m0. */
  function LayerMin(sqrt: real -> real, holes: seq<Hole>, m0: real, r: int): real
    requires 0 <= r <= Rows(|holes|)
  {
    if r == 0 then m0 else RowMin(sqrt, holes, LayerMin(sqrt, holes, m0, r - 1), r - 1, |holes| - 2)
  }

  /** The `fails` count after the first r rows. */
  function LayerFails(sqrt: real -> real, holes: seq<Hole>, m0: real, limit: real, r: int): nat
    requires 0 <= r <= Rows(|holes|)
  {
    if r == 0 then 0
    else LayerFails(sqrt, holes, m0, limit, r - 1) +
         RowFails(sqrt, holes, LayerMin(sqrt, holes, m0, r - 1), limit, r - 1, |holes| - 2)
  }

  /** The holes selected after the first r rows. */
  function LayerSelected(sqrt: real -> real, holes: seq<Hole>, m0: real, limit: real, r: int): set<int>
    requires 0 <= r <= Rows(|holes|)
  {
    if r == 0 then {}
    else LayerSelected(sqrt, holes, m0, limit, r - 1) +
         RowSelected(sqrt, holes, LayerMin(sqrt, holes, m0, r - 1), limit, r - 1, |holes| - 2)
  }

  /** The sweep of one layer, continuing the running minimum `mindist`
      from mindist0. It returns the new minimum, the layer's `fails`
      count and the positions of the selected holes. SweepMinimumFacts,
      SweepFailsFacts and SweepSelectedFacts say what they are. */
  method SweepLayer(sqrt: real -> real, holes: seq<Hole>, mindist0: real, limit: real)
    returns (mindist: real, fails: nat, selected: set<int>)
    ensures mindist == LayerMin(sqrt, holes, mindist0, Rows(|holes|))
    ensures fails == LayerFails(sqrt, holes, mindist0, limit, Rows(|holes|))
    ensures selected == LayerSelected(sqrt, holes, mindist0, limit, Rows(|holes|))
  {
    mindist := mindist0;
    fails := 0;
    selected := {};
    var n := |holes|;
    var i := 0;
    while i < n - 2
      invariant 0 <= i <= Rows(n)
      invariant mindist == LayerMin(sqrt, holes, mindist0, i)
      invariant fails == LayerFails(sqrt, holes, mindist0, limit, i)
      invariant selected == LayerSelected(sqrt, holes, mindist0, limit, i)
    {
      mindist, fails, selected := SweepRow(sqrt, holes, limit, i, mindist, fails, selected);
      i := i + 1;
    }
    assert i == Rows(n);
  }

  /** The row i of the sweep: `for j in range(i+1, len-1)`. */
  method SweepRow(sqrt: real -> real, holes: seq<Hole>, limit: real, i: int, mindist: real, fails: nat, selected: set<int>)
    returns (mindist': real, fails': nat, selected': set<int>)
    requires 0 <= i < |holes| - 2
    ensures mindist' == RowMin(sqrt, holes, mindist, i, |holes| - 2)
    ensures fails' == fails + RowFails(sqrt, holes, mindist, limit, i, |holes| - 2)
    ensures selected' == selected + RowSelected(sqrt, holes, mindist, limit, i, |holes| - 2)
  {
    mindist', fails', selected' := mindist, fails, selected;
    var j := i + 1;
    while j < |holes| - 1
      invariant i + 1 <= j <= |holes| - 1
      invariant mindist' == RowMin(sqrt, holes, mindist, i, j - 1)
      invariant fails' == fails + RowFails(sqrt, holes, mindist, limit, i, j - 1)
      invariant selected' == selected + RowSelected(sqrt, holes, mindist, limit, i, j - 1)
    {
      var gap := HoleGap(sqrt, holes, i, j);
      mindist' := if gap < mindist' then gap else mindist';
      if mindist' <= limit {
        selected' := selected' + {i, j};
        fails' := fails' + 1;
      }
      assert selected' == selected + RowSelected(sqrt, holes, mindist, limit, i, j);
      j := j + 1;
    }
  }

  /** Before row i the visited pairs are those of the earlier rows. */
  lemma PairsBeforeRow(sqrt: real -> real, holes: seq<Hole>, limit: real, i: int)
    requires 0 <= i < |holes| - 2
    ensures forall i', j' :: IsPair(|holes|, i', j') ==> (NotAfter(i', j', i, i) <==> NotAfter(i', j', i - 1, |holes| - 2))
    ensures HitBy(sqrt, holes, limit, i, i) <==> HitBy(sqrt, holes, limit, i - 1, |holes| - 2)
  {
    assert forall i', j' :: IsPair(|holes|, i', j') ==> (NotAfter(i', j', i, i) <==> NotAfter(i', j', i - 1, |holes| - 2));
  }

  /** Before the first row no pair has been visited. */
  lemma NoPairVisited(sqrt: real -> real, holes: seq<Hole>, limit: real)
    ensures forall i', j' :: IsPair(|holes|, i', j') ==> !NotAfter(i', j', -1, |holes| - 2)
    ensures !HitBy(sqrt, holes, limit, -1, |holes| - 2)
  {
    assert forall i', j' :: IsPair(|holes|, i', j') ==> !NotAfter(i', j', -1, |holes| - 2);
  }

  /** After the last row every pair has been visited. */
  lemma AllPairsVisited(sqrt: real -> real, holes: seq<Hole>, limit: real)
    ensures forall i', j' :: IsPair(|holes|, i', j') ==> NotAfter(i', j', Rows(|holes|) - 1, |holes| - 2)
    ensures HitBy(sqrt, holes, limit, Rows(|holes|) - 1, |holes| - 2) <==> LayerHit(sqrt, holes, limit)
  {
    assert forall i', j' :: IsPair(|holes|, i', j') ==> NotAfter(i', j', Rows(|holes|) - 1, |holes| - 2);
  }

  /** Within row i, after (i, j), `mindist` is the minimum so far. */
  lemma {:induction false} MinimumRow(sqrt: real -> real, holes: seq<Hole>, m0: real, i: int, j: int)
    requires 0 <= i < |holes| - 2 && i <= j <= |holes| - 2
    requires MinimumSoFar(sqrt, holes, m0, i - 1, |holes| - 2, LayerMin(sqrt, holes, m0, i))
    ensures MinimumSoFar(sqrt, holes, m0, i, j, RowMin(sqrt, holes, LayerMin(sqrt, holes, m0, i), i, j))
    decreases j - i
  {
    if j == i {
      PairsBeforeRow(sqrt, holes, 0.0, i);
    } else {
      MinimumRow(sqrt, holes, m0, i, j - 1);
      MinimumStep(sqrt, holes, m0, i, j, RowMin(sqrt, holes, LayerMin(sqrt, holes, m0, i), i, j - 1));
    }
  }

  /** After the first r rows `mindist` is the minimum so far. */
  lemma {:induction false} MinimumLayer(sqrt: real -> real, holes: seq<Hole>, m0: real, r: int)
    requires 0 <= r <= Rows(|holes|)
    ensures MinimumSoFar(sqrt, holes, m0, r - 1, |holes| - 2, LayerMin(sqrt, holes, m0, r))
  {
    if r == 0 {
      NoPairVisited(sqrt, holes, 0.0);
    } else {
      MinimumLayer(sqrt, holes, m0, r - 1);
      MinimumRow(sqrt, holes, m0, r - 1, |holes| - 2);
    }
  }

  /** Within row i, after (i, j), `mindist` is within the limit exactly
      when mindist0 or a visited gap is. */
  lemma {:induction false} HitRow(sqrt: real -> real, holes: seq<Hole>, m0: real, limit: real, i: int, j: int)
    requires 0 <= i < |holes| - 2 && i <= j <= |holes| - 2
    requires HitSoFar(sqrt, holes, m0, limit, i - 1, |holes| - 2, LayerMin(sqrt, holes, m0, i))
    ensures HitSoFar(sqrt, holes, m0, limit, i, j, RowMin(sqrt, holes, LayerMin(sqrt, holes, m0, i), i, j))
    decreases j - i
  {
    if j == i {
      PairsBeforeRow(sqrt, holes, limit, i);
    } else {
      HitRow(sqrt, holes, m0, limit, i, j - 1);
      HitStep(sqrt, holes, m0, limit, i, j, RowMin(sqrt, holes, LayerMin(sqrt, holes, m0, i), i, j - 1));
    }
  }

  /** After the first r rows, likewise. */
  lemma {:induction false} HitLayer(sqrt: real -> real, holes: seq<Hole>, m0: real, limit: real, r: int)
    requires 0 <= r <= Rows(|holes|)
    ensures HitSoFar(sqrt, holes, m0, limit, r - 1, |holes| - 2, LayerMin(sqrt, holes, m0, r))
  {
    if r == 0 {
      NoPairVisited(sqrt, holes, limit);
    } else {
      HitLayer(sqrt, holes, m0, limit, r - 1);
      HitRow(sqrt, holes, m0, limit, r - 1, |holes| - 2);
    }
  }

  /** Within row i, after (i, j), `fails` is positive exactly when a
      visited pair failed. */
  lemma {:induction false} FailsRow(sqrt: real -> real, holes: seq<Hole>, m0: real, limit: real, i: int, j: int)
    requires 0 <= i < |holes| - 2 && i <= j <= |holes| - 2
    requires FailsSoFar(sqrt, holes, m0, limit, i - 1, |holes| - 2, LayerFails(sqrt, holes, m0, limit, i))
    requires HitSoFar(sqrt, holes, m0, limit, i - 1, |holes| - 2, LayerMin(sqrt, holes, m0, i))
    ensures FailsSoFar(sqrt, holes, m0, limit, i, j,
                       LayerFails(sqrt, holes, m0, limit, i) + RowFails(sqrt, holes, LayerMin(sqrt, holes, m0, i), limit, i, j))
    decreases j - i
  {
    var m := LayerMin(sqrt, holes, m0, i);
    var f := LayerFails(sqrt, holes, m0, limit, i);
    if j == i {
      PairsBeforeRow(sqrt, holes, limit, i);
    } else {
      FailsRow(sqrt, holes, m0, limit, i, j - 1);
      HitRow(sqrt, holes, m0, limit, i, j);
      FailsStep(sqrt, holes, m0, limit, i, j, RowMin(sqrt, holes, m, i, j), f + RowFails(sqrt, holes, m, limit, i, j - 1));
    }
  }

  /** After the first r rows, likewise. */
  lemma {:induction false} FailsLayer(sqrt: real -> real, holes: seq<Hole>, m0: real, limit: real, r: int)
    requires 0 <= r <= Rows(|holes|)
    ensures FailsSoFar(sqrt, holes, m0, limit, r - 1, |holes| - 2, LayerFails(sqrt, holes, m0, limit, r))
  {
    if r == 0 {
      NoPairVisited(sqrt, holes, limit);
    } else {
      FailsLayer(sqrt, holes, m0, limit, r - 1);
      HitLayer(sqrt, holes, m0, limit, r - 1);
      FailsRow(sqrt, holes, m0, limit, r - 1, |holes| - 2);
    }
  }

  /** Within row i, after (i, j), `selected` holds the holes of the
      visited pairs that failed. */
  lemma {:induction false} SelectedRow(sqrt: real -> real, holes: seq<Hole>, m0: real, limit: real, i: int, j: int)
    requires 0 <= i < |holes| - 2 && i <= j <= |holes| - 2
    requires SelectedSoFar(sqrt, holes, m0, limit, i - 1, |holes| - 2, LayerSelected(sqrt, holes, m0, limit, i))
    requires HitSoFar(sqrt, holes, m0, limit, i - 1, |holes| - 2, LayerMin(sqrt, holes, m0, i))
    ensures SelectedSoFar(sqrt, holes, m0, limit, i, j,
                          LayerSelected(sqrt, holes, m0, limit, i) + RowSelected(sqrt, holes, LayerMin(sqrt, holes, m0, i), limit, i, j))
    decreases j - i
  {
    var m := LayerMin(sqrt, holes, m0, i);
    var s := LayerSelected(sqrt, holes, m0, limit, i);
    if j == i {
      PairsBeforeRow(sqrt, holes, limit, i);
      assert s + RowSelected(sqrt, holes, m, limit, i, j) == s;
    } else {
      SelectedRow(sqrt, holes, m0, limit, i, j - 1);
      HitRow(sqrt, holes, m0, limit, i, j);
      var mj := RowMin(sqrt, holes, m, i, j);
      assert s + RowSelected(sqrt, holes, m, limit, i, j) ==
             (s + RowSelected(sqrt, holes, m, limit, i, j - 1)) + (if mj <= limit then {i, j} else {});
      SelectedStep(sqrt, holes, m0, limit, i, j, mj, s + RowSelected(sqrt, holes, m, limit, i, j - 1));
    }
  }

  /** After the first r rows, likewise. */
  lemma {:induction false} SelectedLayer(sqrt: real -> real, holes: seq<Hole>, m0: real, limit: real, r: int)
    requires 0 <= r <= Rows(|holes|)
    ensures SelectedSoFar(sqrt, holes, m0, limit, r - 1, |holes| - 2, LayerSelected(sqrt, holes, m0, limit, r))
  {
    if r == 0 {
      NoPairVisited(sqrt, holes, limit);
      assert forall k :: k !in LayerSelected(sqrt, holes, m0, limit, r);
    } else {
      SelectedLayer(sqrt, holes, m0, limit, r - 1);
      HitLayer(sqrt, holes, m0, limit, r - 1);
      SelectedRow(sqrt, holes, m0, limit, r - 1, |holes| - 2);
    }
  }

  /** The minimum one layer's sweep leaves: at most mindist0 and every
      gap, equal to mindist0 or to one of them, and within the limit
      exactly when mindist0 or some gap is. */
  lemma SweepMinimumFacts(sqrt: real -> real, holes: seq<Hole>, mindist0: real, limit: real)
    ensures LayerMin(sqrt, holes, mindist0, Rows(|holes|)) <= mindist0
    ensures forall i, j :: IsPair(|holes|, i, j) ==> LayerMin(sqrt, holes, mindist0, Rows(|holes|)) <= HoleGap(sqrt, holes, i, j)
    ensures LayerMin(sqrt, holes, mindist0, Rows(|holes|)) == mindist0 ||
            exists i, j :: IsPair(|holes|, i, j) && LayerMin(sqrt, holes, mindist0, Rows(|holes|)) == HoleGap(sqrt, holes, i, j)
    ensures LayerMin(sqrt, holes, mindist0, Rows(|holes|)) <= limit <==> mindist0 <= limit || LayerHit(sqrt, holes, limit)
  {
    MinimumLayer(sqrt, holes, mindist0, Rows(|holes|));
    HitLayer(sqrt, holes, mindist0, limit, Rows(|holes|));
    AllPairsVisited(sqrt, holes, limit);
  }

  /** One layer's `fails` is positive exactly when some pair fails. */
  lemma SweepFailsFacts(sqrt: real -> real, holes: seq<Hole>, mindist0: real, limit: real)
    ensures LayerFails(sqrt, holes, mindist0, limit, Rows(|holes|)) > 0 <==>
            exists i, j :: IsPair(|holes|, i, j) && LayerPairFails(sqrt, holes, mindist0 <= limit, limit, i, j)
  {
    FailsLayer(sqrt, holes, mindist0, limit, Rows(|holes|));
    AllPairsVisited(sqrt, holes, limit);
  }

  /** One layer's selected holes are those of its failing pairs. */
  lemma SweepSelectedFacts(sqrt: real -> real, holes: seq<Hole>, mindist0: real, limit: real)
    ensures forall k :: k in LayerSelected(sqrt, holes, mindist0, limit, Rows(|holes|)) <==>
              exists i, j :: IsPair(|holes|, i, j) && (k == i || k == j) && LayerPairFails(sqrt, holes, mindist0 <= limit, limit, i, j)
  {
    SelectedLayer(sqrt, holes, mindist0, limit, Rows(|holes|));
    AllPairsVisited(sqrt, holes, limit);
  }

  lemma MinimumStep(sqrt: real -> real, holes: seq<Hole>, mindist0: real, i: int, j: int, mindist: real)
    requires IsPair(|holes|, i, j)
    requires MinimumSoFar(sqrt, holes, mindist0, i, j - 1, mindist)
    ensures MinimumSoFar(sqrt, holes, mindist0, i, j,
                         if HoleGap(sqrt, holes, i, j) < mindist then HoleGap(sqrt, holes, i, j) else mindist)
  {
    SweepStep(sqrt, holes, mindist0, 0.0, i, j);
  }

  lemma HitStep(sqrt: real -> real, holes: seq<Hole>, mindist0: real, limit: real, i: int, j: int, mindist: real)
    requires IsPair(|holes|, i, j)
    requires HitSoFar(sqrt, holes, mindist0, limit, i, j - 1, mindist)
    ensures HitSoFar(sqrt, holes, mindist0, limit, i, j,
                     if HoleGap(sqrt, holes, i, j) < mindist then HoleGap(sqrt, holes, i, j) else mindist)
  {
    SweepStep(sqrt, holes, mindist0, limit, i, j);
  }

  lemma FailsStep(sqrt: real -> real, holes: seq<Hole>, mindist0: real, limit: real, i: int, j: int, m: real, fails: nat)
    requires IsPair(|holes|, i, j)
    requires FailsSoFar(sqrt, holes, mindist0, limit, i, j - 1, fails)
    requires m <= limit <==> LayerPairFails(sqrt, holes, mindist0 <= limit, limit, i, j)
    ensures FailsSoFar(sqrt, holes, mindist0, limit, i, j, if m <= limit then fails + 1 else fails)
  {
    SweepStep(sqrt, holes, mindist0, limit, i, j);
  }

  lemma SelectedStep(sqrt: real -> real, holes: seq<Hole>, mindist0: real, limit: real, i: int, j: int, m: real,
                     selected: set<int>)
    requires IsPair(|holes|, i, j)
    requires SelectedSoFar(sqrt, holes, mindist0, limit, i, j - 1, selected)
    requires m <= limit <==> LayerPairFails(sqrt, holes, mindist0 <= limit, limit, i, j)
    ensures SelectedSoFar(sqrt, holes, mindist0, limit, i, j, if m <= limit then selected + {i, j} else selected)
  {
    SweepStep(sqrt, holes, mindist0, limit, i, j);
  }

  /** What visiting (i, j) adds: the pairs no later than (i, j) are those
      no later than the previous pair and (i, j) itself. */
  lemma SweepStep(sqrt: real -> real, holes: seq<Hole>, mindist0: real, limit: real, i: int, j: int)
    requires IsPair(|holes|, i, j)
    ensures forall i', j' :: IsPair(|holes|, i', j') ==> (NotAfter(i', j', i, j) <==> NotAfter(i', j', i, j - 1) || (i', j') == (i, j))
    ensures HitBy(sqrt, holes, limit, i, j) <==> HitBy(sqrt, holes, limit, i, j - 1) || HoleGap(sqrt, holes, i, j) <= limit
    ensures LayerPairFails(sqrt, holes, mindist0 <= limit, limit, i, j) <==>
            mindist0 <= limit || HitBy(sqrt, holes, limit, i, j - 1) || HoleGap(sqrt, holes, i, j) <= limit
  {
  }

  /** Pair (l, i, j) of the whole sweep fails: the limit is at least the
      initial one metre, or some pair of an earlier layer, or some pair of
      this layer visited no later, has a gap within the limit. The
      layers are visited in the order of `layers`. */
  ghost predicate SweepPairFails(sqrt: real -> real, layers: seq<seq<Hole>>, limit: real, l: int, i: int, j: int)
    requires 0 <= l < |layers|
  {
    LayerPairFails(sqrt, layers[l], EarlierHit(sqrt, layers, limit, l), limit, i, j)
  }

  /** The limit is at least the initial one metre, or some pair of one of
      the first l layers has a gap within it. */
  ghost predicate EarlierHit(sqrt: real -> real, layers: seq<seq<Hole>>, limit: real, l: int)
    requires 0 <= l <= |layers|
  {
    SweepStart <= limit || exists l' :: 0 <= l' < l && LayerHit(sqrt, layers[l'], limit)
  }

  function Sum(xs: seq<nat>): nat {
    if xs == [] then 0 else Sum(xs[..|xs| - 1]) + xs[|xs| - 1]
  }

  /** The running minimum after the first l layers. */
  function SepMin(sqrt: real -> real, layers: seq<seq<Hole>>, l: int): real
    requires 0 <= l <= |layers|
  {
    if l == 0 then SweepStart
    else LayerMin(sqrt, layers[l - 1], SepMin(sqrt, layers, l - 1), Rows(|layers[l - 1]|))
  }

  /** The `fails` of each of the first l layers. */
  function SepFails(sqrt: real -> real, layers: seq<seq<Hole>>, limit: real, l: int): seq<nat>
    requires 0 <= l <= |layers|
  {
    if l == 0 then []
    else SepFails(sqrt, layers, limit, l - 1) +
         [LayerFails(sqrt, layers[l - 1], SepMin(sqrt, layers, l - 1), limit, Rows(|layers[l - 1]|))]
  }

  /** Hole positions tagged with their layer position l. */
  function TagLayer(l: int, ks: set<int>): (r: set<(int, int)>)
    ensures forall l', k :: (l', k) in r <==> l' == l && k in ks
  {
    set k | k in ks :: (l, k)
  }

  /** The holes selected by the first l layers. */
  function SepSelected(sqrt: real -> real, layers: seq<seq<Hole>>, limit: real, l: int): set<(int, int)>
    requires 0 <= l <= |layers|
  {
    if l == 0 then {}
    else SepSelected(sqrt, layers, limit, l - 1) +
         TagLayer(l - 1, LayerSelected(sqrt, layers[l - 1], SepMin(sqrt, layers, l - 1), limit, Rows(|layers[l - 1]|)))
  }

  /** The hole separation part of DrillInfo_Worker over the layers of
      get_holes_by_layer, in dictionary order. `limit` is MinimumViaVia.
      It returns each layer's `fails`, `totalfails` and the selected
      holes as (layer position, hole position) pairs; SepFailsFacts and
      SepSelectedFacts say what they are. */
  method HoleSeparation(sqrt: real -> real, layers: seq<seq<Hole>>, limit: real)
    returns (fails: seq<nat>, totalfails: nat, selected: set<(int, int)>)
    ensures fails == SepFails(sqrt, layers, limit, |layers|) && totalfails == Sum(fails)
    ensures selected == SepSelected(sqrt, layers, limit, |layers|)
  {
    var mindist := SweepStart;
    fails := [];
    totalfails := 0;
    selected := {};
    var l := 0;
    while l < |layers|
      invariant 0 <= l <= |layers|
      invariant mindist == SepMin(sqrt, layers, l)
      invariant fails == SepFails(sqrt, layers, limit, l) && totalfails == Sum(fails)
      invariant selected == SepSelected(sqrt, layers, limit, l)
    {
      var mindist', layerfails, layerselected := SweepLayer(sqrt, layers[l], mindist, limit);
      assert (fails + [layerfails])[..|fails|] == fails;
      selected := selected + TagLayer(l, layerselected);
      fails := fails + [layerfails];
      totalfails := totalfails + layerfails;
      mindist := mindist';
      l := l + 1;
    }
  }

  /** The running minimum after l layers is within the limit exactly when
      the initial one metre is or some pair of an earlier layer has a gap
      within it. */
  lemma {:induction false} SepMinHit(sqrt: real -> real, layers: seq<seq<Hole>>, limit: real, l: int)
    requires 0 <= l <= |layers|
    ensures SepMin(sqrt, layers, l) <= limit <==> EarlierHit(sqrt, layers, limit, l)
  {
    if l > 0 {
      SepMinHit(sqrt, layers, limit, l - 1);
      SweepMinimumFacts(sqrt, layers[l - 1], SepMin(sqrt, layers, l - 1), limit);
      if LayerHit(sqrt, layers[l - 1], limit) {
        assert 0 <= l - 1 < l;
      }
    }
  }

  /** Layer l's own `fails` is positive exactly when one of its pairs
      fails in the whole sweep. */
  lemma SepLayerFails(sqrt: real -> real, layers: seq<seq<Hole>>, limit: real, l: int)
    requires 0 <= l < |layers|
    ensures LayerFails(sqrt, layers[l], SepMin(sqrt, layers, l), limit, Rows(|layers[l]|)) > 0 <==>
            exists i, j :: IsPair(|layers[l]|, i, j) && SweepPairFails(sqrt, layers, limit, l, i, j)
  {
    SweepFailsFacts(sqrt, layers[l], SepMin(sqrt, layers, l), limit);
    SepMinHit(sqrt, layers, limit, l);
  }

  /** Layer l's own selected holes are those of its pairs that fail in
      the whole sweep. */
  lemma SepLayerSelected(sqrt: real -> real, layers: seq<seq<Hole>>, limit: real, l: int)
    requires 0 <= l < |layers|
    ensures forall k :: k in LayerSelected(sqrt, layers[l], SepMin(sqrt, layers, l), limit, Rows(|layers[l]|)) <==>
              exists i, j :: IsPair(|layers[l]|, i, j) && (k == i || k == j) && SweepPairFails(sqrt, layers, limit, l, i, j)
  {
    SweepSelectedFacts(sqrt, layers[l], SepMin(sqrt, layers, l), limit);
    SepMinHit(sqrt, layers, limit, l);
  }

  /** There is one `fails` per layer, positive exactly when some pair of
      the layer fails. */
  lemma {:induction false} SepFailsFacts(sqrt: real -> real, layers: seq<seq<Hole>>, limit: real, l: int)
    requires 0 <= l <= |layers|
    ensures |SepFails(sqrt, layers, limit, l)| == l
    ensures forall l' :: 0 <= l' < l ==>
              (SepFails(sqrt, layers, limit, l)[l'] > 0 <==>
               exists i, j :: IsPair(|layers[l']|, i, j) && SweepPairFails(sqrt, layers, limit, l', i, j))
  {
    if l > 0 {
      var prev := SepFails(sqrt, layers, limit, l - 1);
      var last := LayerFails(sqrt, layers[l - 1], SepMin(sqrt, layers, l - 1), limit, Rows(|layers[l - 1]|));
      assert SepFails(sqrt, layers, limit, l) == prev + [last];
      SepFailsFacts(sqrt, layers, limit, l - 1);
      SepLayerFails(sqrt, layers, limit, l - 1);
      forall l' | 0 <= l' < l
        ensures SepFails(sqrt, layers, limit, l)[l'] > 0 <==>
                exists i, j :: IsPair(|layers[l']|, i, j) && SweepPairFails(sqrt, layers, limit, l', i, j)
      {
        if l' < l - 1 {
          assert SepFails(sqrt, layers, limit, l)[l'] == prev[l'];
        } else {
          assert SepFails(sqrt, layers, limit, l)[l'] == last;
        }
      }
    }
  }

  /** The selected holes are those of the failing pairs of every layer. */
  lemma {:induction false} SepSelectedFacts(sqrt: real -> real, layers: seq<seq<Hole>>, limit: real, l: int)
    requires 0 <= l <= |layers|
    ensures forall l', k :: (l', k) in SepSelected(sqrt, layers, limit, l) <==>
              0 <= l' < l &&
              exists i, j :: IsPair(|layers[l']|, i, j) && (k == i || k == j) && SweepPairFails(sqrt, layers, limit, l', i, j)
  {
    if l > 0 {
      var prev := SepSelected(sqrt, layers, limit, l - 1);
      var ks := LayerSelected(sqrt, layers[l - 1], SepMin(sqrt, layers, l - 1), limit, Rows(|layers[l - 1]|));
      assert SepSelected(sqrt, layers, limit, l) == prev + TagLayer(l - 1, ks);
      SepSelectedFacts(sqrt, layers, limit, l - 1);
      SepLayerSelected(sqrt, layers, limit, l - 1);
      forall l', k
        ensures (l', k) in SepSelected(sqrt, layers, limit, l) <==>
                0 <= l' < l &&
                exists i, j :: IsPair(|layers[l']|, i, j) && (k == i || k == j) && SweepPairFails(sqrt, layers, limit, l', i, j)
      {
        if l' == l - 1 {
          assert (l', k) in SepSelected(sqrt, layers, limit, l) <==> k in ks;
        } else {
          assert (l', k) in SepSelected(sqrt, layers, limit, l) <==> (l', k) in prev;
        }
      }
    }
  }

  // ------------------------------------------------------------------
  // Via to via
  // ------------------------------------------------------------------

  /** `distmin = num*[1000000000]` */
  const ViaStart: real := 1000000000.0

  /** `(dist2**(1/2.0)) - dv_i/2.0 - dv_j/2.0`: the centre distance less
      the two drill radii. */
  function ViaGap(sqrt: real -> real, vias: seq<Via>, i: int, j: int): real
    requires 0 <= i < |vias| && 0 <= j < |vias|
  {
    sqrt(Distance2(vias[i].position, vias[j].position) as real) -
    vias[i].drillValue as real / 2.0 - vias[j].drillValue as real / 2.0
  }

  /** v is the forward distance of via i over the vias before `upto`:
      the least of one metre and the gaps to vias i + 1 .. upto - 1. */
  ghost predicate IsForwardMin(sqrt: real -> real, vias: seq<Via>, i: int, upto: int, v: real)
    requires 0 <= i < |vias| && upto <= |vias|
  {
    v <= ViaStart &&
    (forall j :: i < j < upto ==> v <= ViaGap(sqrt, vias, i, j)) &&
    (v == ViaStart || exists j :: i < j < upto && v == ViaGap(sqrt, vias, i, j))
  }

  /** The inner loop `for j in range(i+1, num)` of the via distances:
      `distmin[i]` lowered to each smaller gap in turn. */
  method LowerForward(sqrt: real -> real, vias: seq<Via>, d: array<real>, i: int)
    requires d.Length == |vias| && 0 <= i < |vias| && d[i] == ViaStart
    modifies d
    ensures forall k :: 0 <= k < d.Length && k != i ==> d[k] == old(d[k])
    ensures IsForwardMin(sqrt, vias, i, |vias|, d[i])
  {
    var j := i + 1;
    while j < |vias|
      invariant i + 1 <= j <= |vias|
      invariant forall k :: 0 <= k < d.Length && k != i ==> d[k] == old(d[k])
      invariant IsForwardMin(sqrt, vias, i, j, d[i])
    {
      var dist := ViaGap(sqrt, vias, i, j);
      if dist < d[i] {
        d[i] := dist;
      }
      j := j + 1;
    }
  }

  /** The forward-only via list: `distmin[i]` is the least of one metre
      and the gaps to the vias after via i, updated in place. */
  method ViaDistances(sqrt: real -> real, vias: seq<Via>) returns (distmin: seq<real>)
    ensures |distmin| == |vias|
    ensures forall i :: 0 <= i < |vias| ==> distmin[i] <= ViaStart
    ensures forall i, j :: 0 <= i < j < |vias| ==> distmin[i] <= ViaGap(sqrt, vias, i, j)
    ensures forall i :: 0 <= i < |vias| ==>
              distmin[i] == ViaStart || exists j :: i < j < |vias| && distmin[i] == ViaGap(sqrt, vias, i, j)
  {
    var num := |vias|;
    var d := new real[num](_ => ViaStart);
    var i := 0;
    while i < num
      invariant 0 <= i <= num
      invariant forall k :: 0 <= k < i ==> IsForwardMin(sqrt, vias, k, num, d[k])
      invariant forall k :: i <= k < num ==> d[k] == ViaStart
    {
      LowerForward(sqrt, vias, d, i);
      i := i + 1;
    }
    distmin := d[..];
    assert forall i :: 0 <= i < num ==> IsForwardMin(sqrt, vias, i, num, distmin[i]);
  }

  /** The last via has no via after it and keeps the initial one metre. */
  lemma LastViaKeepsStart(sqrt: real -> real, vias: seq<Via>, distmin: seq<real>)
    requires |vias| > 0 && |distmin| == |vias|
    requires forall i :: 0 <= i < |vias| ==>
               distmin[i] == ViaStart || exists j :: i < j < |vias| && distmin[i] == ViaGap(sqrt, vias, i, j)
    ensures distmin[|vias| - 1] == ViaStart
  {
  }

  /** `FailedVias`: in increasing order, the vias whose forward distance
      is below MinimumViaVia; the same vias are highlighted. */
  method FailedVias(distmin: seq<real>, limit: real) returns (failed: seq<int>)
    ensures forall a, b :: 0 <= a < b < |failed| ==> failed[a] < failed[b]
    ensures forall i :: i in failed <==> 0 <= i < |distmin| && distmin[i] < limit
  {
    failed := [];
    var i := 0;
    while i < |distmin|
      invariant 0 <= i <= |distmin|
      invariant forall k :: 0 <= k < |failed| ==> 0 <= failed[k] < i
      invariant forall a, b :: 0 <= a < b < |failed| ==> failed[a] < failed[b]
      invariant forall k :: k in failed <==> 0 <= k < i && distmin[k] < limit
    {
      if distmin[i] < limit {
        failed := failed + [i];
      }
      i := i + 1;
    }
  }

  // ------------------------------------------------------------------
  // Via to track
  // ------------------------------------------------------------------

  /** `dist - (track.GetWidth() + d)/2.0`: the distance from the via
      centre to the track's centre line, less half the track width and
      half the via drill. */
  function Reduced(mindist: (Point, Point, Point) -> real, via: Via, track: Track): real
  {
    mindist(via.position, track.start, track.end) - (track.width + via.drillValue) as real / 2.0
  }

  /** A (via, track) pair is reported: the track is not a via, the nets
      differ, the raw distance is not 0, and the reduced distance is more
      than 1000 nm away from zero and below MinimumViaTrack. */
  predicate TooCloseToTrack(mindist: (Point, Point, Point) -> real, via: Via, track: Track, limit: real)
  {
    !track.isVia && via.net != track.net && mindist(via.position, track.start, track.end) != 0.0 &&
    AbsReal(Reduced(mindist, via, track)) > 1000.0 && Reduced(mindist, via, track) < limit
  }

  /** Some track reported against the via has a negative reduced
      distance: the via ends up selected. */
  ghost predicate ViaSelected(mindist: (Point, Point, Point) -> real, via: Via, tracks: seq<Track>, limit: real) {
    exists t :: 0 <= t < |tracks| && TooCloseToTrack(mindist, via, tracks[t], limit) && Reduced(mindist, via, tracks[t]) < 0.0
  }

  /** The inner loop over the tracks for one via: the tracks reported
      against it and whether it ends up selected. */
  method TracksNearVia(mindist: (Point, Point, Point) -> real, v: int, via: Via, tracks: seq<Track>, limit: real)
    returns (near: set<int>, pairs: set<(int, int)>, selectVia: bool)
    ensures forall t :: t in near <==> 0 <= t < |tracks| && TooCloseToTrack(mindist, via, tracks[t], limit)
    ensures forall v', t :: (v', t) in pairs <==> v' == v && t in near
    ensures selectVia <==> ViaSelected(mindist, via, tracks, limit)
  {
    near := {};
    pairs := {};
    selectVia := false;
    var t := 0;
    while t < |tracks|
      invariant 0 <= t <= |tracks|
      invariant forall t' :: t' in near <==> 0 <= t' < t && TooCloseToTrack(mindist, via, tracks[t'], limit)
      invariant forall v', t' :: (v', t') in pairs <==> v' == v && t' in near
      invariant selectVia <==>
                  exists t' :: 0 <= t' < t && TooCloseToTrack(mindist, via, tracks[t'], limit) && Reduced(mindist, via, tracks[t']) < 0.0
    {
      var track := tracks[t];
      if !track.isVia && via.net != track.net {
        var dist := mindist(via.position, track.start, track.end);
        if dist != 0.0 {
          var reduced := dist - (track.width + via.drillValue) as real / 2.0;
          if AbsReal(reduced) > 1000.0 && reduced < limit {
            if reduced < 0.0 {
              selectVia := true;
            }
            near := near + {t};
            pairs := pairs + {(v, t)};
          }
        }
      }
      t := t + 1;
    }
  }

  /** Track t is reported against one of the first m vias. */
  ghost predicate NearSomeVia(mindist: (Point, Point, Point) -> real, vias: seq<Via>, tracks: seq<Track>, limit: real, t: int, m: int)
    requires 0 <= t < |tracks| && 0 <= m <= |vias|
  {
    exists v :: 0 <= v < m && TooCloseToTrack(mindist, vias[v], tracks[t], limit)
  }

  /** The via to track part of DrillInfo_Worker: the reported
      (via, track) pairs (FailedViaTracks, without its messages), the
      tracks of those pairs (FailedTracks, all of which end up selected)
      and the selected vias, those of a reported pair whose reduced
      distance is negative. */
  method ViasNearTracks(mindist: (Point, Point, Point) -> real, vias: seq<Via>, tracks: seq<Track>, limit: real)
    returns (reported: set<(int, int)>, failedTracks: set<int>, selectedVias: set<int>)
    ensures forall v, t :: (v, t) in reported <==>
              0 <= v < |vias| && 0 <= t < |tracks| && TooCloseToTrack(mindist, vias[v], tracks[t], limit)
    ensures forall t :: t in failedTracks <==>
              0 <= t < |tracks| && exists v :: 0 <= v < |vias| && TooCloseToTrack(mindist, vias[v], tracks[t], limit)
    ensures forall v :: v in selectedVias <==> 0 <= v < |vias| && ViaSelected(mindist, vias[v], tracks, limit)
  {
    reported := {};
    failedTracks := {};
    selectedVias := {};
    var v := 0;
    while v < |vias|
      invariant 0 <= v <= |vias|
      invariant forall v', t :: (v', t) in reported <==>
                  0 <= v' < v && 0 <= t < |tracks| && TooCloseToTrack(mindist, vias[v'], tracks[t], limit)
      invariant forall t :: t in failedTracks <==> 0 <= t < |tracks| && NearSomeVia(mindist, vias, tracks, limit, t, v)
      invariant forall v' :: v' in selectedVias <==> 0 <= v' < v && ViaSelected(mindist, vias[v'], tracks, limit)
    {
      var via := vias[v];
      var near, pairs, selectVia := TracksNearVia(mindist, v, via, tracks, limit);
      forall t | 0 <= t < |tracks|
        ensures NearSomeVia(mindist, vias, tracks, limit, t, v + 1) <==>
                NearSomeVia(mindist, vias, tracks, limit, t, v) || TooCloseToTrack(mindist, via, tracks[t], limit)
      {
        if TooCloseToTrack(mindist, via, tracks[t], limit) {
          assert TooCloseToTrack(mindist, vias[v], tracks[t], limit);
        }
      }
      reported := reported + pairs;
      failedTracks := failedTracks + near;
      if selectVia {
        selectedVias := selectedVias + {v};
      }
      forall v', t | (v', t) in reported
        ensures 0 <= v' <= v && 0 <= t < |tracks| && TooCloseToTrack(mindist, vias[v'], tracks[t], limit)
      {
      }
      forall v' | 0 <= v' <= v
        ensures v' in selectedVias <==> ViaSelected(mindist, vias[v'], tracks, limit)
      {
      }
      v := v + 1;
    }
  }

  // ------------------------------------------------------------------
  // Standard drills
  // ------------------------------------------------------------------

  /** `standarddrillsize >= padsize[0]` for entry k of the drill table,
      whose sizes are multiplied by the table's scale. */
  predicate Fits(table: seq<real>, scale: real, padsize: int, k: int)
    requires 0 <= k < |table|
  {
    table[k] * scale >= padsize as real
  }

  /** The loop over the drill table that stops at the first standard
      drill at least as large as the hole: its position, or None when
      no entry is large enough. */
  method FirstStandardDrill(table: seq<real>, scale: real, padsize: int) returns (found: Option<int>)
    ensures found.Some? ==>
              0 <= found.value < |table| && Fits(table, scale, padsize, found.value) &&
              forall k :: 0 <= k < found.value ==> !Fits(table, scale, padsize, k)
    ensures found.None? <==> forall k :: 0 <= k < |table| ==> !Fits(table, scale, padsize, k)
  {
    var k := 0;
    while k < |table|
      invariant 0 <= k <= |table|
      invariant forall k' :: 0 <= k' < k ==> !Fits(table, scale, padsize, k')
    {
      var standarddrillsize := table[k] * scale;
      if standarddrillsize >= padsize as real {
        assert Fits(table, scale, padsize, k);
        return Some(k);
      }
      k := k + 1;
    }
    return None;
  }

  /** `not ( drillmin <= standarddrillsize <= drillmax )` */
  predicate ExceedsLimits(standarddrillsize: real, drillmin: real, drillmax: real) {
    !(drillmin <= standarddrillsize <= drillmax)
  }

  /** One reported line of the standard drill listing: the hole size, the
      table position of its drill and whether that drill exceeds the
      drill limits. */
  datatype DrillRow = DrillRow(size: Size, drill: int, exceeds: bool)

  /** A reported row is right: its size is a hole size other than (0, 0),
      its drill is the first table entry that fits, and `exceeds` says
      whether that drill lies outside the limits. */
  ghost predicate RowCorrect(table: seq<real>, scale: real, padsizes: seq<Size>, drillmin: real, drillmax: real, r: DrillRow) {
    r.size in padsizes && r.size != Size(0, 0) && 0 <= r.drill < |table| &&
    Fits(table, scale, r.size.x, r.drill) && (forall k :: 0 <= k < r.drill ==> !Fits(table, scale, r.size.x, k)) &&
    r.exceeds == ExceedsLimits(table[r.drill] * scale, drillmin, drillmax)
  }

  /** A hole size that gets a row: not (0, 0), and some entry fits it. */
  ghost predicate Listed(table: seq<real>, scale: real, p: Size) {
    p != Size(0, 0) && exists k :: 0 <= k < |table| && Fits(table, scale, p.x, k)
  }

  /** Some row is for hole size p. */
  ghost predicate HasRow(rows: seq<DrillRow>, p: Size) {
    exists j :: 0 <= j < |rows| && rows[j].size == p
  }

  /** The standard drill listing over the hole sizes of padHolesBySize,
      in the order given. Size (0, 0) is skipped, and so is a size no
      table entry fits. The drill limits are the drillmin and drillmax
      fields read with `or 0.0` and `or 1000*IU_PER_MM`. */
  method StandardDrills(table: seq<real>, scale: real, padsizes: seq<Size>,
                        drillminField: Option<real>, drillmaxField: Option<real>) returns (rows: seq<DrillRow>)
    ensures forall r :: r in rows ==>
              RowCorrect(table, scale, padsizes, OrDefault(drillminField, 0.0), OrDefault(drillmaxField, 1000000000.0), r)
    ensures forall p :: p in padsizes && Listed(table, scale, p) ==> HasRow(rows, p)
  {
    var drillmin := OrDefault(drillminField, 0.0);
    var drillmax := OrDefault(drillmaxField, 1000000000.0);
    rows := [];
    var n := 0;
    while n < |padsizes|
      invariant 0 <= n <= |padsizes|
      invariant forall r :: r in rows ==> RowCorrect(table, scale, padsizes, drillmin, drillmax, r)
      invariant forall n' :: 0 <= n' < n && Listed(table, scale, padsizes[n']) ==> HasRow(rows, padsizes[n'])
    {
      var padsize := padsizes[n];
      if padsize != Size(0, 0) {
        var found := FirstStandardDrill(table, scale, padsize.x);
        if found.Some? {
          var standarddrillsize := table[found.value] * scale;
          var row := DrillRow(padsize, found.value, ExceedsLimits(standarddrillsize, drillmin, drillmax));
          assert table[row.drill] * scale == standarddrillsize;
          assert RowCorrect(table, scale, padsizes, drillmin, drillmax, row);
          var prev := rows;
          rows := rows + [row];
          assert rows[|prev|].size == padsize;
          forall n' | 0 <= n' <= n && Listed(table, scale, padsizes[n'])
            ensures HasRow(rows, padsizes[n'])
          {
            if n' < n {
              var j :| 0 <= j < |prev| && prev[j].size == padsizes[n'];
              assert rows[j] == prev[j];
            }
          }
        }
      }
      n := n + 1;
    }
    forall p | p in padsizes && Listed(table, scale, p)
      ensures HasRow(rows, p)
    {
      var n' :| 0 <= n' < |padsizes| && padsizes[n'] == p;
    }
  }
}
