/** The silk screen rules of KiPadCheck.SilkInfo_Worker: the width, height
    and aspect thresholds for texts, the width threshold for graphic
    items, and the tiered test of texts and graphic lines against the
    copper pads of the same side. Pad and text outlines are the closed
    polygons the rotated-corner builders return; text strokes are the
    point vector of TransformTextShapeToSegmentList, two points per
    stroke. Selection becomes sets of (layer position, item position)
    pairs. The geometric measures are a parameter (see Measures). */
module Silk {

  import opened Wrappers
  import opened Geometry

  /** A text on a silk layer: its stroke thickness and height, its
      outline (get_corners_rotated_text) and its strokes. */
  datatype Text = Text(thickness: int, height: int, outline: seq<Point>, strokes: seq<Point>)

  /** A graphic item on a silk layer. `hasWidth` is false when GetWidth
      raises; `hasShape` is false when the item has no GetShapeStr. */
  datatype Graphic = Graphic(hasWidth: bool, width: int, hasShape: bool, isLine: bool, start: Point, end: Point)

  // ------------------------------------------------------------------
  // Thresholds
  // ------------------------------------------------------------------

  /** A text is selected when it is too narrow (thickness below `smw`),
      too short (height below `tmh`) or too tall for its width
      (`w * USER_text_minimum_WtoH < h`). */
  predicate TextFails(text: Text, smw: real, tmh: real, ratio: real) {
    (text.thickness as real) < smw || (text.height as real) < tmh ||
    text.thickness as real * ratio < text.height as real
  }

  /** A graphic item is selected when it has a width below `smw`. */
  predicate GraphicTooNarrow(g: Graphic, smw: real) {
    g.hasWidth && (g.width as real) < smw
  }

  /** The threshold loop over the texts of every silk layer, with its
      `fail` flag. */
  method CheckTexts(texts: seq<seq<Text>>, smw: real, tmh: real, ratio: real) returns (selected: set<(int, int)>)
    ensures forall l, i :: (l, i) in selected <==>
              0 <= l < |texts| && 0 <= i < |texts[l]| && TextFails(texts[l][i], smw, tmh, ratio)
  {
    selected := {};
    var l := 0;
    while l < |texts|
      invariant 0 <= l <= |texts|
      invariant forall l', i :: (l', i) in selected <==>
                  0 <= l' < l && 0 <= i < |texts[l']| && TextFails(texts[l'][i], smw, tmh, ratio)
    {
      var items := texts[l];
      var i := 0;
      while i < |items|
        invariant 0 <= i <= |items|
        invariant forall l', i' :: (l', i') in selected <==>
                    ((0 <= l' < l && 0 <= i' < |texts[l']|) || (l' == l && 0 <= i' < i)) &&
                    TextFails(texts[l'][i'], smw, tmh, ratio)
      {
        var item := items[i];
        var w := item.thickness;
        var h := item.height;
        var fail := false;
        if (w as real) < smw {
          fail := true;
        }
        if (h as real) < tmh {
          fail := true;
        }
        if w as real * ratio < h as real {
          fail := true;
        }
        if fail {
          selected := selected + {(l, i)};
        }
        i := i + 1;
      }
      l := l + 1;
    }
  }

  /** The width loop over the graphic items of every silk layer; an item
      whose GetWidth raises is passed over. */
  method CheckGraphics(graphics: seq<seq<Graphic>>, smw: real) returns (selected: set<(int, int)>)
    ensures forall l, i :: (l, i) in selected <==>
              0 <= l < |graphics| && 0 <= i < |graphics[l]| && GraphicTooNarrow(graphics[l][i], smw)
  {
    selected := {};
    var l := 0;
    while l < |graphics|
      invariant 0 <= l <= |graphics|
      invariant forall l', i :: (l', i) in selected <==>
                  0 <= l' < l && 0 <= i < |graphics[l']| && GraphicTooNarrow(graphics[l'][i], smw)
    {
      var items := graphics[l];
      var i := 0;
      while i < |items|
        invariant 0 <= i <= |items|
        invariant forall l', i' :: (l', i') in selected <==>
                    ((0 <= l' < l && 0 <= i' < |graphics[l']|) || (l' == l && 0 <= i' < i)) &&
                    GraphicTooNarrow(graphics[l'][i'], smw)
      {
        var item := items[i];
        if item.hasWidth && (item.width as real) < smw {
          selected := selected + {(l, i)};
        }
        i := i + 1;
      }
      l := l + 1;
    }
  }

  // ------------------------------------------------------------------
  // The W/H ratio
  // ------------------------------------------------------------------

  /** USER_text_minimum_WtoH as written: `float()` of the value of the
      "dao" control, which is the Draw All Outlines check box, so the
      ratio is 1.0 or 0.0 and the "wtoh" entry is never read. */
  function TextMinimumWtoHAsWritten(drawAllOutlines: bool): (ratio: real)
    ensures ratio == 0.0 || ratio == 1.0
  {
    if drawAllOutlines then 1.0 else 0.0
  }

  /** With the check box cleared, every text of positive height is
      reported as too tall for its width, whatever its thickness and
      whatever the "wtoh" entry says. */
  lemma AsWrittenFailsEveryText(text: Text, smw: real, tmh: real)
    requires text.height > 0
    ensures TextFails(text, smw, tmh, TextMinimumWtoHAsWritten(false))
  {
    assert text.thickness as real * 0.0 == 0.0;
  }

  /** USER_text_minimum_WtoH as intended: the "wtoh" entry (labelled
      "Thickness / Height = 1 /" in the dialog) read as a float, and 1.0
      when it does not parse (the ValueError branch). `wtoh` is None when
      float() raises. */
  function TextMinimumWtoH(wtoh: Option<real>): (ratio: real)
    ensures wtoh.None? ==> ratio == 1.0
    ensures wtoh.Some? ==> ratio == wtoh.value
  {
    match wtoh
    case Some(r) => r
    case None => 1.0
  }

  /** With the intended ratio r > 0 from the entry, a text of positive
      size passes the aspect test exactly when its width to height ratio
      is at least 1/r, as the entry's label promises. */
  lemma IntendedAspectRule(text: Text, r: real)
    requires r > 0.0 && text.thickness > 0 && text.height > 0
    ensures !(text.thickness as real * TextMinimumWtoH(Some(r)) < text.height as real) <==>
            text.thickness as real / text.height as real >= 1.0 / r
  {
    var w := text.thickness as real;
    var h := text.height as real;
    assert w / h >= 1.0 / r <==> w * r >= h by {
      assert w / h * (h * r) == w * r;
      assert 1.0 / r * (h * r) == h;
      ScaleKeepsOrder(w / h, 1.0 / r, h * r);
    }
  }

  /** Multiplying both sides by a positive factor keeps their order. */
  lemma ScaleKeepsOrder(a: real, b: real, c: real)
    requires c > 0.0
    ensures a >= b <==> a * c >= b * c
  {
    if a >= b {
      assert a * c - b * c == (a - b) * c;
    } else {
      assert b * c - a * c == (b - a) * c;
    }
  }

  // ------------------------------------------------------------------
  // Geometric measures
  // ------------------------------------------------------------------

  /** The three measurements the pad checks make: the separating-axis
      test (check_polygons_intersecting, with its `closed` flag), the
      distance between two polygons (mindistance_polygon_polygon) and the
      distance from a line to a polygon (mindistance_line_polygon). The
      rules below take them as a value; SilkGeometry.SilkMeasures supplies
      the definitions of the geometry modules. */
  datatype Measures = Measures(intersect: (seq<Point>, seq<Point>, bool) -> bool,
                               polygonDistance: (seq<Point>, seq<Point>) -> real,
                               lineDistance: (Segment, seq<Point>) -> real)

  // ------------------------------------------------------------------
  // Texts against pads
  // ------------------------------------------------------------------

  /** `1000000000*1000000000`, and `(1000 * pcbnew.IU_PER_MM)` squared:
      one metre squared in square nanometres. */
  const FarSquared: real := 1000000000000000000.0

  /** `(dist - half)**2.0`: a distance less half a width, squared. */
  function Clearance2(dist: real, half: real): (r: real)
    ensures r >= 0.0
  {
    var x := dist - half;
    if x >= 0.0 then x * x else (-x) * (-x)
  }

  /** The first tier: 0 when the pad and the text outline intersect,
      otherwise with the slow check the distance between the outline and
      the pad less half the text thickness, squared, otherwise one metre
      squared. */
  function OutlineDistance2(m: Measures, pad: seq<Point>, text: Text, slow: bool): real {
    if m.intersect(pad, text.outline, true) then 0.0
    else if slow then Clearance2(m.polygonDistance(text.outline, pad), text.thickness as real / 2.0)
    else FarSquared
  }

  /** `range(0, len(vectors)-1, 2)`: the strokes start at even positions
      and the last point of an odd-length vector is never used. */
  predicate IsStroke(strokes: seq<Point>, k: int) {
    0 <= k < |strokes| - 1 && k % 2 == 0
  }

  /** Stroke k, as an open two-point polygon, intersects the pad. */
  predicate StrokeHits(m: Measures, pad: seq<Point>, strokes: seq<Point>, k: int)
    requires IsStroke(strokes, k)
  {
    m.intersect([strokes[k], strokes[k + 1]], pad, false)
  }

  /** The slow per-stroke term: the distance from stroke k to the pad
      less half the thickness, squared, where the thickness is halved
      with Python 2 integer division. */
  function StrokeDistance2(m: Measures, pad: seq<Point>, text: Text, k: int): real
    requires IsStroke(text.strokes, k)
  {
    Clearance2(m.lineDistance(Segment(text.strokes[k], text.strokes[k + 1]), pad), (text.thickness / 2) as real)
  }

  /** The decision the tiered test reaches for one pad and one text:
      the outline tier is within the spacing, and then a stroke hits the
      pad, or one metre is within the spacing, or with the slow check
      some stroke is within the spacing. */
  ghost predicate TextNearPad(m: Measures, pad: seq<Point>, text: Text, spacing: real, slow: bool) {
    var sp2 := spacing * spacing;
    OutlineDistance2(m, pad, text, slow) <= sp2 &&
    ((exists k :: IsStroke(text.strokes, k) && StrokeHits(m, pad, text.strokes, k)) ||
     FarSquared <= sp2 ||
     (slow && exists k :: IsStroke(text.strokes, k) && StrokeDistance2(m, pad, text, k) <= sp2))
  }

  /** The position of the last stroke of a vector of n >= 2 points. */
  function LastStroke(n: int): (k: int)
    requires n >= 2
    ensures 0 <= k < n - 1 && k % 2 == 0 && k + 2 >= n - 1
  {
    ((n - 2) / 2) * 2
  }

  /** Check 3: the strokes in order, each as an open two-point polygon,
      until the first one that intersects the pad. */
  method StrokeHitTier(m: Measures, pad: seq<Point>, strokes: seq<Point>) returns (hit: bool)
    ensures hit <==> exists k :: IsStroke(strokes, k) && StrokeHits(m, pad, strokes, k)
  {
    hit := false;
    var k := 0;
    while k < |strokes| - 1
      invariant 0 <= k && k % 2 == 0 && (k <= |strokes| || k == 0)
      invariant forall k' :: IsStroke(strokes, k') && k' < k ==> !StrokeHits(m, pad, strokes, k')
    {
      if m.intersect([strokes[k], strokes[k + 1]], pad, false) {
        assert StrokeHits(m, pad, strokes, k);
        hit := true;
        return;
      }
      k := k + 2;
    }
  }

  /** Check 4 with the slow check: the strokes in order until the first
      one within the spacing. Without such a stroke the result is the
      last stroke's term, not the smallest one; without strokes it stays
      one metre squared. The source reaches this loop only when one metre
      squared is beyond the spacing. */
  method StrokeDistanceTier(m: Measures, pad: seq<Point>, text: Text, sp2: real) returns (mindist2: real)
    requires sp2 < FarSquared
    ensures mindist2 <= sp2 <==> exists k :: IsStroke(text.strokes, k) && StrokeDistance2(m, pad, text, k) <= sp2
    ensures |text.strokes| < 2 ==> mindist2 == FarSquared
    ensures |text.strokes| >= 2 && mindist2 > sp2 ==> mindist2 == StrokeDistance2(m, pad, text, LastStroke(|text.strokes|))
  {
    var strokes := text.strokes;
    mindist2 := FarSquared;
    var k := 0;
    while k < |strokes| - 1
      invariant 0 <= k && k % 2 == 0 && (k <= |strokes| || k == 0)
      invariant forall k' :: IsStroke(strokes, k') && k' < k ==> StrokeDistance2(m, pad, text, k') > sp2
      invariant k == 0 ==> mindist2 == FarSquared
      invariant k > 0 ==> IsStroke(strokes, k - 2) && mindist2 == StrokeDistance2(m, pad, text, k - 2)
      invariant mindist2 > sp2
    {
      var line := Segment(strokes[k], strokes[k + 1]);
      mindist2 := Clearance2(m.lineDistance(line, pad), (text.thickness / 2) as real);
      assert mindist2 == StrokeDistance2(m, pad, text, k);
      if mindist2 <= sp2 {
        return;
      }
      k := k + 2;
    }
    if |strokes| >= 2 {
      assert k - 2 == LastStroke(|strokes|);
    }
  }

  /** The four checks for one pad and one text, with their `break`s. It
      returns whether the pair fails and the final `mindist2`. When the
      slow loop over the strokes finds none within the spacing,
      `mindist2` is the last stroke's term, not the smallest one. */
  method TextPadCheck(m: Measures, pad: seq<Point>, text: Text, spacing: real, slow: bool)
    returns (fails: bool, mindist2: real)
    ensures fails <==> mindist2 <= spacing * spacing
    ensures fails <==> TextNearPad(m, pad, text, spacing, slow)
    ensures slow && OutlineDistance2(m, pad, text, slow) <= spacing * spacing && spacing * spacing < FarSquared &&
            |text.strokes| >= 2 && !fails ==>
              mindist2 == StrokeDistance2(m, pad, text, LastStroke(|text.strokes|))
  {
    var sp2 := spacing * spacing;
    mindist2 := FarSquared;
    if m.intersect(pad, text.outline, true) {
      mindist2 := 0.0;
    } else if slow {
      mindist2 := Clearance2(m.polygonDistance(text.outline, pad), text.thickness as real / 2.0);
    }
    assert mindist2 == OutlineDistance2(m, pad, text, slow);
    if mindist2 <= sp2 {
      mindist2 := FarSquared;
      var hit := StrokeHitTier(m, pad, text.strokes);
      if hit {
        mindist2 := 0.0;
      }
      if slow && mindist2 > sp2 {
        mindist2 := StrokeDistanceTier(m, pad, text, sp2);
      }
    }
    fails := mindist2 <= sp2;
  }

  /** The number of texts that fail against one pad: what the inner loop
      over the texts adds to `failed`. */
  ghost function TextFailCount(m: Measures, pad: seq<Point>, texts: seq<Text>, spacing: real, slow: bool): nat
    decreases |texts|
  {
    if |texts| == 0 then 0
    else TextFailCount(m, pad, texts[..|texts| - 1], spacing, slow) +
         (if TextNearPad(m, pad, texts[|texts| - 1], spacing, slow) then 1 else 0)
  }

  /** At most one failure per text, and at least one exactly when some
      text fails against the pad. */
  lemma {:induction false} TextFailCountBounds(m: Measures, pad: seq<Point>, texts: seq<Text>, spacing: real, slow: bool)
    ensures TextFailCount(m, pad, texts, spacing, slow) <= |texts|
    ensures TextFailCount(m, pad, texts, spacing, slow) > 0 <==>
              exists t :: 0 <= t < |texts| && TextNearPad(m, pad, texts[t], spacing, slow)
    decreases |texts|
  {
    if |texts| > 0 {
      var init := texts[..|texts| - 1];
      TextFailCountBounds(m, pad, init, spacing, slow);
      assert forall t :: 0 <= t < |init| ==> init[t] == texts[t];
    }
  }

  /** The inner loop over the texts for one pad: the texts that fail
      against it, as (layer, text) pairs for the layer at position l. */
  method TextsNearPad(m: Measures, l: int, pad: seq<Point>, texts: seq<Text>, spacing: real, slow: bool)
    returns (near: set<(int, int)>, count: nat)
    ensures forall l', t :: (l', t) in near <==> l' == l && 0 <= t < |texts| && TextNearPad(m, pad, texts[t], spacing, slow)
    ensures count == TextFailCount(m, pad, texts, spacing, slow)
    ensures count > 0 <==> exists t :: 0 <= t < |texts| && TextNearPad(m, pad, texts[t], spacing, slow)
  {
    near := {};
    count := 0;
    var t := 0;
    while t < |texts|
      invariant 0 <= t <= |texts|
      invariant forall l', t' :: (l', t') in near <==> l' == l && 0 <= t' < t && TextNearPad(m, pad, texts[t'], spacing, slow)
      invariant count == TextFailCount(m, pad, texts[..t], spacing, slow)
      invariant count > 0 <==> exists t' :: 0 <= t' < t && TextNearPad(m, pad, texts[t'], spacing, slow)
    {
      var fails, _ := TextPadCheck(m, pad, texts[t], spacing, slow);
      assert texts[..t + 1][..t] == texts[..t];
      if fails {
        near := near + {(l, t)};
        count := count + 1;
      }
      t := t + 1;
    }
    assert texts[..t] == texts;
  }

  // ------------------------------------------------------------------
  // Graphic lines against pads
  // ------------------------------------------------------------------

  /** `mindist2` for a "Line" graphic and a pad: 0 when the line, as an
      open two-point polygon, intersects the pad; otherwise with the slow
      check the distance from the line to the pad less half its width,
      squared; otherwise one metre squared. */
  function GraphicDistance2(m: Measures, g: Graphic, pad: seq<Point>, slow: bool): real {
    if m.intersect([g.start, g.end], pad, false) then 0.0
    else if slow then Clearance2(m.lineDistance(Segment(g.start, g.end), pad), g.width as real / 2.0)
    else FarSquared
  }

  /** A graphic and a pad fail: the graphic has a shape, the shape is
      "Line" (the others are reported as not checked), and its
      `mindist2` is within the spacing squared. */
  predicate GraphicNearPad(m: Measures, g: Graphic, pad: seq<Point>, spacing: real, slow: bool) {
    g.hasShape && g.isLine && GraphicDistance2(m, g, pad, slow) <= spacing * spacing
  }

  /** Graphic g fails against some pad of the side. */
  ghost predicate GraphicFails(m: Measures, g: Graphic, pads: seq<seq<Point>>, spacing: real, slow: bool) {
    exists p :: 0 <= p < |pads| && GraphicNearPad(m, g, pads[p], spacing, slow)
  }

  /** The number of pads a graphic item fails against: what the loop over
      the pads adds to `failed` for that item. */
  function PadFailCount(m: Measures, g: Graphic, pads: seq<seq<Point>>, spacing: real, slow: bool): nat
    decreases |pads|
  {
    if |pads| == 0 then 0
    else PadFailCount(m, g, pads[..|pads| - 1], spacing, slow) +
         (if GraphicNearPad(m, g, pads[|pads| - 1], spacing, slow) then 1 else 0)
  }

  /** At most one failure per pad, and at least one exactly when the item
      fails against some pad; an item that is not a line never fails. */
  lemma {:induction false} PadFailCountBounds(m: Measures, g: Graphic, pads: seq<seq<Point>>, spacing: real, slow: bool)
    ensures PadFailCount(m, g, pads, spacing, slow) <= |pads|
    ensures PadFailCount(m, g, pads, spacing, slow) > 0 <==> GraphicFails(m, g, pads, spacing, slow)
    ensures !g.hasShape || !g.isLine ==> PadFailCount(m, g, pads, spacing, slow) == 0
    decreases |pads|
  {
    if |pads| > 0 {
      var init := pads[..|pads| - 1];
      PadFailCountBounds(m, g, init, spacing, slow);
      assert forall p :: 0 <= p < |init| ==> init[p] == pads[p];
    }
  }

  /** The loop over the pads for one graphic item: the pads it fails
      against and their number. */
  method PadsNearGraphic(m: Measures, g: Graphic, pads: seq<seq<Point>>, spacing: real, slow: bool)
    returns (near: set<int>, count: nat)
    ensures forall p :: p in near <==> 0 <= p < |pads| && GraphicNearPad(m, g, pads[p], spacing, slow)
    ensures count == PadFailCount(m, g, pads, spacing, slow)
    ensures count > 0 <==> GraphicFails(m, g, pads, spacing, slow)
  {
    near := {};
    count := 0;
    if !g.hasShape || !g.isLine {
      PadFailCountBounds(m, g, pads, spacing, slow);
      return;
    }
    var p := 0;
    while p < |pads|
      invariant 0 <= p <= |pads|
      invariant forall p' :: p' in near <==> 0 <= p' < p && GraphicNearPad(m, g, pads[p'], spacing, slow)
      invariant count == PadFailCount(m, g, pads[..p], spacing, slow)
      invariant count > 0 <==> exists p' :: 0 <= p' < p && GraphicNearPad(m, g, pads[p'], spacing, slow)
    {
      assert pads[..p + 1][..p] == pads[..p];
      var pad := pads[p];
      var mindist2 := FarSquared;
      if m.intersect([g.start, g.end], pad, false) {
        mindist2 := 0.0;
      } else if slow {
        mindist2 := Clearance2(m.lineDistance(Segment(g.start, g.end), pad), g.width as real / 2.0);
      }
      assert mindist2 == GraphicDistance2(m, g, pad, slow);
      if mindist2 <= spacing * spacing {
        near := near + {p};
        count := count + 1;
      }
      p := p + 1;
    }
    assert pads[..p] == pads;
  }

  // ------------------------------------------------------------------
  // One side of the board
  // ------------------------------------------------------------------

  /** A pad fails against some text of the side. */
  ghost predicate PadNearText(m: Measures, pad: seq<Point>, texts: seq<Text>, spacing: real, slow: bool) {
    exists t :: 0 <= t < |texts| && TextNearPad(m, pad, texts[t], spacing, slow)
  }

  /** A pad fails against some graphic line of the side. */
  ghost predicate PadNearGraphic(m: Measures, pad: seq<Point>, graphics: seq<Graphic>, spacing: real, slow: bool) {
    exists g :: 0 <= g < |graphics| && GraphicNearPad(m, graphics[g], pad, spacing, slow)
  }

  /** Pad p of a side fails against some text or some graphic line. */
  ghost predicate PadFails(m: Measures, pads: seq<seq<Point>>, texts: seq<Text>, graphics: seq<Graphic>,
                           spacing: real, slow: bool, p: int)
    requires 0 <= p < |pads|
  {
    PadNearText(m, pads[p], texts, spacing, slow) || PadNearGraphic(m, pads[p], graphics, spacing, slow)
  }

  /** The number of failing pad and text pairs of a side: the pads in
      order, each with its TextFailCount. */
  ghost function PairFailCount(m: Measures, pads: seq<seq<Point>>, texts: seq<Text>, spacing: real, slow: bool): nat
    decreases |pads|
  {
    if |pads| == 0 then 0
    else PairFailCount(m, pads[..|pads| - 1], texts, spacing, slow) +
         TextFailCount(m, pads[|pads| - 1], texts, spacing, slow)
  }

  /** At most one failure per pair checked, and at least one exactly when
      some pad and text pair fails. */
  lemma {:induction false} PairFailCountBounds(m: Measures, pads: seq<seq<Point>>, texts: seq<Text>, spacing: real,
                                               slow: bool)
    ensures PairFailCount(m, pads, texts, spacing, slow) <= |pads| * |texts|
    ensures PairFailCount(m, pads, texts, spacing, slow) > 0 <==>
              exists p, t :: 0 <= p < |pads| && 0 <= t < |texts| && TextNearPad(m, pads[p], texts[t], spacing, slow)
    decreases |pads|
  {
    if |pads| > 0 {
      var init := pads[..|pads| - 1];
      PairFailCountBounds(m, init, texts, spacing, slow);
      TextFailCountBounds(m, pads[|pads| - 1], texts, spacing, slow);
      assert forall p :: 0 <= p < |init| ==> init[p] == pads[p];
      assert (|pads| - 1) * |texts| + |texts| == |pads| * |texts|;
    }
  }

  /** One more pad adds its own TextFailCount. */
  lemma PairFailCountStep(m: Measures, pads: seq<seq<Point>>, texts: seq<Text>, spacing: real, slow: bool, p: nat)
    requires p < |pads|
    ensures PairFailCount(m, pads[..p + 1], texts, spacing, slow) ==
            PairFailCount(m, pads[..p], texts, spacing, slow) + TextFailCount(m, pads[p], texts, spacing, slow)
  {
    assert pads[..p + 1][..p] == pads[..p];
  }

  /** The loop over the pads of a side with the inner loop over its
      texts. */
  method PadsAgainstTexts(m: Measures, l: int, pads: seq<seq<Point>>, texts: seq<Text>, spacing: real, slow: bool)
    returns (failed: nat, selectedPads: set<int>, selectedTexts: set<(int, int)>, checked: nat)
    ensures checked == |pads| * |texts|
    ensures failed == PairFailCount(m, pads, texts, spacing, slow)
    ensures failed > 0 <==>
              exists p, t :: 0 <= p < |pads| && 0 <= t < |texts| && TextNearPad(m, pads[p], texts[t], spacing, slow)
    ensures forall p :: p in selectedPads <==>
              0 <= p < |pads| && exists t :: 0 <= t < |texts| && TextNearPad(m, pads[p], texts[t], spacing, slow)
    ensures forall l', t :: (l', t) in selectedTexts <==>
              l' == l && 0 <= t < |texts| && exists p :: 0 <= p < |pads| && TextNearPad(m, pads[p], texts[t], spacing, slow)
  {
    failed := 0;
    checked := 0;
    selectedPads := {};
    selectedTexts := {};
    var p := 0;
    while p < |pads|
      invariant 0 <= p <= |pads|
      invariant checked == p * |texts|
      invariant failed == PairFailCount(m, pads[..p], texts, spacing, slow)
      invariant forall p' :: p' in selectedPads <==>
                  0 <= p' < p && exists t :: 0 <= t < |texts| && TextNearPad(m, pads[p'], texts[t], spacing, slow)
      invariant forall l', t :: (l', t) in selectedTexts <==>
                  l' == l && 0 <= t < |texts| && exists p' :: 0 <= p' < p && TextNearPad(m, pads[p'], texts[t], spacing, slow)
    {
      var near, count := TextsNearPad(m, l, pads[p], texts, spacing, slow);
      PairFailCountStep(m, pads, texts, spacing, slow, p);
      if count > 0 {
        selectedPads := selectedPads + {p};
      }
      selectedTexts := selectedTexts + near;
      failed := failed + count;
      assert (p + 1) * |texts| == p * |texts| + |texts|;
      checked := checked + |texts|;
      p := p + 1;
    }
    assert pads[..p] == pads;
    PairFailCountBounds(m, pads, texts, spacing, slow);
  }

  /** One of the first n graphics fails against some pad. */
  ghost predicate SomeGraphicFails(m: Measures, graphics: seq<Graphic>, pads: seq<seq<Point>>, spacing: real, slow: bool,
                                   n: int) {
    exists g :: 0 <= g < n && g < |graphics| && GraphicFails(m, graphics[g], pads, spacing, slow)
  }

  /** The number of failing graphic item and pad pairs of a side: the
      items in order, each with its PadFailCount. */
  function GraphicFailCount(m: Measures, graphics: seq<Graphic>, pads: seq<seq<Point>>, spacing: real, slow: bool): nat
    decreases |graphics|
  {
    if |graphics| == 0 then 0
    else GraphicFailCount(m, graphics[..|graphics| - 1], pads, spacing, slow) +
         PadFailCount(m, graphics[|graphics| - 1], pads, spacing, slow)
  }

  /** At most one failure per item and pad, and at least one exactly when
      some graphic item fails. */
  lemma {:induction false} GraphicFailCountBounds(m: Measures, graphics: seq<Graphic>, pads: seq<seq<Point>>,
                                                  spacing: real, slow: bool)
    ensures GraphicFailCount(m, graphics, pads, spacing, slow) <= |graphics| * |pads|
    ensures GraphicFailCount(m, graphics, pads, spacing, slow) > 0 <==>
              SomeGraphicFails(m, graphics, pads, spacing, slow, |graphics|)
    decreases |graphics|
  {
    if |graphics| > 0 {
      var init := graphics[..|graphics| - 1];
      GraphicFailCountBounds(m, init, pads, spacing, slow);
      PadFailCountBounds(m, graphics[|graphics| - 1], pads, spacing, slow);
      assert forall g :: 0 <= g < |init| ==> init[g] == graphics[g];
      assert SomeGraphicFails(m, graphics, pads, spacing, slow, |graphics|) <==>
             SomeGraphicFails(m, init, pads, spacing, slow, |init|) ||
             GraphicFails(m, graphics[|graphics| - 1], pads, spacing, slow);
      assert (|graphics| - 1) * |pads| + |pads| == |graphics| * |pads|;
    }
  }

  /** The loop over the graphic items of a side with the inner loop over
      its pads. */
  method GraphicsAgainstPads(m: Measures, pads: seq<seq<Point>>, graphics: seq<Graphic>, spacing: real, slow: bool)
    returns (failed: nat, selectedPads: set<int>, selectedGraphics: set<int>)
    ensures failed == GraphicFailCount(m, graphics, pads, spacing, slow)
    ensures failed > 0 <==> SomeGraphicFails(m, graphics, pads, spacing, slow, |graphics|)
    ensures forall p :: p in selectedPads <==>
              0 <= p < |pads| && exists g :: 0 <= g < |graphics| && GraphicNearPad(m, graphics[g], pads[p], spacing, slow)
    ensures forall g :: g in selectedGraphics <==> 0 <= g < |graphics| && GraphicFails(m, graphics[g], pads, spacing, slow)
  {
    failed := 0;
    selectedPads := {};
    selectedGraphics := {};
    var g := 0;
    while g < |graphics|
      invariant 0 <= g <= |graphics|
      invariant failed == GraphicFailCount(m, graphics[..g], pads, spacing, slow)
      invariant forall p :: p in selectedPads <==>
                  0 <= p < |pads| && exists g' :: 0 <= g' < g && GraphicNearPad(m, graphics[g'], pads[p], spacing, slow)
      invariant forall g' :: g' in selectedGraphics <==> 0 <= g' < g && GraphicFails(m, graphics[g'], pads, spacing, slow)
    {
      var near, count := PadsNearGraphic(m, graphics[g], pads, spacing, slow);
      assert graphics[..g + 1][..g] == graphics[..g];
      selectedPads := selectedPads + near;
      if count > 0 {
        selectedGraphics := selectedGraphics + {g};
      }
      failed := failed + count;
      forall g' | 0 <= g' <= g
        ensures g' in selectedGraphics <==> GraphicFails(m, graphics[g'], pads, spacing, slow)
      {
      }
      g := g + 1;
    }
    assert graphics[..g] == graphics;
    GraphicFailCountBounds(m, graphics, pads, spacing, slow);
  }

  /** The comparison of one copper layer's pads with the silk layer of
      the same side (position l of the layer pairs): every pad against
      every text, then every graphic line against every pad. It returns
      the number of pad and text pairs checked, the number of failing
      pairs and the selected pads, texts and graphics. */
  method CheckSide(m: Measures, l: int, pads: seq<seq<Point>>, texts: seq<Text>, graphics: seq<Graphic>,
                   spacing: real, slow: bool)
    returns (checked: nat, failed: nat, selectedPads: set<int>, selectedTexts: set<(int, int)>, selectedGraphics: set<int>)
    ensures checked == |pads| * |texts|
    ensures failed == SideFailCount(m, Side(pads, texts, graphics), spacing, slow)
    ensures failed > 0 <==> SideFails(m, Side(pads, texts, graphics), spacing, slow)
    ensures forall p :: p in selectedPads <==> 0 <= p < |pads| && PadFails(m, pads, texts, graphics, spacing, slow, p)
    ensures forall l', t :: (l', t) in selectedTexts <==>
              l' == l && 0 <= t < |texts| && exists p :: 0 <= p < |pads| && TextNearPad(m, pads[p], texts[t], spacing, slow)
    ensures forall g :: g in selectedGraphics <==> 0 <= g < |graphics| && GraphicFails(m, graphics[g], pads, spacing, slow)
  {
    var textFails, textPads, textsSelected, textsChecked := PadsAgainstTexts(m, l, pads, texts, spacing, slow);
    var graphicFails, graphicPads, graphicsSelected := GraphicsAgainstPads(m, pads, graphics, spacing, slow);
    checked := textsChecked;
    failed := textFails + graphicFails;
    selectedPads := textPads + graphicPads;
    selectedTexts := textsSelected;
    selectedGraphics := graphicsSelected;
  }

  // ------------------------------------------------------------------
  // Both sides
  // ------------------------------------------------------------------

  /** One pair of layers the source zips together: the copper pad
      outlines of a side, the texts of its silk layer and its graphic
      items. */
  datatype Side = Side(pads: seq<seq<Point>>, texts: seq<Text>, graphics: seq<Graphic>)

  /** Some failure on a side: a pad and text pair, or a graphic line and
      some pad. */
  ghost predicate SideFails(m: Measures, side: Side, spacing: real, slow: bool) {
    (exists p, t :: 0 <= p < |side.pads| && 0 <= t < |side.texts| &&
       TextNearPad(m, side.pads[p], side.texts[t], spacing, slow)) ||
    SomeGraphicFails(m, side.graphics, side.pads, spacing, slow, |side.graphics|)
  }

  /** The number of failures on a side: its failing pad and text pairs
      and its failing graphic item and pad pairs. */
  ghost function SideFailCount(m: Measures, side: Side, spacing: real, slow: bool): nat {
    PairFailCount(m, side.pads, side.texts, spacing, slow) + GraphicFailCount(m, side.graphics, side.pads, spacing, slow)
  }

  /** The `failed` total over the sides in order. */
  ghost function SidesFailCount(m: Measures, sides: seq<Side>, spacing: real, slow: bool): nat
    decreases |sides|
  {
    if |sides| == 0 then 0
    else SidesFailCount(m, sides[..|sides| - 1], spacing, slow) + SideFailCount(m, sides[|sides| - 1], spacing, slow)
  }

  /** A side's count is positive exactly when the side fails, and it is
      at most one per pad and text pair plus one per graphic item and pad
      pair. */
  lemma SideFailCountBounds(m: Measures, side: Side, spacing: real, slow: bool)
    ensures SideFailCount(m, side, spacing, slow) > 0 <==> SideFails(m, side, spacing, slow)
    ensures SideFailCount(m, side, spacing, slow) <= (|side.texts| + |side.graphics|) * |side.pads|
  {
    PairFailCountBounds(m, side.pads, side.texts, spacing, slow);
    GraphicFailCountBounds(m, side.graphics, side.pads, spacing, slow);
    assert (|side.texts| + |side.graphics|) * |side.pads| == |side.pads| * |side.texts| + |side.graphics| * |side.pads|;
  }

  /** The `failed` total over the sides is positive exactly when some side
      fails. */
  lemma {:induction false} SidesFailCountPositive(m: Measures, sides: seq<Side>, spacing: real, slow: bool)
    ensures SidesFailCount(m, sides, spacing, slow) > 0 <==> exists l :: 0 <= l < |sides| && SideFails(m, sides[l], spacing, slow)
    decreases |sides|
  {
    if |sides| > 0 {
      var init := sides[..|sides| - 1];
      SidesFailCountPositive(m, init, spacing, slow);
      SideFailCountBounds(m, sides[|sides| - 1], spacing, slow);
      assert forall l :: 0 <= l < |init| ==> init[l] == sides[l];
    }
  }

  /** The positions of a side's item set, tagged with the side's
      position l. */
  function Tagged(l: int, s: set<int>): (r: set<(int, int)>)
    ensures forall l', x :: (l', x) in r <==> l' == l && x in s
  {
    set x | x in s :: (l, x)
  }

  /** The number of pad and text pairs the sides hold, the `checked`
      total of the source. */
  function PairsChecked(sides: seq<Side>): nat {
    if |sides| == 0 then 0
    else PairsChecked(sides[..|sides| - 1]) + |sides[|sides| - 1].pads| * |sides[|sides| - 1].texts|
  }

  /** Pad p of side l fails. */
  ghost predicate SidePadFails(m: Measures, sides: seq<Side>, spacing: real, slow: bool, l: int, p: int) {
    0 <= l < |sides| && 0 <= p < |sides[l].pads| &&
    PadFails(m, sides[l].pads, sides[l].texts, sides[l].graphics, spacing, slow, p)
  }

  /** Text t of side l fails against some pad of that side. */
  ghost predicate SideTextFails(m: Measures, sides: seq<Side>, spacing: real, slow: bool, l: int, t: int) {
    0 <= l < |sides| && 0 <= t < |sides[l].texts| &&
    exists p :: 0 <= p < |sides[l].pads| && TextNearPad(m, sides[l].pads[p], sides[l].texts[t], spacing, slow)
  }

  /** Graphic g of side l fails against some pad of that side. */
  ghost predicate SideGraphicFails(m: Measures, sides: seq<Side>, spacing: real, slow: bool, l: int, g: int) {
    0 <= l < |sides| && 0 <= g < |sides[l].graphics| &&
    GraphicFails(m, sides[l].graphics[g], sides[l].pads, spacing, slow)
  }

  /** The loop over the layer pairs: every side compared on its own. It
      returns the pairs checked, the number of failing pairs and the
      selected pads, texts and graphics as (side, position) pairs. */
  method CheckPadSpacing(m: Measures, sides: seq<Side>, spacing: real, slow: bool)
    returns (checked: nat, failed: nat, pads: set<(int, int)>, texts: set<(int, int)>, graphics: set<(int, int)>)
    ensures checked == PairsChecked(sides)
    ensures failed == SidesFailCount(m, sides, spacing, slow)
    ensures failed > 0 <==> exists l :: 0 <= l < |sides| && SideFails(m, sides[l], spacing, slow)
    ensures forall l, p :: (l, p) in pads <==> SidePadFails(m, sides, spacing, slow, l, p)
    ensures forall l, t :: (l, t) in texts <==> SideTextFails(m, sides, spacing, slow, l, t)
    ensures forall l, g :: (l, g) in graphics <==> SideGraphicFails(m, sides, spacing, slow, l, g)
  {
    checked, failed := 0, 0;
    pads, texts, graphics := {}, {}, {};
    var l := 0;
    while l < |sides|
      invariant 0 <= l <= |sides|
      invariant checked == PairsChecked(sides[..l])
      invariant failed == SidesFailCount(m, sides[..l], spacing, slow)
      invariant forall l', p :: (l', p) in pads <==> l' < l && SidePadFails(m, sides, spacing, slow, l', p)
      invariant forall l', t :: (l', t) in texts <==> l' < l && SideTextFails(m, sides, spacing, slow, l', t)
      invariant forall l', g :: (l', g) in graphics <==> l' < l && SideGraphicFails(m, sides, spacing, slow, l', g)
    {
      var side := sides[l];
      var c, f, sp, st, sg := CheckSide(m, l, side.pads, side.texts, side.graphics, spacing, slow);
      assert sides[..l + 1][..l] == sides[..l];
      checked := checked + c;
      failed := failed + f;
      pads := pads + Tagged(l, sp);
      texts := texts + st;
      graphics := graphics + Tagged(l, sg);
      l := l + 1;
    }
    assert sides[..l] == sides;
    SidesFailCountPositive(m, sides, spacing, slow);
  }
}
