/** The stencil classification of KiPadCheck.StencilInfo. For every paste
    aperture size on the front paste layer and every stencil thickness of
    2 to 7 mil it records the area ratio L*W / (2 (L + W) T) and the aspect
    ratio W / T, where W and L are the smaller and larger side of the
    aperture and T the thickness in nanometres, tracks the least and
    largest ratio per thickness, and lists the sizes whose area ratio is
    below 0.66 or whose aspect ratio is below 1.5. */
module Stencil {

  import opened Wrappers
  import opened Board
  import opened Grouping
  import opened Distances

  /** The thicknesses in mil the source tries: `Tlist = (2,3,4,5,6,7)`. */
  const Tlist: seq<int> := [2, 3, 4, 5, 6, 7]

  const AreaLimit: real := 0.66
  const AspectLimit: real := 1.5

  lemma TlistValues(j: int)
    requires 0 <= j < |Tlist|
    ensures Tlist[j] == j + 2
  {
  }

  /** Python's max(a, b) on two reals. */
  function Max(a: real, b: real): (r: real)
    ensures r >= a && r >= b
    ensures r == a || r == b
  {
    if b > a then b else a
  }

  /** W = min(Size[0], Size[1]) */
  function Width(s: Size): int {
    if s.y < s.x then s.y else s.x
  }

  /** L = max(Size[0], Size[1]) */
  function Length(s: Size): int {
    if s.y > s.x then s.y else s.x
  }

  /** An aperture the ratios can be computed for: the source divides by
      L + W, the sum of the two sides. */
  predicate Measurable(s: Size) {
    s.x + s.y != 0
  }

  /** T = (1000000/1000)*25.4*Tmil nanometres, that is 25400 nm per mil. */
  function ThicknessNm(tmil: int): int {
    25400 * tmil
  }

  /** (L*W)/(2.0*(L+W)*T) */
  function AreaRatio(s: Size, tmil: int): real
    requires Measurable(s) && tmil != 0
  {
    (Length(s) * Width(s)) as real / (2 * (Length(s) + Width(s)) * ThicknessNm(tmil)) as real
  }

  /** float(W)/T */
  function AspectRatio(s: Size, tmil: int): real
    requires tmil != 0
  {
    Width(s) as real / ThicknessNm(tmil) as real
  }

  /** The six area ratios of one size, one per thickness in Tlist. */
  function AreaRatios(s: Size): (r: seq<real>)
    requires Measurable(s)
    ensures |r| == |Tlist| && forall j :: 0 <= j < |Tlist| ==> r[j] == AreaRatio(s, Tlist[j])
  {
    seq(|Tlist|, j requires 0 <= j < |Tlist| => AreaRatio(s, Tlist[j]))
  }

  function AspectRatios(s: Size): (r: seq<real>)
    ensures |r| == |Tlist| && forall j :: 0 <= j < |Tlist| ==> r[j] == AspectRatio(s, Tlist[j])
  {
    seq(|Tlist|, j requires 0 <= j < |Tlist| => AspectRatio(s, Tlist[j]))
  }

  // ------------------------------------------------------------------
  // The ratios against the thickness
  // ------------------------------------------------------------------

  /** a / b2 <= a / b1 for 0 < b1 <= b2 and a >= 0. */
  lemma DivisionFalls(a: real, b1: real, b2: real)
    requires a >= 0.0 && 0.0 < b1 <= b2
    ensures a / b2 <= a / b1
  {
    var q1, q2 := a / b1, a / b2;
    assert q1 * b1 == a && q2 * b2 == a;
  }

  /** For an aperture with non-negative sides both ratios fall (weakly) as
      the stencil gets thicker. */
  lemma RatiosFallWithThickness(s: Size, t1: int, t2: int)
    requires s.x >= 0 && s.y >= 0 && Measurable(s)
    requires 0 < t1 <= t2
    ensures AreaRatio(s, t2) <= AreaRatio(s, t1)
    ensures AspectRatio(s, t2) <= AspectRatio(s, t1)
  {
    var L, W := Length(s), Width(s);
    assert L * W >= 0 by { NonNegMul(L, W); }
    NonNegMul(2 * (L + W), 25400 * t1);
    MulMonotone(2 * (L + W), 25400 * t1, 25400 * t2);
    DivisionFalls((L * W) as real, (2 * (L + W) * ThicknessNm(t1)) as real, (2 * (L + W) * ThicknessNm(t2)) as real);
    DivisionFalls(W as real, ThicknessNm(t1) as real, ThicknessNm(t2) as real);
  }

  lemma NonNegMul(a: int, b: int)
    requires a >= 0 && b >= 0
    ensures a * b >= 0
  {
  }

  lemma MulMonotone(a: int, b1: int, b2: int)
    requires a > 0 && 0 < b1 <= b2
    ensures 0 < a * b1 <= a * b2
  {
  }

  /** A size that fails a rule at some thickness fails it at every
      thicker stencil. */
  lemma FailurePersists(s: Size, t1: int, t2: int)
    requires s.x >= 0 && s.y >= 0 && Measurable(s)
    requires 0 < t1 <= t2
    ensures AreaRatio(s, t1) < AreaLimit ==> AreaRatio(s, t2) < AreaLimit
    ensures AspectRatio(s, t1) < AspectLimit ==> AspectRatio(s, t2) < AspectLimit
  {
    RatiosFallWithThickness(s, t1, t2);
  }

  /** The aperture 225000 x 725000 nm: at 5 mil the area ratio is about
      0.68 and the aspect ratio about 1.77, both passing; at 6 mil they are
      about 0.56 and 1.48, both failing. */
  lemma ExampleAperture()
    ensures 0.67 < AreaRatio(Size(225000, 725000), 5) < 0.68
    ensures 1.77 < AspectRatio(Size(225000, 725000), 5) < 1.78
    ensures 0.56 < AreaRatio(Size(225000, 725000), 6) < 0.57
    ensures 1.47 < AspectRatio(Size(225000, 725000), 6) < 1.48
    ensures AreaRatio(Size(225000, 725000), 5) >= AreaLimit && AspectRatio(Size(225000, 725000), 5) >= AspectLimit
    ensures AreaRatio(Size(225000, 725000), 6) < AreaLimit && AspectRatio(Size(225000, 725000), 6) < AspectLimit
  {
    var s := Size(225000, 725000);
    assert Length(s) == 725000 && Width(s) == 225000;
    assert AreaRatio(s, 5) == 163125000000.0 / 241300000000.0;
    assert AreaRatio(s, 6) == 163125000000.0 / 289560000000.0;
    assert AspectRatio(s, 5) == 225000.0 / 127000.0;
    assert AspectRatio(s, 6) == 225000.0 / 152400.0;
  }

  // ------------------------------------------------------------------
  // StencilInfo
  // ------------------------------------------------------------------

  /** The least and largest ratio recorded for one thickness. */
  datatype RatioRange = RatioRange(lo: real, hi: real)

  /** `setdefault(Tmil, [1000000, 0])` */
  const RangeStart: RatioRange := RatioRange(1000000.0, 0.0)

  /** The range of one thickness after recording v: the entry is created
      at [1000000, 0] when missing, then `R[0] = min(R[0], v)` and
      `R[1] = max(R[1], v)`. */
  function Widen(ranges: map<int, RatioRange>, t: int, v: real): (r: map<int, RatioRange>)
    ensures r.Keys == ranges.Keys + {t}
    ensures forall t' :: t' in ranges && t' != t ==> r[t'] == ranges[t']
    ensures var cur := if t in ranges then ranges[t] else RangeStart;
      r[t].lo == Min(cur.lo, v) && r[t].hi == Max(cur.hi, v)
  {
    var cur := if t in ranges then ranges[t] else RangeStart;
    ranges[t := RatioRange(Min(cur.lo, v), Max(cur.hi, v))]
  }

  /** `recorded[s][j]` is the ratio of size s at thickness Tlist[j]. */
  predicate Recorded(recorded: map<Size, seq<real>>, s: Size, j: int) {
    s in recorded && 0 <= j < |recorded[s]| && j < |Tlist|
  }

  /** Every recorded ratio lies in the range of its thickness. */
  ghost predicate RangeCovers(ranges: map<int, RatioRange>, recorded: map<Size, seq<real>>) {
    forall s, j {:trigger Recorded(recorded, s, j)} :: Recorded(recorded, s, j) ==>
      Tlist[j] in ranges && ranges[Tlist[j]].lo <= recorded[s][j] <= ranges[Tlist[j]].hi
  }

  /** Only thicknesses of Tlist have a range, and only once some ratio was
      recorded for them; each end of a range is the initial value or one
      of those ratios. */
  ghost predicate RangeAttained(ranges: map<int, RatioRange>, recorded: map<Size, seq<real>>) {
    (forall t :: t in ranges ==> t in Tlist) &&
    forall j :: 0 <= j < |Tlist| && Tlist[j] in ranges ==>
      (exists s :: Recorded(recorded, s, j)) &&
      ranges[Tlist[j]].lo <= RangeStart.lo && ranges[Tlist[j]].hi >= RangeStart.hi &&
      (ranges[Tlist[j]].lo == RangeStart.lo || exists s :: Recorded(recorded, s, j) && ranges[Tlist[j]].lo == recorded[s][j]) &&
      (ranges[Tlist[j]].hi == RangeStart.hi || exists s :: Recorded(recorded, s, j) && ranges[Tlist[j]].hi == recorded[s][j])
  }

  /** The ranges agree with the recorded ratios. */
  ghost predicate RangeHolds(ranges: map<int, RatioRange>, recorded: map<Size, seq<real>>) {
    RangeCovers(ranges, recorded) && RangeAttained(ranges, recorded)
  }

  /** Size s is listed under Tlist[j] exactly when its ratio there is
      below the limit. */
  ghost predicate FailedComplete(failed: map<int, seq<Size>>, recorded: map<Size, seq<real>>, limit: real) {
    forall s, j {:trigger Recorded(recorded, s, j)} :: Recorded(recorded, s, j) ==>
      (recorded[s][j] < limit <==> Tlist[j] in failed && s in failed[Tlist[j]])
  }

  /** Only such sizes are listed, each once, and only thicknesses of Tlist
      with at least one size have a list. */
  ghost predicate FailedSound(failed: map<int, seq<Size>>, recorded: map<Size, seq<real>>, limit: real) {
    (forall j, s :: 0 <= j < |Tlist| && Tlist[j] in failed && s in failed[Tlist[j]] ==>
       Recorded(recorded, s, j) && recorded[s][j] < limit) &&
    (forall t :: t in failed ==> t in Tlist && |failed[t]| > 0) &&
    (forall t, a, b :: t in failed && 0 <= a < b < |failed[t]| ==> failed[t][a] != failed[t][b])
  }

  /** The failure lists agree with the recorded ratios. */
  ghost predicate FailedHolds(failed: map<int, seq<Size>>, recorded: map<Size, seq<real>>, limit: real) {
    FailedComplete(failed, recorded, limit) && FailedSound(failed, recorded, limit)
  }

  /** The recorded list of s grown by the ratio v for the next thickness. */
  function Record(recorded: map<Size, seq<real>>, s: Size, v: real): (r: map<Size, seq<real>>)
    ensures r.Keys == recorded.Keys + {s}
    ensures forall s' :: s' in recorded && s' != s ==> r[s'] == recorded[s']
    ensures r[s] == (if s in recorded then recorded[s] else []) + [v]
  {
    recorded[s := (if s in recorded then recorded[s] else []) + [v]]
  }

  function RecordedCount(recorded: map<Size, seq<real>>, s: Size): int {
    if s in recorded then |recorded[s]| else 0
  }

  /** What was recorded before stays recorded, with the same value, and
      the one new entry is v at the next slot of s. */
  lemma RecordFacts(recorded: map<Size, seq<real>>, s: Size, v: real, s': Size, j': int)
    requires RecordedCount(recorded, s) < |Tlist|
    ensures Recorded(recorded, s', j') ==>
              Recorded(Record(recorded, s, v), s', j') && Record(recorded, s, v)[s'][j'] == recorded[s'][j']
    ensures Recorded(Record(recorded, s, v), s', j') ==>
              Recorded(recorded, s', j') || (s' == s && j' == RecordedCount(recorded, s))
    ensures Recorded(Record(recorded, s, v), s, RecordedCount(recorded, s)) &&
            Record(recorded, s, v)[s][RecordedCount(recorded, s)] == v
  {
  }

  /** The thicknesses of Tlist are distinct. */
  lemma TlistDistinct(j: int, j': int)
    requires 0 <= j < |Tlist| && 0 <= j' < |Tlist|
    ensures Tlist[j] == Tlist[j'] <==> j == j'
  {
    TlistValues(j);
    TlistValues(j');
  }

  lemma {:induction false} CoversStep(ranges: map<int, RatioRange>, recorded: map<Size, seq<real>>,
                                      s: Size, v: real)
    requires RangeCovers(ranges, recorded)
    requires RecordedCount(recorded, s) < |Tlist|
    ensures RangeCovers(Widen(ranges, Tlist[RecordedCount(recorded, s)], v), Record(recorded, s, v))
  {
    var j := RecordedCount(recorded, s);
    var r, rec := Widen(ranges, Tlist[j], v), Record(recorded, s, v);
    forall s', j' | Recorded(rec, s', j')
      ensures Tlist[j'] in r && r[Tlist[j']].lo <= rec[s'][j'] <= r[Tlist[j']].hi
    {
      RecordFacts(recorded, s, v, s', j');
      TlistDistinct(j, j');
    }
  }

  lemma {:induction false} AttainedStep(ranges: map<int, RatioRange>, recorded: map<Size, seq<real>>,
                                        s: Size, v: real)
    requires RangeAttained(ranges, recorded)
    requires RecordedCount(recorded, s) < |Tlist|
    ensures RangeAttained(Widen(ranges, Tlist[RecordedCount(recorded, s)], v), Record(recorded, s, v))
  {
    var j := RecordedCount(recorded, s);
    var t := Tlist[j];
    var r, rec := Widen(ranges, t, v), Record(recorded, s, v);
    RecordFacts(recorded, s, v, s, j);
    forall j' | 0 <= j' < |Tlist| && Tlist[j'] in r
      ensures exists s' :: Recorded(rec, s', j')
      ensures r[Tlist[j']].lo <= RangeStart.lo && r[Tlist[j']].hi >= RangeStart.hi
      ensures r[Tlist[j']].lo == RangeStart.lo || exists s' :: Recorded(rec, s', j') && r[Tlist[j']].lo == rec[s'][j']
      ensures r[Tlist[j']].hi == RangeStart.hi || exists s' :: Recorded(rec, s', j') && r[Tlist[j']].hi == rec[s'][j']
    {
      TlistDistinct(j, j');
      var t' := Tlist[j'];
      if j' != j {
        var s1 :| Recorded(recorded, s1, j');
        RecordFacts(recorded, s, v, s1, j');
        if r[t'].lo != RangeStart.lo {
          var s2 :| Recorded(recorded, s2, j') && ranges[t'].lo == recorded[s2][j'];
          RecordFacts(recorded, s, v, s2, j');
        }
        if r[t'].hi != RangeStart.hi {
          var s3 :| Recorded(recorded, s3, j') && ranges[t'].hi == recorded[s3][j'];
          RecordFacts(recorded, s, v, s3, j');
        }
      } else if t in ranges {
        if r[t].lo != v && r[t].lo != RangeStart.lo {
          var s2 :| Recorded(recorded, s2, j) && ranges[t].lo == recorded[s2][j];
          RecordFacts(recorded, s, v, s2, j);
        }
        if r[t].hi != v && r[t].hi != RangeStart.hi {
          var s3 :| Recorded(recorded, s3, j) && ranges[t].hi == recorded[s3][j];
          RecordFacts(recorded, s, v, s3, j);
        }
      }
    }
  }

  /** `if ratio < limit: failed.setdefault(Tmil, []).append(Size)` */
  function Flag(failed: map<int, seq<Size>>, t: int, s: Size, v: real, limit: real): map<int, seq<Size>> {
    if v < limit then SetdefaultAppend(failed, t, s) else failed
  }

  lemma {:induction false} CompleteStep(failed: map<int, seq<Size>>, recorded: map<Size, seq<real>>,
                                        s: Size, v: real, limit: real)
    requires FailedHolds(failed, recorded, limit)
    requires RecordedCount(recorded, s) < |Tlist|
    ensures FailedComplete(Flag(failed, Tlist[RecordedCount(recorded, s)], s, v, limit), Record(recorded, s, v), limit)
  {
    var j := RecordedCount(recorded, s);
    var t := Tlist[j];
    var f, rec := Flag(failed, t, s, v, limit), Record(recorded, s, v);
    assert !Recorded(recorded, s, j);
    assert t in failed ==> s !in failed[t];
    forall s', j' | Recorded(rec, s', j')
      ensures rec[s'][j'] < limit <==> Tlist[j'] in f && s' in f[Tlist[j']]
    {
      RecordFacts(recorded, s, v, s', j');
      TlistDistinct(j, j');
    }
  }

  lemma {:induction false} SoundStep(failed: map<int, seq<Size>>, recorded: map<Size, seq<real>>,
                                     s: Size, v: real, limit: real)
    requires FailedSound(failed, recorded, limit)
    requires RecordedCount(recorded, s) < |Tlist|
    ensures FailedSound(Flag(failed, Tlist[RecordedCount(recorded, s)], s, v, limit), Record(recorded, s, v), limit)
  {
    var j := RecordedCount(recorded, s);
    var t := Tlist[j];
    var f, rec := Flag(failed, t, s, v, limit), Record(recorded, s, v);
    assert !Recorded(recorded, s, j);
    assert t in failed ==> s !in failed[t];
    RecordFacts(recorded, s, v, s, j);
    forall j', s' | 0 <= j' < |Tlist| && Tlist[j'] in f && s' in f[Tlist[j']]
      ensures Recorded(rec, s', j')
      ensures rec[s'][j'] < limit
    {
      TlistDistinct(j, j');
      if s' != s || j' != j {
        assert Tlist[j'] in failed && s' in failed[Tlist[j']];
        RecordFacts(recorded, s, v, s', j');
      } else {
        assert v < limit;
      }
    }
    assert forall j', s' :: 0 <= j' < |Tlist| && Tlist[j'] in f && s' in f[Tlist[j']] ==> Recorded(rec, s', j');
    assert forall j', s' :: 0 <= j' < |Tlist| && Tlist[j'] in f && s' in f[Tlist[j']] ==> rec[s'][j'] < limit;
  }

  /** The pad numbers on the paste layer, in order:
      `[n for n in range(GetPadCount()) if GetPad(n).IsOnLayer(F.Paste)]`. */
  function PastePads(pads: seq<Pad>, layer: int, n: int): (ns: seq<nat>)
    requires 0 <= n <= |pads|
    ensures forall i :: 0 <= i < |ns| ==> ns[i] < n && layer in pads[ns[i]].layers
    ensures forall m :: 0 <= m < n && layer in pads[m].layers ==> m in ns
  {
    if n == 0 then [] else PastePads(pads, layer, n - 1) + (if layer in pads[n - 1].layers then [n - 1] else [])
  }

  /** The paste aperture sizes of the pads on the paste layer. */
  ghost function ApertureSizes(pads: seq<Pad>, layer: int): set<Size> {
    set n | 0 <= n < |pads| && layer in pads[n].layers :: GetApertureSize(pads[n])
  }

  /** What AperturesBySize keeps per size: the ratios at the last
      thickness (7 mil), then W and L. */
  datatype Aperture = Aperture(area: real, aspect: real, w: int, l: int)

  /** The dictionaries StencilInfo fills: AreaRatio, AspectRatio,
      AreaRange, AspectRange, FailedAreaRatio, FailedAspectRatio and
      AperturesBySize. */
  datatype StencilTables = StencilTables(
    areaRatio: map<Size, seq<real>>, aspectRatio: map<Size, seq<real>>,
    areaRange: map<int, RatioRange>, aspectRange: map<int, RatioRange>,
    failedArea: map<int, seq<Size>>, failedAspect: map<int, seq<Size>>,
    apertures: map<Size, Aperture>)

  /** The ranges and failure lists agree with the recorded ratios. */
  ghost predicate Consistent(st: StencilTables) {
    RangeHolds(st.areaRange, st.areaRatio) && RangeHolds(st.aspectRange, st.aspectRatio) &&
    FailedHolds(st.failedArea, st.areaRatio, AreaLimit) && FailedHolds(st.failedAspect, st.aspectRatio, AspectLimit)
  }

  /** One pass of `for Tmil in Tlist`: the two ratios of the size at
      Tmil appended, both ranges widened and the size listed where a ratio
      is below its limit. */
  function RecordThickness(st: StencilTables, size: Size, tmil: int, area: real, aspect: real): (r: StencilTables)
  {
    st.(areaRatio := Record(st.areaRatio, size, area),
        aspectRatio := Record(st.aspectRatio, size, aspect),
        areaRange := Widen(st.areaRange, tmil, area),
        aspectRange := Widen(st.aspectRange, tmil, aspect),
        failedArea := Flag(st.failedArea, tmil, size, area, AreaLimit),
        failedAspect := Flag(st.failedAspect, tmil, size, aspect, AspectLimit))
  }

  lemma RecordThicknessConsistent(st: StencilTables, size: Size, j: int, area: real, aspect: real)
    requires 0 <= j < |Tlist|
    requires RecordedCount(st.areaRatio, size) == j && RecordedCount(st.aspectRatio, size) == j
    requires Consistent(st)
    ensures Consistent(RecordThickness(st, size, Tlist[j], area, aspect))
  {
    CoversStep(st.areaRange, st.areaRatio, size, area);
    CoversStep(st.aspectRange, st.aspectRatio, size, aspect);
    AttainedStep(st.areaRange, st.areaRatio, size, area);
    AttainedStep(st.aspectRange, st.aspectRatio, size, aspect);
    CompleteStep(st.failedArea, st.areaRatio, size, area, AreaLimit);
    CompleteStep(st.failedAspect, st.aspectRatio, size, aspect, AspectLimit);
    SoundStep(st.failedArea, st.areaRatio, size, area, AreaLimit);
    SoundStep(st.failedAspect, st.aspectRatio, size, aspect, AspectLimit);
  }

  /** The first n passes of `for Tmil in Tlist` for one size whose ratios
      at the six thicknesses are `areas` and `aspects`. */
  function RecordThicknesses(st: StencilTables, size: Size, areas: seq<real>, aspects: seq<real>, n: int): StencilTables
    requires |areas| == |Tlist| && |aspects| == |Tlist| && 0 <= n <= |Tlist|
  {
    if n == 0 then st
    else RecordThickness(RecordThicknesses(st, size, areas, aspects, n - 1), size, Tlist[n - 1], areas[n - 1], aspects[n - 1])
  }

  /** After n passes the size's area ratio list holds the first n ratios,
      and nothing else was recorded. */
  lemma {:induction false} RecordThicknessesArea(st: StencilTables, size: Size, areas: seq<real>, aspects: seq<real>, n: int)
    requires |areas| == |Tlist| && |aspects| == |Tlist| && 0 < n <= |Tlist|
    requires size !in st.areaRatio
    ensures RecordThicknesses(st, size, areas, aspects, n).areaRatio == st.areaRatio[size := areas[..n]]
  {
    TakeOneMore(areas, n);
    if n > 1 {
      RecordThicknessesArea(st, size, areas, aspects, n - 1);
      RecordOnto(st.areaRatio, size, areas[..n - 1], areas[n - 1]);
    }
  }

  /** The same for the aspect ratio list. */
  lemma {:induction false} RecordThicknessesAspect(st: StencilTables, size: Size, areas: seq<real>, aspects: seq<real>, n: int)
    requires |areas| == |Tlist| && |aspects| == |Tlist| && 0 < n <= |Tlist|
    requires size !in st.aspectRatio
    ensures RecordThicknesses(st, size, areas, aspects, n).aspectRatio == st.aspectRatio[size := aspects[..n]]
  {
    TakeOneMore(aspects, n);
    if n > 1 {
      RecordThicknessesAspect(st, size, areas, aspects, n - 1);
      RecordOnto(st.aspectRatio, size, aspects[..n - 1], aspects[n - 1]);
    }
  }

  /** The passes leave AperturesBySize alone. */
  lemma {:induction false} RecordThicknessesApertures(st: StencilTables, size: Size, areas: seq<real>, aspects: seq<real>, n: int)
    requires |areas| == |Tlist| && |aspects| == |Tlist| && 0 <= n <= |Tlist|
    ensures RecordThicknesses(st, size, areas, aspects, n).apertures == st.apertures
  {
    if n > 0 {
      RecordThicknessesApertures(st, size, areas, aspects, n - 1);
    }
  }

  lemma RecordOnto(m: map<Size, seq<real>>, size: Size, xs: seq<real>, v: real)
    ensures Record(m[size := xs], size, v) == m[size := xs + [v]]
  {
  }

  lemma TakeAll(xs: seq<real>)
    ensures xs[..|xs|] == xs
  {
  }

  lemma TakeOneMore(xs: seq<real>, n: int)
    requires 0 < n <= |xs|
    ensures xs[..n] == (if n == 1 then [] else xs[..n - 1]) + [xs[n - 1]]
  {
    assert xs[..n] == xs[..n - 1] + [xs[n - 1]];
  }

  lemma CountAfterUpdate(m: map<Size, seq<real>>, size: Size, xs: seq<real>)
    ensures RecordedCount(m[size := xs], size) == |xs|
  {
  }

  /** Every pass keeps the ranges and failure lists consistent. */
  lemma {:induction false} RecordThicknessesConsistent(st: StencilTables, size: Size, areas: seq<real>, aspects: seq<real>, n: int)
    requires |areas| == |Tlist| && |aspects| == |Tlist| && 0 <= n <= |Tlist|
    requires size !in st.areaRatio && size !in st.aspectRatio
    requires Consistent(st)
    ensures Consistent(RecordThicknesses(st, size, areas, aspects, n))
  {
    if n > 0 {
      var prev := RecordThicknesses(st, size, areas, aspects, n - 1);
      RecordThicknessesConsistent(st, size, areas, aspects, n - 1);
      if n > 1 {
        RecordThicknessesArea(st, size, areas, aspects, n - 1);
        RecordThicknessesAspect(st, size, areas, aspects, n - 1);
        CountAfterUpdate(st.areaRatio, size, areas[..n - 1]);
        CountAfterUpdate(st.aspectRatio, size, aspects[..n - 1]);
      } else {
        assert prev == st;
      }
      RecordThicknessConsistent(prev, size, n - 1, areas[n - 1], aspects[n - 1]);
      var next := RecordThickness(prev, size, Tlist[n - 1], areas[n - 1], aspects[n - 1]);
      assert RecordThicknesses(st, size, areas, aspects, n) == next;
    }
  }

  /** The body of `for Size, padlist in stencilSizes.iteritems()` as a
      value: the six thicknesses of one size, then its AperturesBySize
      entry from the last of them. */
  function AddSize(st: StencilTables, size: Size): StencilTables
    requires Measurable(size)
  {
    var r := RecordThicknesses(st, size, AreaRatios(size), AspectRatios(size), |Tlist|);
    r.(apertures := st.apertures[size := Aperture(AreaRatio(size, 7), AspectRatio(size, 7), Width(size), Length(size))])
  }

  /** A new size gets its six ratios of each kind and its aperture entry;
      no other size changes. */
  lemma AddSizeRatios(st: StencilTables, size: Size)
    requires Measurable(size) && size !in st.areaRatio && size !in st.aspectRatio
    ensures AddSize(st, size).areaRatio == st.areaRatio[size := AreaRatios(size)]
    ensures AddSize(st, size).aspectRatio == st.aspectRatio[size := AspectRatios(size)]
    ensures AddSize(st, size).apertures == st.apertures[size := Aperture(AreaRatio(size, 7), AspectRatio(size, 7), Width(size), Length(size))]
  {
    var areas, aspects := AreaRatios(size), AspectRatios(size);
    RecordThicknessesArea(st, size, areas, aspects, |Tlist|);
    RecordThicknessesAspect(st, size, areas, aspects, |Tlist|);
    TakeAll(areas);
    TakeAll(aspects);
  }

  /** Adding a new size keeps the ranges and failure lists consistent. */
  lemma AddSizeConsistent(st: StencilTables, size: Size)
    requires Measurable(size) && size !in st.areaRatio && size !in st.aspectRatio
    requires Consistent(st)
    ensures Consistent(AddSize(st, size))
  {
    var r := RecordThicknesses(st, size, AreaRatios(size), AspectRatios(size), |Tlist|);
    RecordThicknessesConsistent(st, size, AreaRatios(size), AspectRatios(size), |Tlist|);
    ConsistentIgnoresApertures(r, st.apertures[size := Aperture(AreaRatio(size, 7), AspectRatio(size, 7), Width(size), Length(size))]);
  }

  lemma ConsistentIgnoresApertures(st: StencilTables, apertures: map<Size, Aperture>)
    requires Consistent(st)
    ensures Consistent(st.(apertures := apertures))
  {
    var r := st.(apertures := apertures);
    assert r.areaRatio == st.areaRatio && r.aspectRatio == st.aspectRatio;
    assert r.areaRange == st.areaRange && r.aspectRange == st.aspectRange;
    assert r.failedArea == st.failedArea && r.failedAspect == st.failedAspect;
  }

  /** The body of `for Size, padlist in stencilSizes.iteritems()`. */
  method RecordSize(st: StencilTables, size: Size) returns (r: StencilTables)
    requires Measurable(size)
    ensures r == AddSize(st, size)
  {
    ghost var areas, aspects := AreaRatios(size), AspectRatios(size);
    var W := Width(size);
    var L := Length(size);
    r := st;
    var j := 0;
    while j < |Tlist|
      invariant 0 <= j <= |Tlist|
      invariant r == RecordThicknesses(st, size, areas, aspects, j)
    {
      var tmil := Tlist[j];
      TlistValues(j);
      var area := AreaRatio(size, tmil);
      var aspect := AspectRatio(size, tmil);
      assert area == areas[j] && aspect == aspects[j];
      assert RecordThicknesses(st, size, areas, aspects, j + 1) == RecordThickness(r, size, tmil, area, aspect);
      r := RecordThickness(r, size, tmil, area, aspect);
      j := j + 1;
    }
    TlistValues(5);
    r := r.(apertures := st.apertures[size := Aperture(AreaRatio(size, 7), AspectRatio(size, 7), W, L)]);
  }

  /** The tables before the first size. */
  const NoTables: StencilTables := StencilTables(map[], map[], map[], map[], map[], map[], map[])

  predicate AllMeasurable(order: seq<Size>) {
    forall i :: 0 <= i < |order| ==> Measurable(order[i])
  }

  predicate Distinct(order: seq<Size>) {
    forall a, b :: 0 <= a < b < |order| ==> order[a] != order[b]
  }

  /** The sizes listed in `order`. */
  function Elements(order: seq<Size>): (r: set<Size>)
    ensures forall i :: 0 <= i < |order| ==> order[i] in r
    ensures forall s :: s in r ==> exists i :: 0 <= i < |order| && order[i] == s
  {
    if order == [] then {} else Elements(order[..|order| - 1]) + {order[|order| - 1]}
  }

  /** The last size of a list without repetitions is not among the
      others. */
  lemma LastIsNew(order: seq<Size>)
    requires order != [] && Distinct(order)
    ensures Distinct(order[..|order| - 1])
    ensures order[|order| - 1] !in Elements(order[..|order| - 1])
  {
    var init := order[..|order| - 1];
    assert forall i :: 0 <= i < |init| ==> init[i] == order[i];
  }

  /** The tables once the sizes of `order` have been handled, in that
      order. */
  function TablesOf(order: seq<Size>): StencilTables
    requires AllMeasurable(order)
  {
    if order == [] then NoTables else AddSize(TablesOf(order[..|order| - 1]), order[|order| - 1])
  }

  /** The handled sizes, and only those, have entries in the three
      per-size tables. */
  lemma {:induction false} TablesOfKeys(order: seq<Size>)
    requires AllMeasurable(order) && Distinct(order)
    ensures TablesOf(order).areaRatio.Keys == Elements(order)
    ensures TablesOf(order).aspectRatio.Keys == Elements(order)
    ensures TablesOf(order).apertures.Keys == Elements(order)
  {
    if order != [] {
      var init, last := order[..|order| - 1], order[|order| - 1];
      assert AllMeasurable(init);
      LastIsNew(order);
      TablesOfKeys(init);
      var prev := TablesOf(init);
      assert TablesOf(order) == AddSize(prev, last);
      AddSizeRatios(prev, last);
      KeysOfUpdate(prev.areaRatio, last, AreaRatios(last));
      KeysOfUpdate(prev.aspectRatio, last, AspectRatios(last));
      KeysOfUpdate(prev.apertures, last, Aperture(AreaRatio(last, 7), AspectRatio(last, 7), Width(last), Length(last)));
    }
  }

  lemma KeysOfUpdate<V>(m: map<Size, V>, k: Size, v: V)
    ensures m[k := v].Keys == m.Keys + {k}
  {
    assert forall x :: x in m[k := v].Keys <==> x in m.Keys + {k};
  }

  /** Every handled size has its six ratios of each kind and its aperture
      entry. */
  lemma {:induction false} TablesOfRatios(order: seq<Size>)
    requires AllMeasurable(order) && Distinct(order)
    ensures forall s :: Measurable(s) && s in TablesOf(order).areaRatio && s in TablesOf(order).aspectRatio && s in TablesOf(order).apertures ==>
              TablesOf(order).areaRatio[s] == AreaRatios(s) && TablesOf(order).aspectRatio[s] == AspectRatios(s) &&
              TablesOf(order).apertures[s] == Aperture(AreaRatio(s, 7), AspectRatio(s, 7), Width(s), Length(s))
  {
    TablesOfKeys(order);
    if order != [] {
      var init, last := order[..|order| - 1], order[|order| - 1];
      assert AllMeasurable(init);
      LastIsNew(order);
      TablesOfKeys(init);
      TablesOfRatios(init);
      AddSizeRatios(TablesOf(init), last);
      var t, r := TablesOf(init), TablesOf(order);
      assert r == AddSize(t, last);
      forall s | Measurable(s) && s in r.areaRatio && s in r.aspectRatio && s in r.apertures
        ensures r.areaRatio[s] == AreaRatios(s) && r.aspectRatio[s] == AspectRatios(s)
        ensures r.apertures[s] == Aperture(AreaRatio(s, 7), AspectRatio(s, 7), Width(s), Length(s))
      {
        if s != last {
          assert s in Elements(init);
        }
      }
    }
  }

  /** Whatever the order, the ranges and failure lists agree with the
      recorded ratios. */
  lemma {:induction false} TablesOfConsistent(order: seq<Size>)
    requires AllMeasurable(order) && Distinct(order)
    ensures Consistent(TablesOf(order))
  {
    if order != [] {
      var init, last := order[..|order| - 1], order[|order| - 1];
      assert AllMeasurable(init);
      LastIsNew(order);
      TablesOfConsistent(init);
      TablesOfKeys(init);
      AddSizeConsistent(TablesOf(init), last);
    }
  }

  /** A size not yet listed extends a list without repetitions. */
  lemma AppendNew(order: seq<Size>, size: Size)
    requires Distinct(order) && size !in Elements(order)
    ensures Distinct(order + [size])
    ensures Elements(order + [size]) == Elements(order) + {size}
  {
    assert (order + [size])[..|order|] == order;
  }

  /** `for Size, padlist in stencilSizes.iteritems()`: the sizes are
      visited in an unspecified order like the keys of a Python
      dictionary, and the tables are those of that visiting order. */
  method RecordSizes(sizes: set<Size>) returns (st: StencilTables)
    requires forall s :: s in sizes ==> Measurable(s)
    ensures exists order :: AllMeasurable(order) && Distinct(order) && Elements(order) == sizes && st == TablesOf(order)
  {
    st := NoTables;
    ghost var order: seq<Size> := [];
    var remaining := sizes;
    while remaining != {}
      decreases remaining
      invariant remaining <= sizes
      invariant AllMeasurable(order) && Distinct(order)
      invariant Elements(order) == sizes - remaining
      invariant st == TablesOf(order)
    {
      var size :| size in remaining;
      st := RecordSize(st, size);
      AppendNew(order, size);
      ghost var order' := order + [size];
      assert order'[..|order'| - 1] == order;
      order := order';
      remaining := remaining - {size};
    }
  }

  /** KiPadCheck.StencilInfo: the tables of the aperture sizes of the
      pads on the paste layer. A size whose sides add up to zero makes the
      source divide by zero, so it is excluded. */
  method StencilInfo(pads: seq<Pad>, pasteLayer: int) returns (st: StencilTables)
    requires forall n :: 0 <= n < |pads| && pasteLayer in pads[n].layers ==> Measurable(GetApertureSize(pads[n]))
    ensures exists order :: AllMeasurable(order) && Distinct(order) &&
              Elements(order) == ApertureSizes(pads, pasteLayer) && st == TablesOf(order)
  {
    var padnums := PastePads(pads, pasteLayer, |pads|);
    var stencilSizes := GetStencilSizes(pads, Some(padnums));
    assert stencilSizes.Keys == ApertureSizes(pads, pasteLayer) by {
      forall s | s in ApertureSizes(pads, pasteLayer)
        ensures s in stencilSizes
      {
        var n :| 0 <= n < |pads| && pasteLayer in pads[n].layers && s == GetApertureSize(pads[n]);
        var i :| 0 <= i < |padnums| && padnums[i] == n;
      }
    }
    st := RecordSizes(stencilSizes.Keys);
  }

  /** What StencilInfo promises of the tables of any visiting order: one
      entry per paste aperture size with its six ratios of each kind and
      its aperture entry, and ranges and failure lists that agree with
      them. */
  lemma StencilTablesFacts(order: seq<Size>, sizes: set<Size>)
    requires AllMeasurable(order) && Distinct(order)
    requires Elements(order) == sizes
    ensures TablesOf(order).areaRatio.Keys == sizes
    ensures TablesOf(order).aspectRatio.Keys == sizes && TablesOf(order).apertures.Keys == sizes
    ensures forall s :: s in sizes ==>
              TablesOf(order).areaRatio[s] == AreaRatios(s) && TablesOf(order).aspectRatio[s] == AspectRatios(s)
    ensures Consistent(TablesOf(order))
  {
    TablesOfKeys(order);
    TablesOfRatios(order);
    TablesOfConsistent(order);
  }

  /** In consistent tables holding the ratios of size s, s is listed
      under a thickness exactly when its ratio there is below the limit,
      and its ratio lies in that thickness's range. With
      TablesOfConsistent and TablesOfRatios this holds for the tables of
      every visiting order. */
  lemma TablesVerdicts(st: StencilTables, s: Size, j: int)
    requires Consistent(st) && Measurable(s) && 0 <= j < |Tlist|
    requires s in st.areaRatio && st.areaRatio[s] == AreaRatios(s)
    requires s in st.aspectRatio && st.aspectRatio[s] == AspectRatios(s)
    ensures Tlist[j] in st.failedArea && s in st.failedArea[Tlist[j]] <==> AreaRatio(s, Tlist[j]) < AreaLimit
    ensures Tlist[j] in st.failedAspect && s in st.failedAspect[Tlist[j]] <==> AspectRatio(s, Tlist[j]) < AspectLimit
    ensures Tlist[j] in st.areaRange && st.areaRange[Tlist[j]].lo <= AreaRatio(s, Tlist[j]) <= st.areaRange[Tlist[j]].hi
    ensures Tlist[j] in st.aspectRange && st.aspectRange[Tlist[j]].lo <= AspectRatio(s, Tlist[j]) <= st.aspectRange[Tlist[j]].hi
  {
    assert Recorded(st.areaRatio, s, j) && st.areaRatio[s][j] == AreaRatio(s, Tlist[j]);
    assert Recorded(st.aspectRatio, s, j) && st.aspectRatio[s][j] == AspectRatio(s, Tlist[j]);
  }

  /** In consistent tables holding the six ratios of each of their sizes,
      each end of a thickness's area-ratio range is the initial value or
      the ratio of one of those sizes. */
  lemma TablesRangeEnds(st: StencilTables, j: int)
    requires Consistent(st)
    requires forall s :: s in st.areaRatio ==> Measurable(s) && st.areaRatio[s] == AreaRatios(s)
    requires 0 <= j < |Tlist| && Tlist[j] in st.areaRange
    ensures st.areaRange[Tlist[j]].lo == RangeStart.lo ||
            exists s :: Measurable(s) && s in st.areaRatio && st.areaRange[Tlist[j]].lo == AreaRatio(s, Tlist[j])
    ensures st.areaRange[Tlist[j]].hi == RangeStart.hi ||
            exists s :: Measurable(s) && s in st.areaRatio && st.areaRange[Tlist[j]].hi == AreaRatio(s, Tlist[j])
  {
    var t := Tlist[j];
    if st.areaRange[t].lo != RangeStart.lo {
      var s :| Recorded(st.areaRatio, s, j) && st.areaRange[t].lo == st.areaRatio[s][j];
      assert st.areaRatio[s][j] == AreaRatio(s, t);
    }
    if st.areaRange[t].hi != RangeStart.hi {
      var s :| Recorded(st.areaRatio, s, j) && st.areaRange[t].hi == st.areaRatio[s][j];
      assert st.areaRatio[s][j] == AreaRatio(s, t);
    }
  }
}
