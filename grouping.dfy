/** The dictionaries KiPadCheck builds by `setdefault(key, []).append(v)`
    (GetPadSizes, GetStencilSizes, GetPadHoles, the holes-by-size report)
    and by filtering per layer (objects_by_layer). */
module Grouping {

  import opened Wrappers
  import opened Board

  // ------------------------------------------------------------------
  // Buckets
  // ------------------------------------------------------------------

  /** The values whose key is k, in their order. */
  function Bucket<K(==), V>(keys: seq<K>, values: seq<V>, k: K): (b: seq<V>)
    requires |keys| == |values|
    ensures |b| <= |values|
  {
    if |keys| == 0 then []
    else Bucket(keys[..|keys| - 1], values[..|values| - 1], k) +
         (if keys[|keys| - 1] == k then [values[|values| - 1]] else [])
  }

  /** v is in the bucket of k exactly when some position holds key k and
      value v. */
  lemma {:induction false} BucketMembership<K, V>(keys: seq<K>, values: seq<V>, k: K, v: V)
    requires |keys| == |values|
    ensures v in Bucket(keys, values, k) <==> exists i :: 0 <= i < |keys| && keys[i] == k && values[i] == v
  {
    if |keys| > 0 {
      var n := |keys| - 1;
      BucketMembership(keys[..n], values[..n], k, v);
      if v in Bucket(keys[..n], values[..n], k) {
        var i :| 0 <= i < n && keys[..n][i] == k && values[..n][i] == v;
        assert keys[i] == k && values[i] == v;
      }
      if exists i :: 0 <= i < |keys| && keys[i] == k && values[i] == v {
        var i :| 0 <= i < |keys| && keys[i] == k && values[i] == v;
        if i < n {
          assert keys[..n][i] == k && values[..n][i] == v;
        }
      }
    }
  }

  /** A bucket holds one value for every occurrence of its key. */
  lemma {:induction false} BucketSize<K, V>(keys: seq<K>, values: seq<V>, k: K)
    requires |keys| == |values|
    ensures |Bucket(keys, values, k)| == multiset(keys)[k]
  {
    if |keys| > 0 {
      var n := |keys| - 1;
      BucketSize(keys[..n], values[..n], k);
      assert keys == keys[..n] + [keys[n]];
      assert multiset(keys) == multiset(keys[..n]) + multiset{keys[n]};
    }
  }

  /** With distinct values (pad numbers), each value is in the bucket of
      its own key and in no other. */
  lemma ExactlyOneBucket<K, V>(keys: seq<K>, values: seq<V>, i: int, k: K)
    requires |keys| == |values| && 0 <= i < |values|
    requires forall a, b :: 0 <= a < b < |values| ==> values[a] != values[b]
    ensures values[i] in Bucket(keys, values, k) <==> keys[i] == k
  {
    BucketMembership(keys, values, k, values[i]);
    if values[i] in Bucket(keys, values, k) {
      var j :| 0 <= j < |keys| && keys[j] == k && values[j] == values[i];
      assert j == i;
    }
  }

  /** `d.setdefault(k, []).append(v)` */
  function SetdefaultAppend<K(==), V>(d: map<K, seq<V>>, k: K, v: V): (r: map<K, seq<V>>)
    ensures r.Keys == d.Keys + {k}
    ensures r[k] == (if k in d then d[k] else []) + [v]
    ensures forall k' :: k' in d && k' != k ==> r[k'] == d[k']
  {
    d[k := (if k in d then d[k] else []) + [v]]
  }

  /** No key, empty bucket. */
  lemma {:induction false} BucketOfAbsentKey<K, V>(keys: seq<K>, values: seq<V>, k: K)
    requires |keys| == |values|
    requires forall i :: 0 <= i < |keys| ==> keys[i] != k
    ensures Bucket(keys, values, k) == []
  {
    if |keys| > 0 {
      BucketOfAbsentKey(keys[..|keys| - 1], values[..|values| - 1], k);
    }
  }

  /** The loop `for i: d.setdefault(keys[i], []).append(values[i])` from
      an empty dictionary: one entry per key that occurs, holding that
      key's values in order. */
  method GroupByKey<K(==), V>(keys: seq<K>, values: seq<V>) returns (groups: map<K, seq<V>>)
    requires |keys| == |values|
    ensures groups.Keys == set i | 0 <= i < |keys| :: keys[i]
    ensures forall k :: k in groups ==> groups[k] == Bucket(keys, values, k)
  {
    groups := map[];
    var i := 0;
    while i < |keys|
      invariant 0 <= i <= |keys|
      invariant groups.Keys == set j | 0 <= j < i :: keys[j]
      invariant forall k :: k in groups ==> groups[k] == Bucket(keys[..i], values[..i], k)
    {
      var k, v := keys[i], values[i];
      if k !in groups {
        BucketOfAbsentKey(keys[..i], values[..i], k);
      }
      groups := SetdefaultAppend(groups, k, v);
      assert keys[..i + 1][..i] == keys[..i] && values[..i + 1][..i] == values[..i];
      i := i + 1;
    }
    assert keys[..i] == keys && values[..i] == values;
  }

  // ------------------------------------------------------------------
  // Pads by size
  // ------------------------------------------------------------------

  /** range(board.GetPadCount()) */
  function AllPads(n: nat): (r: seq<nat>)
    ensures |r| == n && forall i :: 0 <= i < n ==> r[i] == i
  {
    seq(n, i => i)
  }

  /** The pad numbers a grouping visits: the given list, or every pad when
      none is given (`padnums == None`). */
  function PadNumbers(pads: seq<Pad>, padnums: Option<seq<nat>>): seq<nat> {
    if padnums.None? then AllPads(|pads|) else padnums.value
  }

  predicate ValidPadNumbers(pads: seq<Pad>, ns: seq<nat>) {
    forall i :: 0 <= i < |ns| ==> ns[i] < |pads|
  }

  /** KiPadCheck.GetApertureSize: the pad size grown by the solder paste
      margin along each axis. */
  function GetApertureSize(pad: Pad): (r: Size)
    ensures r.x - pad.size.x == pad.pasteMargin.x && r.y - pad.size.y == pad.pasteMargin.y
    ensures (r.x <= pad.size.x <==> pad.pasteMargin.x <= 0) && (r.y <= pad.size.y <==> pad.pasteMargin.y <= 0)
  {
    Size(pad.size.x + pad.pasteMargin.x, pad.size.y + pad.pasteMargin.y)
  }

  /** KiPadCheck.GetMaskSize: the pad size grown by the one solder mask
      margin along both axes. */
  function GetMaskSize(pad: Pad): (r: Size)
    ensures r.x - pad.size.x == pad.maskMargin && r.y - pad.size.y == pad.maskMargin
    ensures r.x - r.y == pad.size.x - pad.size.y
  {
    Size(pad.size.x + pad.maskMargin, pad.size.y + pad.maskMargin)
  }

  /** The mask size is the aperture size the pad would have with the same
      margin as paste margin along both axes, and a zero margin leaves the
      pad size. */
  lemma MaskIsUniformAperture(pad: Pad)
    ensures GetMaskSize(pad) == GetApertureSize(pad.(pasteMargin := Size(pad.maskMargin, pad.maskMargin)))
    ensures pad.pasteMargin == Size(0, 0) ==> GetApertureSize(pad) == pad.size
    ensures pad.maskMargin == 0 ==> GetMaskSize(pad) == pad.size
  {
  }

  /** A negative paste margin (the usual case) gives an aperture no larger
      than the pad. */
  lemma ApertureShrinks(pad: Pad)
    requires pad.pasteMargin.x <= 0 && pad.pasteMargin.y <= 0
    ensures GetApertureSize(pad).x <= pad.size.x && GetApertureSize(pad).y <= pad.size.y
  {
  }

  /** The key of every visited pad: its size. `int()` is the identity on
      the integer sizes pcbnew returns. */
  function SizeKeys(pads: seq<Pad>, ns: seq<nat>): (r: seq<Size>)
    requires ValidPadNumbers(pads, ns)
    ensures |r| == |ns| && forall i :: 0 <= i < |ns| ==> r[i] == pads[ns[i]].size
  {
    seq(|ns|, i requires 0 <= i < |ns| => pads[ns[i]].size)
  }

  function ApertureKeys(pads: seq<Pad>, ns: seq<nat>): (r: seq<Size>)
    requires ValidPadNumbers(pads, ns)
    ensures |r| == |ns| && forall i :: 0 <= i < |ns| ==> r[i] == GetApertureSize(pads[ns[i]])
  {
    seq(|ns|, i requires 0 <= i < |ns| => GetApertureSize(pads[ns[i]]))
  }

  function DrillKeys(pads: seq<Pad>, ns: seq<nat>): (r: seq<Size>)
    requires ValidPadNumbers(pads, ns)
    ensures |r| == |ns| && forall i :: 0 <= i < |ns| ==> r[i] == pads[ns[i]].drill
  {
    seq(|ns|, i requires 0 <= i < |ns| => pads[ns[i]].drill)
  }

  function PadsOf(pads: seq<Pad>, ns: seq<nat>): (r: seq<Pad>)
    requires ValidPadNumbers(pads, ns)
    ensures |r| == |ns| && forall i :: 0 <= i < |ns| ==> r[i] == pads[ns[i]]
  {
    seq(|ns|, i requires 0 <= i < |ns| => pads[ns[i]])
  }

  /** KiPadCheck.GetPadSizes: the pads grouped by their size. */
  method GetPadSizes(pads: seq<Pad>, padnums: Option<seq<nat>>) returns (padsizes: map<Size, seq<Pad>>)
    requires ValidPadNumbers(pads, PadNumbers(pads, padnums))
    ensures var ns := PadNumbers(pads, padnums);
      padsizes.Keys == (set i | 0 <= i < |ns| :: pads[ns[i]].size) &&
      forall s :: s in padsizes ==> padsizes[s] == Bucket(SizeKeys(pads, ns), PadsOf(pads, ns), s)
  {
    var ns := PadNumbers(pads, padnums);
    padsizes := GroupByKey(SizeKeys(pads, ns), PadsOf(pads, ns));
  }

  /** KiPadCheck.GetStencilSizes: the pad numbers grouped by their paste
      aperture size. */
  method GetStencilSizes(pads: seq<Pad>, padnums: Option<seq<nat>>) returns (stencilsizes: map<Size, seq<nat>>)
    requires ValidPadNumbers(pads, PadNumbers(pads, padnums))
    ensures var ns := PadNumbers(pads, padnums);
      stencilsizes.Keys == (set i | 0 <= i < |ns| :: GetApertureSize(pads[ns[i]])) &&
      forall s :: s in stencilsizes ==> stencilsizes[s] == Bucket(ApertureKeys(pads, ns), ns, s)
  {
    var ns := PadNumbers(pads, padnums);
    stencilsizes := GroupByKey(ApertureKeys(pads, ns), ns);
  }

  /** Every pad number given to GetStencilSizes (distinct, as the source's
      lists are) is listed under its own aperture size and under no other. */
  lemma StencilSizesPartition(pads: seq<Pad>, ns: seq<nat>, i: int, s: Size)
    requires ValidPadNumbers(pads, ns) && 0 <= i < |ns|
    requires forall a, b :: 0 <= a < b < |ns| ==> ns[a] != ns[b]
    ensures ns[i] in Bucket(ApertureKeys(pads, ns), ns, s) <==> s == GetApertureSize(pads[ns[i]])
    ensures |Bucket(ApertureKeys(pads, ns), ns, s)| == multiset(ApertureKeys(pads, ns))[s]
  {
    ExactlyOneBucket(ApertureKeys(pads, ns), ns, i, s);
    BucketSize(ApertureKeys(pads, ns), ns, s);
  }

  /** The pad numbers GetPadHoles visits: `padnums or range(...)`, so an
      empty list also means every pad, unlike GetPadSizes. */
  function HolePadNumbers(pads: seq<Pad>, padnums: Option<seq<nat>>): seq<nat> {
    if padnums.None? || |padnums.value| == 0 then AllPads(|pads|) else padnums.value
  }

  /** KiPadCheck.GetPadHoles: the pads grouped by their drill size. */
  method GetPadHoles(pads: seq<Pad>, padnums: Option<seq<nat>>) returns (padHolesBySize: map<Size, seq<Pad>>)
    requires ValidPadNumbers(pads, HolePadNumbers(pads, padnums))
    ensures var ns := HolePadNumbers(pads, padnums);
      padHolesBySize.Keys == (set i | 0 <= i < |ns| :: pads[ns[i]].drill) &&
      forall s :: s in padHolesBySize ==> padHolesBySize[s] == Bucket(DrillKeys(pads, ns), PadsOf(pads, ns), s)
  {
    var ns := HolePadNumbers(pads, padnums);
    padHolesBySize := GroupByKey(DrillKeys(pads, ns), PadsOf(pads, ns));
  }

  /** An empty list of pad numbers: GetPadSizes groups nothing, while
      GetPadHoles groups every pad. */
  lemma EmptyPadList(pads: seq<Pad>)
    requires |pads| > 0
    ensures PadNumbers(pads, Some([])) == []
    ensures HolePadNumbers(pads, Some([])) == AllPads(|pads|)
  {
  }

  // ------------------------------------------------------------------
  // Holes by size
  // ------------------------------------------------------------------

  /** The holes of a layer whose drill size is non-zero in both
      directions, in order. */
  function NonZeroHoles(holes: seq<Hole>): (r: seq<Hole>)
    ensures |r| <= |holes|
    ensures forall h :: h in r <==> h in holes && h.drill.x != 0 && h.drill.y != 0
  {
    if |holes| == 0 then []
    else NonZeroHoles(holes[..|holes| - 1]) +
         (var h := holes[|holes| - 1]; if h.drill.x != 0 && h.drill.y != 0 then [h] else [])
  }

  function HoleDrills(holes: seq<Hole>): (r: seq<Size>)
    ensures |r| == |holes| && forall i :: 0 <= i < |holes| ==> r[i] == holes[i].drill
  {
    seq(|holes|, i requires 0 <= i < |holes| => holes[i].drill)
  }

  /** The per-layer `bysize` dictionary of DrillInfo_Worker: holes with a
      zero drill dimension are skipped, the others are grouped by drill
      size. */
  method HolesBySize(holes: seq<Hole>) returns (bysize: map<Size, seq<Hole>>)
    ensures forall s :: s in bysize <==> s.x != 0 && s.y != 0 && exists h :: h in holes && h.drill == s
    ensures forall s :: s in bysize ==> bysize[s] == Bucket(HoleDrills(NonZeroHoles(holes)), NonZeroHoles(holes), s)
  {
    var kept := NonZeroHoles(holes);
    bysize := GroupByKey(HoleDrills(kept), kept);
    forall s: Size | s.x != 0 && s.y != 0 && exists h :: h in holes && h.drill == s
      ensures s in bysize
    {
      var h :| h in holes && h.drill == s;
      assert h in kept;
      var i :| 0 <= i < |kept| && kept[i] == h;
      assert HoleDrills(kept)[i] == s;
    }
  }

  // ------------------------------------------------------------------
  // Objects by layer
  // ------------------------------------------------------------------

  /** `filter(lambda x: x.IsOnLayer(layer), objects)` */
  function OnLayer<T(!new)>(objects: seq<T>, layersOf: T -> set<int>, layer: int): (r: seq<T>)
    ensures |r| <= |objects|
    ensures forall x :: x in r <==> x in objects && layer in layersOf(x)
  {
    if |objects| == 0 then []
    else OnLayer(objects[..|objects| - 1], layersOf, layer) +
         (var x := objects[|objects| - 1]; if layer in layersOf(x) then [x] else [])
  }

  /** KiPadCheck.objects_by_layer: for every layer number, the objects on
      that layer in their order; layers with no object get no entry. */
  method ObjectsByLayer<T(!new)>(layernums: seq<int>, objects: seq<T>, layersOf: T -> set<int>)
    returns (byLayer: map<int, seq<T>>)
    ensures forall l :: l in byLayer <==> l in layernums && exists x :: x in objects && l in layersOf(x)
    ensures forall l :: l in byLayer ==> byLayer[l] == OnLayer(objects, layersOf, l)
  {
    byLayer := map[];
    var i := 0;
    while i < |layernums|
      invariant 0 <= i <= |layernums|
      invariant forall l :: l in byLayer <==> l in layernums[..i] && exists x :: x in objects && l in layersOf(x)
      invariant forall l :: l in byLayer ==> byLayer[l] == OnLayer(objects, layersOf, l)
    {
      var layernum := layernums[i];
      var hs := OnLayer(objects, layersOf, layernum);
      if |hs| > 0 {
        assert hs[0] in objects && layernum in layersOf(hs[0]);
        byLayer := byLayer[layernum := hs];
      } else {
        assert !exists x :: x in objects && layernum in layersOf(x);
      }
      assert layernums[..i + 1] == layernums[..i] + [layernum];
      i := i + 1;
    }
    assert layernums[..i] == layernums;
  }
}
