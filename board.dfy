/** The board objects the checks read, as plain records. The pcbnew
    accessors (GetSize, GetDrillSize, GetNetname, IsOnLayer, ...) become
    fields; a layer set stands for IsOnLayer. */
module Board {

  import opened Wrappers
  import opened Geometry

  /** A wxSize: a width and a height in nanometres. */
  datatype Size = Size(x: int, y: int)

  /** A pad: its centre, copper size, solder paste margin (a size), solder
      mask margin (one value), drill size and the layers it is on. */
  datatype Pad = Pad(center: Point, size: Size, pasteMargin: Size, maskMargin: int,
                     drill: Size, layers: set<int>)

  /** A via: position, drill value (the diameter), width, net name and
      layers. */
  datatype Via = Via(position: Point, drillValue: int, width: int, net: string, layers: set<int>)

  /** An entry of board.GetTracks(): a via or a track segment. */
  datatype Track = Track(isVia: bool, net: string, start: Point, end: Point, width: int)

  /** A drilled hole as the drill checks see it: the centre, the size that
      KiPadCheck.get_drill_size reports and the layers. */
  datatype Hole = Hole(center: Point, drill: Size, layers: set<int>)

  /** KiPadCheck.get_drill_size for a pad: its GetDrillSize. */
  function PadHole(pad: Pad): (h: Hole)
    ensures h.center == pad.center && h.drill == pad.drill && h.layers == pad.layers
  {
    Hole(pad.center, pad.drill, pad.layers)
  }

  /** KiPadCheck.get_drill_size for a via, which has no GetDrillSize: the
      point (d, d) of its drill value. */
  function ViaHole(via: Via): (h: Hole)
    ensures h.center == via.position && h.drill == Size(via.drillValue, via.drillValue)
    ensures h.layers == via.layers
  {
    Hole(via.position, Size(via.drillValue, via.drillValue), via.layers)
  }

  /** The pads that are drilled in both directions, in order. */
  function DrilledPads(pads: seq<Pad>): (r: seq<Hole>)
    ensures |r| <= |pads|
    ensures forall h :: h in r <==> exists p :: p in pads && p.drill.x != 0 && p.drill.y != 0 && h == PadHole(p)
  {
    if |pads| == 0 then []
    else DrilledPads(pads[..|pads| - 1]) +
         (var p := pads[|pads| - 1]; if p.drill.x != 0 && p.drill.y != 0 then [PadHole(p)] else [])
  }

  /** KiPadCheck.get_pad_holes_and_vias: the drilled pads in pad order, then
      every via. */
  function PadHolesAndVias(pads: seq<Pad>, vias: seq<Via>): (holes: seq<Hole>)
    ensures |holes| == |DrilledPads(pads)| + |vias|
    ensures holes[..|DrilledPads(pads)|] == DrilledPads(pads)
    ensures forall k :: 0 <= k < |vias| ==> holes[|DrilledPads(pads)| + k] == ViaHole(vias[k])
  {
    var drilled := DrilledPads(pads);
    var viaHoles := seq(|vias|, k requires 0 <= k < |vias| => ViaHole(vias[k]));
    assert (drilled + viaHoles)[..|drilled|] == drilled;
    drilled + viaHoles
  }

  /** `get_value_float(name) or default`: a field that is empty or not a
      number reads as 0.0, and 0.0 is false in Python, so both give the
      default. */
  function OrDefault(value: Option<real>, default: real): (r: real)
    ensures value == None || value == Some(0.0) ==> r == default
    ensures value.Some? && value.value != 0.0 ==> r == value.value
  {
    if value.None? || value.value == 0.0 then default else value.value
  }
}
