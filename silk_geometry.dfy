/** The geometric measures of the silk checks, taken from the geometry
    modules: the separating-axis test of Polygons and the minimum
    distances of Distances, with `sqrt` for math.sqrt. */
module SilkGeometry {

  import opened Geometry
  import opened Polygons
  import opened Distances
  import opened Silk

  /** The measures of the geometry modules, with `sqrt` for math.sqrt.
      On polygons too short to measure, where the source raises
      IndexError, the distances are 0. */
  function SilkMeasures(sqrt: real -> real): (m: Measures)
    ensures forall a, b, closed :: m.intersect(a, b, closed) == PolygonsIntersect(a, b, closed)
    ensures forall p, q :: |p| >= 1 && |q| >= 2 ==> m.polygonDistance(p, q) == sqrt(PolygonPolygonMin2(p, q))
    ensures forall line, q :: |q| >= 1 ==> m.lineDistance(line, q) == sqrt(LinePolygonMin2(line, q))
  {
    Measures(PolygonsIntersect,
             (p: seq<Point>, q: seq<Point>) => if |p| >= 1 && |q| >= 2 then sqrt(PolygonPolygonMin2(p, q)) else 0.0,
             (line: Segment, q: seq<Point>) => if |q| >= 1 then sqrt(LinePolygonMin2(line, q)) else 0.0)
  }
}
