/** Parcel geometries as a closed variant, their vertex count, the geometry
    operations the analysis consumes (as an oracle of total functions), and the
    decimal rounding the reports apply. */
module Geometry {

  datatype Coord = Coord(x: real, y: real)

  /** A polygon as its coordinate rings. A closed ring repeats its first coordinate
      at the end, so a triangle's exterior holds four coordinates. */
  datatype Polygon = Polygon(exterior: seq<Coord>, interiors: seq<seq<Coord>>)

  /** Polygon, MultiPolygon, or any other geometry type the loader may produce
      (a point, a line string, a collection). */
  datatype Geometry =
    | SinglePolygon(polygon: Polygon)
    | MultiPolygon(polygons: seq<Polygon>)
    | OtherGeometry(typeName: string)

  /** Exterior coordinates minus the repeated closing one; holes are not counted. */
  function ExteriorVertices(p: Polygon): int {
    |p.exterior| - 1
  }

  function SumExteriorVertices(ps: seq<Polygon>): int {
    if ps == [] then 0 else ExteriorVertices(ps[0]) + SumExteriorVertices(ps[1..])
  }

  /** `count_vertices`: a polygon counts its exterior ring without the closing
      coordinate, a multi-polygon sums that over its parts, anything else is 0. */
  function VertexCount(g: Geometry): int {
    match g
    case SinglePolygon(p) => ExteriorVertices(p)
    case MultiPolygon(ps) => SumExteriorVertices(ps)
    case OtherGeometry(_) => 0
  }

  /** A multi-polygon's count is additive over its parts. */
  lemma {:induction false} VertexCountMultiAppend(ps: seq<Polygon>, qs: seq<Polygon>)
    ensures VertexCount(MultiPolygon(ps + qs)) == VertexCount(MultiPolygon(ps)) + VertexCount(MultiPolygon(qs))
  {
    if ps == [] {
      assert ps + qs == qs;
    } else {
      assert (ps + qs)[0] == ps[0];
      assert (ps + qs)[1..] == ps[1..] + qs;
      VertexCountMultiAppend(ps[1..], qs);
      assert SumExteriorVertices(ps + qs) == ExteriorVertices(ps[0]) + SumExteriorVertices(ps[1..] + qs);
    }
  }

  /** A multi-polygon of one part counts as that polygon. */
  lemma VertexCountMultiSingle(p: Polygon)
    ensures VertexCount(MultiPolygon([p])) == VertexCount(SinglePolygon(p))
  {
    assert [p][1..] == [];
    assert SumExteriorVertices([p]) == ExteriorVertices(p) + SumExteriorVertices([]);
  }

  /** Every part a closed ring of at least four coordinates (a triangle or more) gives
      at least three vertices per part. */
  lemma {:induction false} VertexCountClosedRings(ps: seq<Polygon>)
    requires forall i :: 0 <= i < |ps| ==> |ps[i].exterior| >= 4
    ensures VertexCount(MultiPolygon(ps)) >= 3 * |ps|
  {
    if ps != [] {
      VertexCountClosedRings(ps[1..]);
    }
  }

  /** The geometry operations, measured by a library the model does not contain.
      `intersects`, `centroid` and `contains` work on the geographic geometry;
      `area` and `intersectionArea` measure the planar-projected counterpart in
      square metres. */
  datatype GeometryOracle = GeometryOracle(
    intersects: (Geometry, Geometry) -> bool,
    area: Geometry -> real,
    intersectionArea: (Geometry, Geometry) -> real,
    centroid: Geometry -> Coord,
    contains: (Geometry, Coord) -> bool)

  /** The centroid does not lie inside its own geometry. */
  predicate CentroidOutside(o: GeometryOracle, g: Geometry) {
    !o.contains(g, o.centroid(g))
  }

  /** The nearest integer to `x`, ties going to the even neighbour (Python's `round`,
      applied here to exact values). */
  function RoundHalfEven(x: real): (r: int)
    ensures x - 0.5 <= r as real <= x + 0.5
    ensures (r as real - x == 0.5 || x - r as real == 0.5) ==> r % 2 == 0
  {
    var f := x.Floor;
    var d := x - f as real;
    if d < 0.5 then f
    else if d > 0.5 then f + 1
    else if f % 2 == 0 then f
    else f + 1
  }

  /** The rounding rule picks one integer: no other integer meets both of its promises. */
  lemma RoundHalfEvenUnique(x: real, n: int)
    requires x - 0.5 <= n as real <= x + 0.5
    requires (n as real - x == 0.5 || x - n as real == 0.5) ==> n % 2 == 0
    ensures n == RoundHalfEven(x)
  {
  }

  /** Rounding keeps order: a value above an integer bound rounds to at least that bound. */
  lemma RoundHalfEvenAbove(x: real, bound: int)
    requires x > bound as real
    ensures RoundHalfEven(x) >= bound
  {
  }

  /** Rounding keeps order: a smaller value never rounds to a larger integer. */
  lemma RoundHalfEvenMonotone(x: real, y: real)
    requires x <= y
    ensures RoundHalfEven(x) <= RoundHalfEven(y)
  {
    if x.Floor < y.Floor {
      assert x.Floor + 1 <= y.Floor;
    }
  }

  /** Hectare rounding keeps the order of areas. */
  lemma HectareThousandthsMonotone(a1: real, a2: real)
    requires a1 <= a2
    ensures HectareThousandths(a1) <= HectareThousandths(a2)
  {
    RoundHalfEvenMonotone(a1 / 10.0, a2 / 10.0);
  }

  /** `round(area_m2 / 10000, 3)`: hectares in thousandths. */
  function HectareThousandths(areaM2: real): int {
    RoundHalfEven(areaM2 / 10.0)
  }

  /** `round(p, 2)` of a percentage: hundredths of a percent. */
  function PercentHundredths(p: real): int {
    RoundHalfEven(p * 100.0)
  }

  /** `round(v, 8)` of a coordinate in degrees. */
  function DegreesE8(v: real): int {
    RoundHalfEven(v * 100000000.0)
  }
}
