/** The parcel table and the diagnostic tables derived from it: unique and
    duplicate geometries, unique and duplicate plantation codes, polygons with few
    vertices, and polygons whose centroid lies outside them. */
module Parcels {
  import opened Sequences
  import opened Partition
  import opened Geometry

  /** One input row: its index label, its `Plantation Code`, its `wkt_geom` text
      and the geometry parsed from it. Passthrough columns are not modelled. */
  datatype Row = Row(id: int, code: string, wkt: string, geom: Geometry)

  function Code(r: Row): string { r.code }

  function Wkt(r: Row): string { r.wkt }

  /** `num_point` reports the polygons with fewer vertices than this. */
  const VertexLimit: int := 12

  /** A `geo_unique` row with its `num_points` column. */
  datatype CountedRow = CountedRow(row: Row, numPoints: int)

  /** A `num_point` row: `Plantation Code` and `num_points`. */
  datatype CodeCount = CodeCount(code: string, numPoints: int)

  /** The upload without repeated WKT texts, the first row of each kept (:192). */
  function GeoUnique(rows: seq<Row>): seq<Row> {
    DropDuplicates(rows, Wkt)
  }

  function WithVertexCount(r: Row): CountedRow {
    CountedRow(r, VertexCount(r.geom))
  }

  /** The `geo_unique` sheet: unique geometries annotated with their vertex counts. */
  function GeoUniqueTable(rows: seq<Row>): seq<CountedRow> {
    Map(GeoUnique(rows), WithVertexCount)
  }

  /** Every row whose WKT text occurs at least twice, in input order (:209). */
  function GeoDuplicates(rows: seq<Row>): seq<Row> {
    KeepDuplicated(rows, Wkt)
  }

  /** The codes of the upload, each once, in first-seen order (:221). */
  function AttrUnique(rows: seq<Row>): seq<string> {
    DropDuplicates(KeysOf(rows, Code), Id)
  }

  /** The codes carried by at least two rows, each once, in first-seen order (:215). */
  function AttrDuplicates(rows: seq<Row>): seq<string> {
    DropDuplicates(KeysOf(KeepDuplicated(rows, Code), Code), Id)
  }

  function CodeAndCount(r: Row): CodeCount {
    CodeCount(r.code, VertexCount(r.geom))
  }

  predicate FewVertices(e: CodeCount) {
    e.numPoints < VertexLimit
  }

  /** Code and vertex count of every row of the full upload with fewer than 12 vertices (:228). */
  function NumPoint(rows: seq<Row>): seq<CodeCount> {
    Filter(Map(rows, CodeAndCount), FewVertices)
  }

  /** The row test behind the `centroid` sheet. */
  function OutsideTest(o: GeometryOracle): Row -> bool {
    (r: Row) => CentroidOutside(o, r.geom)
  }

  /** The rows whose centroid lies outside their geometry, in input order (:236). */
  function CentroidTable(rows: seq<Row>, o: GeometryOracle): seq<Row> {
    Filter(rows, OutsideTest(o))
  }

  /** `geo_unique` keeps the first row of every distinct WKT, in input order: position
      `k` of it is the row at `idx[k]`, the positions increase, each is the first row
      of its WKT, and every first row is among them. It has no repeated WKT, no WKT of
      the input is lost, and deduplicating it again changes nothing. */
  lemma GeoUniqueSpec(rows: seq<Row>) returns (idx: seq<int>)
    ensures Embeds(GeoUnique(rows), rows, idx)
    ensures forall k :: 0 <= k < |idx| ==> 0 <= idx[k] < |rows| && IsFirstWithKey(rows, Wkt, idx[k])
    ensures forall i :: 0 <= i < |rows| && IsFirstWithKey(rows, Wkt, i) ==> i in idx
    ensures DistinctKeys(GeoUnique(rows), Wkt)
    ensures forall w :: w in KeysOf(rows, Wkt) ==> w in KeysOf(GeoUnique(rows), Wkt)
    ensures GeoUnique(GeoUnique(rows)) == GeoUnique(rows)
  {
    idx := DropDuplicatesSpec(rows, Wkt);
    DropDuplicatesIdempotent(rows, Wkt);
    GeoUniqueKeepsKeys(rows);
  }

  lemma GeoUniqueKeepsKeys(rows: seq<Row>)
    ensures forall w :: w in KeysOf(rows, Wkt) ==> w in KeysOf(GeoUnique(rows), Wkt)
  {
    var u := GeoUnique(rows);
    forall w | w in KeysOf(rows, Wkt) ensures w in KeysOf(u, Wkt) {
      var i :| 0 <= i < |rows| && KeysOf(rows, Wkt)[i] == w;
      var j := DropDuplicatesKeepsKey(rows, Wkt, i);
      var p :| 0 <= p < |u| && u[p] == rows[j];
      assert KeysOf(u, Wkt)[p] == w;
    }
  }

  /** `geo_duplicates` is, in input order, every row whose WKT occurs at least twice
      in the input, first occurrences included: position `k` of it is the row at
      `idx[k]`, and the increasing positions are exactly those of repeated WKTs. */
  lemma GeoDuplicatesSpec(rows: seq<Row>) returns (idx: seq<int>)
    ensures Embeds(GeoDuplicates(rows), rows, idx)
    ensures forall k :: 0 <= k < |idx| ==> 0 <= idx[k] < |rows| && Occurrences(rows, Wkt, rows[idx[k]].wkt) >= 2
    ensures forall i :: 0 <= i < |rows| && Occurrences(rows, Wkt, rows[i].wkt) >= 2 ==> i in idx
  {
    idx := KeepDuplicatedSpec(rows, Wkt);
  }

  /** `attr_unique` lists every code of the input once, in the order codes first
      appear: entry `k` is the code of row `idx[k]`, the positions increase, each is
      the first row with its code, and every such first row is among them. */
  lemma AttrUniqueSpec(rows: seq<Row>) returns (idx: seq<int>)
    ensures |idx| == |AttrUnique(rows)|
    ensures forall k, l :: 0 <= k < l < |idx| ==> idx[k] < idx[l]
    ensures forall k :: 0 <= k < |idx| ==>
      && 0 <= idx[k] < |rows|
      && AttrUnique(rows)[k] == rows[idx[k]].code
      && IsFirstWithKey(rows, Code, idx[k])
    ensures forall i :: 0 <= i < |rows| && IsFirstWithKey(rows, Code, i) ==> i in idx
    ensures DistinctKeys(AttrUnique(rows), Id)
  {
    var codes := KeysOf(rows, Code);
    idx := DropDuplicatesSpec(codes, Id);
    forall i | 0 <= i < |rows| ensures IsFirstWithKey(rows, Code, i) <==> IsFirstWithKey(codes, Id, i) {
      assert forall k :: 0 <= k < i ==> (Code(rows[k]) != Code(rows[i]) <==> Id(codes[k]) != Id(codes[i]));
    }
  }

  /** The same in terms of membership: the codes listed are exactly the input's codes,
      each listed once. */
  lemma AttrUniqueMembers(rows: seq<Row>)
    ensures IsSubsequence(AttrUnique(rows), KeysOf(rows, Code))
    ensures DistinctKeys(AttrUnique(rows), Id)
    ensures forall c :: c in AttrUnique(rows) <==> exists i :: 0 <= i < |rows| && rows[i].code == c
  {
    var codes := KeysOf(rows, Code);
    var u := AttrUnique(rows);
    DropDuplicatesMembers(codes, Id);
    forall c | c in u ensures exists i :: 0 <= i < |rows| && rows[i].code == c {
      var i :| 0 <= i < |codes| && codes[i] == c && IsFirstWithKey(codes, Id, i);
      assert rows[i].code == c;
    }
    forall c | exists i :: 0 <= i < |rows| && rows[i].code == c ensures c in u {
      var i :| 0 <= i < |rows| && rows[i].code == c;
      var j := DropDuplicatesKeepsKey(codes, Id, i);
    }
  }

  /** `attr_duplicates` is `attr_unique` restricted to the codes that occur at least
      twice: the repeated codes, each once, in first-seen order (so every one of them
      is also in `attr_unique`). */
  lemma AttrDuplicatesSpec(rows: seq<Row>)
    ensures AttrDuplicates(rows) == KeepRepeated(AttrUnique(rows), Id, KeysOf(rows, Code))
    ensures IsSubsequence(AttrDuplicates(rows), AttrUnique(rows))
    ensures DistinctKeys(AttrDuplicates(rows), Id)
    ensures forall c :: c in AttrDuplicates(rows) <==> Occurrences(rows, Code, c) >= 2
  {
    var codes := KeysOf(rows, Code);
    KeysOfKeepRepeated(rows, Code, rows);
    DedupKeepRepeatedCommute(codes, codes, {}, {});
    var idx := KeepRepeatedSelects(AttrUnique(rows), Id, codes);
    assert IsSubsequence(AttrDuplicates(rows), AttrUnique(rows));
    AttrUniqueMembers(rows);
    SubsequenceDistinct(AttrDuplicates(rows), AttrUnique(rows), Id);
    AttrReportedRepeated(rows, idx);
    AttrRepeatedReported(rows, idx);
  }

  lemma AttrReportedRepeated(rows: seq<Row>, idx: seq<int>)
    requires |idx| == |AttrDuplicates(rows)|
    requires forall k :: 0 <= k < |idx| ==>
      && 0 <= idx[k] < |AttrUnique(rows)|
      && AttrDuplicates(rows)[k] == AttrUnique(rows)[idx[k]]
      && RepeatedAt(AttrUnique(rows), Id, KeysOf(rows, Code), idx[k])
    ensures forall c :: c in AttrDuplicates(rows) ==> Occurrences(rows, Code, c) >= 2
  {
    var d := AttrDuplicates(rows);
    forall c | c in d ensures Occurrences(rows, Code, c) >= 2 {
      OccurrencesOfKeys(rows, Code, c);
      var p :| 0 <= p < |d| && d[p] == c;
      assert RepeatedAt(AttrUnique(rows), Id, KeysOf(rows, Code), idx[p]);
    }
  }

  lemma AttrRepeatedReported(rows: seq<Row>, idx: seq<int>)
    requires |idx| == |AttrDuplicates(rows)|
    requires forall k :: 0 <= k < |idx| ==> 0 <= idx[k] < |AttrUnique(rows)| && AttrDuplicates(rows)[k] == AttrUnique(rows)[idx[k]]
    requires forall i :: 0 <= i < |AttrUnique(rows)| && RepeatedAt(AttrUnique(rows), Id, KeysOf(rows, Code), i) ==> i in idx
    ensures forall c :: Occurrences(rows, Code, c) >= 2 ==> c in AttrDuplicates(rows)
  {
    var codes := KeysOf(rows, Code);
    var u := AttrUnique(rows);
    var d := AttrDuplicates(rows);
    AttrUniqueMembers(rows);
    forall c | Occurrences(rows, Code, c) >= 2 ensures c in d {
      OccurrencesOfKeys(rows, Code, c);
      OccurrencesPositive(rows, Code, c);
      var i :| 0 <= i < |rows| && Code(rows[i]) == c;
      assert rows[i].code == c;
      assert c in u;
      var q :| 0 <= q < |u| && u[q] == c;
      assert RepeatedAt(u, Id, codes, q);
      var p :| 0 <= p < |idx| && idx[p] == q;
      assert d[p] == c;
    }
  }

  /** `num_point` is, in input order, exactly the rows of the full input whose vertex
      count is below 12, each reported as its code and count. */
  lemma NumPointSpec(rows: seq<Row>) returns (idx: seq<int>)
    ensures |idx| == |NumPoint(rows)|
    ensures forall k, l :: 0 <= k < l < |idx| ==> idx[k] < idx[l]
    ensures forall k :: 0 <= k < |idx| ==>
      && 0 <= idx[k] < |rows|
      && NumPoint(rows)[k] == CodeCount(rows[idx[k]].code, VertexCount(rows[idx[k]].geom))
      && VertexCount(rows[idx[k]].geom) < 12
    ensures forall i :: 0 <= i < |rows| && VertexCount(rows[i].geom) < 12 ==> i in idx
  {
    var entries := Map(rows, CodeAndCount);
    idx := FilterSelects(entries, FewVertices);
    forall i | 0 <= i < |rows| && VertexCount(rows[i].geom) < 12 ensures i in idx {
      assert FewVertices(entries[i]);
    }
  }

  /** The `centroid` sheet is, in input order, exactly the rows whose centroid lies
      outside their geometry. */
  lemma CentroidTableSpec(rows: seq<Row>, o: GeometryOracle) returns (idx: seq<int>)
    ensures Embeds(CentroidTable(rows, o), rows, idx)
    ensures forall k :: 0 <= k < |idx| ==> 0 <= idx[k] < |rows| && CentroidOutside(o, rows[idx[k]].geom)
    ensures forall i :: 0 <= i < |rows| && CentroidOutside(o, rows[i].geom) ==> i in idx
  {
    idx := FilterSelects(rows, OutsideTest(o));
    forall i | 0 <= i < |rows| && CentroidOutside(o, rows[i].geom) ensures i in idx {
      assert OutsideTest(o)(rows[i]);
    }
  }

  /** A triangle (four ring coordinates) is in `num_point`; a 20-gon is not. */
  lemma TriangleAndTwentyGon(triangle: Row, twentyGon: Row)
    requires triangle.geom.SinglePolygon? && |triangle.geom.polygon.exterior| == 4
    requires twentyGon.geom.SinglePolygon? && |twentyGon.geom.polygon.exterior| == 21
    ensures NumPoint([triangle, twentyGon]) == [CodeCount(triangle.code, 3)]
  {
    var entries := Map([triangle, twentyGon], CodeAndCount);
    assert entries == [CodeAndCount(triangle), CodeAndCount(twentyGon)];
    assert CodeAndCount(triangle) == CodeCount(triangle.code, 3);
    assert !FewVertices(CodeAndCount(twentyGon));
    assert entries[1..] == [CodeAndCount(twentyGon)];
    assert Filter(entries[1..], FewVertices) == Filter(entries[1..][1..], FewVertices);
    assert entries[1..][1..] == [];
  }

  /** The working table, which the analysis annotates in place with derived columns. */
  class GeoFrame {
    const rows: seq<Row>
    var numPoints: seq<int>
    var centroids: seq<Coord>
    var centroidOutside: seq<bool>

    constructor (rows: seq<Row>)
      ensures this.rows == rows
      ensures numPoints == [] && centroids == [] && centroidOutside == []
    {
      this.rows := rows;
      numPoints, centroids, centroidOutside := [], [], [];
    }

    ghost predicate HasNumPoints()
      reads this
    {
      |numPoints| == |rows| && forall i :: 0 <= i < |rows| ==> numPoints[i] == VertexCount(rows[i].geom)
    }

    ghost predicate HasCentroids(o: GeometryOracle)
      reads this
    {
      && |centroids| == |rows|
      && |centroidOutside| == |rows|
      && (forall i :: 0 <= i < |rows| ==> centroids[i] == o.centroid(rows[i].geom))
      && (forall i :: 0 <= i < |rows| ==> centroidOutside[i] == !o.contains(rows[i].geom, centroids[i]))
    }

    /** Sets every row's vertex count in the `num_points` column (:227). */
    method AddNumPoints()
      modifies this
      ensures HasNumPoints()
      ensures centroids == old(centroids) && centroidOutside == old(centroidOutside)
    {
      var rs := rows;
      numPoints := seq(|rs|, i requires 0 <= i < |rs| => VertexCount(rs[i].geom));
    }

    /** Sets every row's centroid, then whether its geometry fails to contain that
        centroid, in the `centroid` and `centroid_outside` columns (:234-235). */
    method AddCentroids(o: GeometryOracle)
      modifies this
      ensures HasCentroids(o)
      ensures numPoints == old(numPoints)
    {
      var rs := rows;
      var cs := seq(|rs|, i requires 0 <= i < |rs| => o.centroid(rs[i].geom));
      centroids := cs;
      centroidOutside := seq(|rs|, i requires 0 <= i < |rs| => !o.contains(rs[i].geom, cs[i]));
    }

    /** The `num_point` sheet, read off the `num_points` column. */
    method SelectNumPoint() returns (t: seq<CodeCount>)
      requires HasNumPoints()
      ensures t == NumPoint(rows)
    {
      var rs, counts := rows, numPoints;
      var entries := seq(|rs|, i requires 0 <= i < |rs| => CodeCount(rs[i].code, counts[i]));
      assert entries == Map(rs, CodeAndCount);
      t := Filter(entries, FewVertices);
    }

    /** The `centroid` sheet, read off the `centroid_outside` column. */
    method SelectCentroidOutside(ghost o: GeometryOracle) returns (t: seq<Row>)
      requires HasCentroids(o)
      ensures t == CentroidTable(rows, o)
    {
      t := Mask(rows, centroidOutside);
      forall i | 0 <= i < |rows| ensures centroidOutside[i] == OutsideTest(o)(rows[i]) {
      }
      MaskIsFilter(rows, centroidOutside, OutsideTest(o));
    }
  }
}
