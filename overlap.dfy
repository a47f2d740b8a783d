/** The pairwise overlap scan over the unique geometries: the `ovlp15` sheet. */
module Overlap {
  import opened Results
  import opened Geometry
  import opened Parcels
  import opened PairScan

  /** A pair is reported when its overall overlap exceeds this many percent. */
  const OverlapThreshold: real := 15.0

  /** One `ovlp15` row: both codes, both areas in thousandths of a hectare, and the
      overall and per-polygon overlap percentages in hundredths of a percent. */
  datatype OverlapRecord = OverlapRecord(
    code1: string, areaHa1: int,
    code2: string, areaHa2: int,
    overlapPct: int, overlapPct1: int, overlapPct2: int)

  /** Python's `min` of two areas: the first one when they are equal. */
  function MinArea(a1: real, a2: real): real {
    if a2 < a1 then a2 else a1
  }

  /** The scan measures a pair only when the first row's index label is below the
      second's and the geometries intersect. */
  predicate Examined(r1: Row, r2: Row, o: GeometryOracle) {
    r1.id < r2.id && o.intersects(r1.geom, r2.geom)
  }

  /** The intersection area as a percentage of the smaller of the two areas. */
  function OverallPercentage(r1: Row, r2: Row, o: GeometryOracle): real
    requires MinArea(o.area(r1.geom), o.area(r2.geom)) != 0.0
  {
    o.intersectionArea(r1.geom, r2.geom) / MinArea(o.area(r1.geom), o.area(r2.geom)) * 100.0
  }

  /** The pair is examined and overlaps by more than the threshold. */
  predicate Conflict(r1: Row, r2: Row, o: GeometryOracle) {
    && Examined(r1, r2, o)
    && MinArea(o.area(r1.geom), o.area(r2.geom)) != 0.0
    && OverallPercentage(r1, r2, o) > OverlapThreshold
  }

  /** The pair stops the scan with a division by zero: the smaller area is zero, or
      the pair is reported and one of the per-polygon percentages divides by zero. */
  predicate PairFails(r1: Row, r2: Row, o: GeometryOracle) {
    && Examined(r1, r2, o)
    && (|| MinArea(o.area(r1.geom), o.area(r2.geom)) == 0.0
        || (OverallPercentage(r1, r2, o) > OverlapThreshold
            && (o.area(r1.geom) == 0.0 || o.area(r2.geom) == 0.0)))
  }

  /** The record the scan appends for a reported pair. */
  function RecordOf(r1: Row, r2: Row, o: GeometryOracle): OverlapRecord
    requires Conflict(r1, r2, o) && !PairFails(r1, r2, o)
  {
    var inter := o.intersectionArea(r1.geom, r2.geom);
    var a1 := o.area(r1.geom);
    var a2 := o.area(r2.geom);
    OverlapRecord(
      r1.code, HectareThousandths(a1),
      r2.code, HectareThousandths(a2),
      PercentHundredths(OverallPercentage(r1, r2, o)),
      PercentHundredths(inter / a1 * 100.0),
      PercentHundredths(inter / a2 * 100.0))
  }

  /** The loop body on one pair: skip it, stop on a division by zero, or report it. */
  function Outcome(r1: Row, r2: Row, o: GeometryOracle): Step<OverlapRecord> {
    if !Examined(r1, r2, o) then Skip
    else if MinArea(o.area(r1.geom), o.area(r2.geom)) == 0.0 then Stop
    else if !(OverallPercentage(r1, r2, o) > OverlapThreshold) then Skip
    else if o.area(r1.geom) == 0.0 || o.area(r2.geom) == 0.0 then Stop
    else Emit(RecordOf(r1, r2, o))
  }

  /** The loop body stops on exactly the failing pairs, reports exactly the conflicts
      that do not fail, and skips the rest. */
  lemma OutcomeMeaning(r1: Row, r2: Row, o: GeometryOracle)
    ensures Outcome(r1, r2, o).Stop? <==> PairFails(r1, r2, o)
    ensures Outcome(r1, r2, o).Emit? <==> Conflict(r1, r2, o) && !PairFails(r1, r2, o)
    ensures Outcome(r1, r2, o).Emit? ==> Outcome(r1, r2, o).item == RecordOf(r1, r2, o)
  {
  }

  /** The loop body on rows `row1` and `row2`. */
  method ExaminePair(row1: Row, row2: Row, o: GeometryOracle) returns (out: Step<OverlapRecord>)
    ensures out == Outcome(row1, row2, o)
  {
    if !(row1.id < row2.id && o.intersects(row1.geom, row2.geom)) {
      return Skip;
    }
    var inter := o.intersectionArea(row1.geom, row2.geom);
    var area1 := o.area(row1.geom);
    var area2 := o.area(row2.geom);
    var smaller := MinArea(area1, area2);
    if smaller == 0.0 {
      return Stop;
    }
    var percentage := inter / smaller * 100.0;
    if !(percentage > OverlapThreshold) {
      return Skip;
    }
    if area1 == 0.0 || area2 == 0.0 {
      return Stop;
    }
    out := Emit(RecordOf(row1, row2, o));
  }

  /** The loop body on the rows at positions `i` and `j` of the table. */
  function Visit(rows: seq<Row>, o: GeometryOracle): (int, int) -> Step<OverlapRecord> {
    (i: int, j: int) => if 0 <= i < |rows| && 0 <= j < |rows| then Outcome(rows[i], rows[j], o) else Skip
  }

  /** The `ovlp15` table of a unique-geometry table, or the division by zero that
      stops the run. */
  ghost function OverlapScan(rows: seq<Row>, o: GeometryOracle): Result<seq<OverlapRecord>, Failure> {
    match Scan(Visit(rows, o), |rows|)
    case None => Failure(ZeroDivision)
    case Some(recs) => Success(recs)
  }

  /** The inner loop: every second row against first row `i`; `None` when a pair
      divides by zero. */
  method ScanRow(rows: seq<Row>, o: GeometryOracle, i: int) returns (res: Option<seq<OverlapRecord>>)
    requires 0 <= i < |rows|
    ensures res == RowFold(Visit(rows, o), i, |rows|)
  {
    var found: seq<OverlapRecord> := [];
    var j := 0;
    while j < |rows|
      invariant 0 <= j <= |rows|
      invariant RowFold(Visit(rows, o), i, j) == Some(found)
    {
      var out := ExaminePair(rows[i], rows[j], o);
      match out {
        case Stop =>
          RowFoldStaysStopped(Visit(rows, o), i, j + 1, |rows|);
          return None;
        case Skip =>
        case Emit(rec) =>
          found := found + [rec];
      }
      j := j + 1;
    }
    res := Some(found);
  }

  /** The nested scan over all ordered pairs of rows. */
  method ScanOverlaps(rows: seq<Row>, o: GeometryOracle) returns (res: Result<seq<OverlapRecord>, Failure>)
    ensures res == OverlapScan(rows, o)
  {
    ScanFoldIsScan(Visit(rows, o), |rows|);
    var overlaps: seq<OverlapRecord> := [];
    var i := 0;
    while i < |rows|
      invariant 0 <= i <= |rows|
      invariant ScanFold(Visit(rows, o), |rows|, i) == Some(overlaps)
    {
      var row := ScanRow(rows, o, i);
      if row.None? {
        ScanFoldStaysStopped(Visit(rows, o), |rows|, i + 1, |rows|);
        return Failure(ZeroDivision);
      }
      overlaps := overlaps + row.value;
      i := i + 1;
    }
    res := Success(overlaps);
  }

  /** The scan fails exactly when some pair of rows divides by zero, and then with
      that error. */
  lemma OverlapScanFails(rows: seq<Row>, o: GeometryOracle)
    ensures OverlapScan(rows, o).Failure? <==>
      exists i, j :: 0 <= i < |rows| && 0 <= j < |rows| && PairFails(rows[i], rows[j], o)
    ensures OverlapScan(rows, o).Failure? ==> OverlapScan(rows, o).error == ZeroDivision
  {
    var visit := Visit(rows, o);
    if Stops(visit, |rows|) {
      var i, j :| 0 <= i < |rows| && 0 <= j < |rows| && visit(i, j).Stop?;
      OutcomeMeaning(rows[i], rows[j], o);
    }
    if exists i, j :: 0 <= i < |rows| && 0 <= j < |rows| && PairFails(rows[i], rows[j], o) {
      var i, j :| 0 <= i < |rows| && 0 <= j < |rows| && PairFails(rows[i], rows[j], o);
      OutcomeMeaning(rows[i], rows[j], o);
      assert visit(i, j).Stop?;
    }
  }

  /** A successful scan reports, in scan order, exactly the examined pairs whose overlap
      exceeds the threshold, one record per pair. */
  lemma OverlapScanSpec(rows: seq<Row>, o: GeometryOracle) returns (hits: seq<Hit>)
    requires OverlapScan(rows, o).Success?
    ensures |hits| == |OverlapScan(rows, o).value|
    ensures forall k :: 0 <= k < |hits| ==>
      && 0 <= hits[k].first < |rows| && 0 <= hits[k].second < |rows|
      && rows[hits[k].first].id < rows[hits[k].second].id
      && Conflict(rows[hits[k].first], rows[hits[k].second], o)
      && !PairFails(rows[hits[k].first], rows[hits[k].second], o)
      && OverlapScan(rows, o).value[k] == RecordOf(rows[hits[k].first], rows[hits[k].second], o)
    ensures InScanOrder(hits)
    ensures forall i, j :: 0 <= i < |rows| && 0 <= j < |rows| && Conflict(rows[i], rows[j], o) ==> Hit(i, j) in hits
  {
    var visit, n := Visit(rows, o), |rows|;
    hits := Hits(visit, n, n);
    assert OverlapScan(rows, o).value == Items(visit, hits);
    HitsOrdered(visit, n, n);
    HitsComplete(visit, n, n);
    forall k | 0 <= k < |hits|
      ensures && 0 <= hits[k].first < n && 0 <= hits[k].second < n
              && Conflict(rows[hits[k].first], rows[hits[k].second], o)
              && !PairFails(rows[hits[k].first], rows[hits[k].second], o)
              && OverlapScan(rows, o).value[k] == RecordOf(rows[hits[k].first], rows[hits[k].second], o)
    {
      EmittedPair(rows, o, hits[k].first, hits[k].second);
    }
    forall i, j | 0 <= i < n && 0 <= j < n && Conflict(rows[i], rows[j], o) ensures Hit(i, j) in hits {
      OutcomeMeaning(rows[i], rows[j], o);
      assert !visit(i, j).Stop?;
    }
  }

  /** A pair the scan reports is a conflict that does not fail, and is reported by its
      record. */
  lemma EmittedPair(rows: seq<Row>, o: GeometryOracle, i: int, j: int)
    requires 0 <= i < |rows| && 0 <= j < |rows| && Visit(rows, o)(i, j).Emit?
    ensures Conflict(rows[i], rows[j], o) && !PairFails(rows[i], rows[j], o)
    ensures Visit(rows, o)(i, j).item == RecordOf(rows[i], rows[j], o)
  {
    OutcomeMeaning(rows[i], rows[j], o);
  }

  /** A reported pair's overall percentage is above the threshold once rounded, and it
      is the per-polygon percentage of the smaller polygon: the second's when its area
      is strictly smaller, the first's otherwise (Python's `min` keeps the first of
      two equal areas). */
  lemma RecordOfPercentages(r1: Row, r2: Row, o: GeometryOracle)
    requires Conflict(r1, r2, o) && !PairFails(r1, r2, o)
    ensures RecordOf(r1, r2, o).overlapPct >= 1500
    ensures o.area(r2.geom) < o.area(r1.geom) ==> RecordOf(r1, r2, o).overlapPct == RecordOf(r1, r2, o).overlapPct2
    ensures o.area(r1.geom) <= o.area(r2.geom) ==> RecordOf(r1, r2, o).overlapPct == RecordOf(r1, r2, o).overlapPct1
  {
    var pct := OverallPercentage(r1, r2, o);
    RoundHalfEvenAbove(pct * 100.0, 1500);
  }

  /** Every record of a successful scan is above the threshold, and its overall
      percentage is that of the polygon with the strictly smaller recorded area. */
  lemma OverlapRecordsAboveThreshold(rows: seq<Row>, o: GeometryOracle)
    requires OverlapScan(rows, o).Success?
    ensures forall rec :: rec in OverlapScan(rows, o).value ==>
      && rec.overlapPct >= 1500
      && (rec.areaHa1 < rec.areaHa2 ==> rec.overlapPct == rec.overlapPct1)
      && (rec.areaHa2 < rec.areaHa1 ==> rec.overlapPct == rec.overlapPct2)
  {
    var recs := OverlapScan(rows, o).value;
    var hits := OverlapScanSpec(rows, o);
    forall rec | rec in recs
      ensures && rec.overlapPct >= 1500
              && (rec.areaHa1 < rec.areaHa2 ==> rec.overlapPct == rec.overlapPct1)
              && (rec.areaHa2 < rec.areaHa1 ==> rec.overlapPct == rec.overlapPct2)
    {
      var k :| 0 <= k < |recs| && recs[k] == rec;
      var r1, r2 := rows[hits[k].first], rows[hits[k].second];
      RecordOfPercentages(r1, r2, o);
      var a1, a2 := o.area(r1.geom), o.area(r2.geom);
      if a1 <= a2 {
        HectareThousandthsMonotone(a1, a2);
      } else {
        HectareThousandthsMonotone(a2, a1);
      }
    }
  }

  /** Index labels grow with the position, as a freshly numbered table's do. */
  ghost predicate IdsIncreasing(rows: seq<Row>) {
    forall a, b :: 0 <= a < b < |rows| ==> rows[a].id < rows[b].id
  }

  lemma IdsOrderPositions(rows: seq<Row>, a: int, b: int)
    requires IdsIncreasing(rows)
    requires 0 <= a < |rows| && 0 <= b < |rows| && rows[a].id < rows[b].id
    ensures a < b
  {
  }

  /** With growing index labels every reported pair has its first row earlier in the
      table than its second. */
  lemma ForwardPairs(rows: seq<Row>, o: GeometryOracle)
    requires IdsIncreasing(rows)
    ensures forall h :: h in Hits(Visit(rows, o), |rows|, |rows|) ==> h.first < h.second
  {
    var hits := Hits(Visit(rows, o), |rows|, |rows|);
    forall h | h in hits ensures h.first < h.second {
      var k :| 0 <= k < |hits| && hits[k] == h;
      OutcomeMeaning(rows[h.first], rows[h.second], o);
      IdsOrderPositions(rows, h.first, h.second);
    }
  }
}
