/** One run of the analysis: the checks on the upload, the nine sheets of the report
    and the name the report is offered under. */
module Analysis {
  import opened Results
  import opened Sequences
  import opened Geometry
  import opened Parcels
  import opened Overlap
  import opened Resolve
  import opened Upload

  /** A `valid` row with its derived columns: the `num_points` it carries over from
      `geo_unique`, and the ones the last step adds, its area in thousandths of a
      hectare and its centroid's longitude and latitude in units of 1e-8 degrees. */
  datatype ValidEntry = ValidEntry(row: Row, numPoints: int, areaHa: int, longitude: int, latitude: int)

  function EntryOf(o: GeometryOracle): Row -> ValidEntry {
    (r: Row) => ValidEntry(
      r, VertexCount(r.geom), HectareThousandths(o.area(r.geom)),
      DegreesE8(o.centroid(r.geom).x), DegreesE8(o.centroid(r.geom).y))
  }

  /** The report's sheets, in the order they are written, and its download name. */
  datatype Report = Report(
    allData: seq<Row>,
    geoUnique: seq<CountedRow>,
    geoDuplicates: seq<Row>,
    attrDuplicates: seq<string>,
    attrUnique: seq<string>,
    numPoint: seq<CodeCount>,
    centroid: seq<Row>,
    ovlp15: seq<OverlapRecord>,
    valid: seq<ValidEntry>,
    fileName: string)

  /** The outcome of a run on an upload named `name` with header `columns` whose rows
      load as `rows`: the first check that fails stops it, in the script's order. */
  ghost function AnalysisOf(name: string, columns: seq<string>, rows: seq<Row>, o: GeometryOracle): Result<Report, Failure> {
    if FormatOf(name).Failure? then Failure(FormatOf(name).error)
    else if CheckColumns(columns).Failure? then Failure(CheckColumns(columns).error)
    else
      match OverlapScan(GeoUnique(rows), o)
      case Failure(e) => Failure(e)
      case Success(ovlp) =>
        Success(Report(
          rows, GeoUniqueTable(rows), GeoDuplicates(rows), AttrDuplicates(rows), AttrUnique(rows),
          NumPoint(rows), CentroidTable(rows, o), ovlp,
          Map(ValidRows(GeoUnique(rows), ovlp), EntryOf(o)),
          ReportFileName(name)))
  }

  /** The script from the upload to the download name. */
  method Analyze(name: string, columns: seq<string>, rows: seq<Row>, o: GeometryOracle)
    returns (res: Result<Report, Failure>)
    ensures res == AnalysisOf(name, columns, rows, o)
  {
    var format := FormatOf(name);
    if format.Failure? {
      return Failure(format.error);
    }
    var checked := CheckColumns(columns);
    if checked.Failure? {
      return Failure(checked.error);
    }
    var geoUnique := GeoUnique(rows);
    var geoUniqueTable := GeoUniqueTable(rows);
    var geoDuplicates := GeoDuplicates(rows);
    var attrDuplicates := AttrDuplicates(rows);
    var attrUnique := AttrUnique(rows);
    var frame := new GeoFrame(rows);
    frame.AddNumPoints();
    var numPoint := frame.SelectNumPoint();
    frame.AddCentroids(o);
    var centroid := frame.SelectCentroidOutside(o);
    var scan := ScanOverlaps(geoUnique, o);
    if scan.Failure? {
      return Failure(scan.error);
    }
    var valid := ResolveConflicts(geoUnique, scan.value);
    res := Success(Report(
      rows, geoUniqueTable, geoDuplicates, attrDuplicates, attrUnique,
      numPoint, centroid, scan.value, Map(valid, EntryOf(o)), ReportFileName(name)));
  }

  /** A run stops on an unsupported name, then on a missing column, then on a pair of
      unique geometries that divides by zero, and produces a report exactly when none
      of the three happens. */
  lemma AnalysisStops(name: string, columns: seq<string>, rows: seq<Row>, o: GeometryOracle)
    ensures AnalysisOf(name, columns, rows, o) == Failure(UnsupportedFormat) <==>
      forall f :: !EndsWith(name, SuffixOf(f))
    ensures AnalysisOf(name, columns, rows, o) == Failure(MissingColumns) <==>
      && (exists f :: EndsWith(name, SuffixOf(f)))
      && (exists c :: c in RequiredColumns && c !in columns)
    ensures AnalysisOf(name, columns, rows, o) == Failure(ZeroDivision) <==>
      && (exists f :: EndsWith(name, SuffixOf(f)))
      && (forall c :: c in RequiredColumns ==> c in columns)
      && (exists i, j :: 0 <= i < |GeoUnique(rows)| && 0 <= j < |GeoUnique(rows)| &&
                         PairFails(GeoUnique(rows)[i], GeoUnique(rows)[j], o))
    ensures AnalysisOf(name, columns, rows, o).Success? <==>
      && (exists f :: EndsWith(name, SuffixOf(f)))
      && (forall c :: c in RequiredColumns ==> c in columns)
      && !(exists i, j :: 0 <= i < |GeoUnique(rows)| && 0 <= j < |GeoUnique(rows)| &&
                          PairFails(GeoUnique(rows)[i], GeoUnique(rows)[j], o))
  {
    FormatOfSpec(name);
    OverlapScanFails(GeoUnique(rows), o);
    if FormatOf(name).Success? {
      assert EndsWith(name, SuffixOf(FormatOf(name).value));
    }
  }

  /** A report's `valid` rows are unique geometries with distinct codes and distinct
      WKTs, no two of them overlap beyond the threshold, every `ovlp15` record is above
      it, and the download name is a `.xlsx` name with the report prefix. */
  lemma AnalysisReport(name: string, columns: seq<string>, rows: seq<Row>, o: GeometryOracle)
    requires AnalysisOf(name, columns, rows, o).Success?
    ensures var rep := AnalysisOf(name, columns, rows, o).value;
      && (forall k :: 0 <= k < |rep.valid| ==> rep.valid[k].row in GeoUnique(rows))
      && (forall k, l :: 0 <= k < l < |rep.valid| ==>
            rep.valid[k].row.code != rep.valid[l].row.code && rep.valid[k].row.wkt != rep.valid[l].row.wkt)
      && (forall k, l :: 0 <= k < |rep.valid| && 0 <= l < |rep.valid| ==>
            !Conflict(rep.valid[k].row, rep.valid[l].row, o))
      && (forall rec :: rec in rep.ovlp15 ==> rec.overlapPct >= 1500)
      && EndsWith(rep.fileName, ReportSuffix)
      && rep.fileName[..|ReportPrefix|] == ReportPrefix
  {
    var gu := GeoUnique(rows);
    var rep := AnalysisOf(name, columns, rows, o).value;
    var valid := ValidRows(gu, rep.ovlp15);
    ValidSpec(gu, rep.ovlp15);
    ValidHasNoConflicts(gu, o);
    OverlapRecordsAboveThreshold(gu, o);
    ReportFileNameSpec(name);
    var idx :| Embeds(valid, gu, idx);
    forall k | 0 <= k < |rep.valid| ensures rep.valid[k].row == valid[k] && valid[k] in valid {
    }
    forall k | 0 <= k < |rep.valid| ensures rep.valid[k].row in gu {
      assert gu[idx[k]] == valid[k];
    }
  }
}
