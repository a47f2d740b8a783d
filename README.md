# Geospatial parcel report — a verified model of its data-cleaning core

`geospatial_app.py` is a Streamlit page for checking a file of plantation parcels.
Each parcel carries a `Plantation Code`, a `wkt_geom` text and a polygon or
multi-polygon geometry. The page builds a nine-sheet Excel report from the upload:

- `all_data`;
- the unique and the duplicate geometries (`geo_unique`, `geo_duplicates`);
- the duplicate and the unique codes (`attr_duplicates`, `attr_unique`);
- the polygons with fewer than 12 vertices (`num_point`);
- the polygons whose centroid falls outside them (`centroid`);
- every pair of unique geometries that overlaps by more than 15 % (`ovlp15`);
- a cleaned `valid` table: one parcel per code. For every `ovlp15` record, the
  row carrying the record's losing code is removed. The losing code is the one
  whose hectare area, rounded to three places, is strictly smaller; on a tie it
  is the second code. The removed row need not be either polygon of the pair, and
  the larger polygon can lose when both round to the same value.

This project models that core in Dafny and proves what each table contains.
There is one module per file:

| module (file) | what it holds |
|---|---|
| `Results` (results.dfy) | `Option`, `Result`, and the three ways a run stops |
| `Sequences` (sequences.dfy) | subsequence embeddings, per-row maps, key columns, occurrence counts, filters, boolean masks |
| `Partition` (partition.dfy) | `drop_duplicates(keep='first')` and `duplicated(keep=False)` over any key column |
| `Geometry` (geometry.dfy) | the geometry variant; `count_vertices`; the geometry operations, as an oracle of total functions; Python's half-to-even `round` |
| `Parcels` (parcels.dfy) | the parcel row; the diagnostic sheets; the working data frame as a class whose derived columns are set in place |
| `PairScan` (pairscan.dfy) | a nested loop over all ordered pairs of positions whose body may skip, stop, or emit an item; its folds and what they compute |
| `Overlap` (overlap.dfy) | the loop body on one pair of rows, the `ovlp15` scan as two nested loops, and what a scan reports |
| `Resolve` (resolve.dfy) | the conflict resolution producing `valid` |
| `Upload` (upload.dfy) | how the upload's name picks a reader, the required-columns check, the download name |
| `Analysis` (analysis.dfy) | one whole run, from the upload to the report |

Representation choices:

- Areas and percentages are exact reals.
- Every rounded column is an integer count of its last decimal place:
  - thousandths of a hectare;
  - hundredths of a percent;
  - 10⁻⁸ degrees.
- A row's index label is its `id`.

Three behaviours of the script shape the model:

- **A zero area stops the run.** The overall percentage divides the intersection
  area by the smaller of the two areas (:257). For a pair of intersecting
  geometries whose smaller area is zero, this raises a Python `ZeroDivisionError`
  and ends the run without a report. The model returns `Failure(ZeroDivision)`.
  `Overlap.PairFails` also covers a division by zero in the per-polygon percentages
  (:259-260). That needs a zero area beside a non-zero smaller one, so only a
  negative area reaches it. Shapely areas are never negative, so the script cannot
  take that path; the model's oracle allows any real area and keeps the case.
- **Rows with the same WKT text never meet in the overlap scan.** Both loops run over
  `geo_unique_gdf` (:243-246), which keeps one row per `wkt_geom` text (:192). Two
  rows with the same WKT are never compared with each other. Rows whose geometries are
  equal but whose WKT texts differ (another starting vertex, another precision) are
  still compared.
- **Pairs are ordered by index label.** The loop skips a pair when `i >= j` (:247).
  Here `i` and `j` are the index labels that `iterrows` yields, not positions. The
  model compares the rows' `id`s. `Overlap.ForwardPairs` shows that this is the
  positional order when labels increase.

## Model

| member | source | states |
|---|---|---|
| Geometry.VertexCountMultiAppend | geospatial_app.py:195-200 | a multi-polygon's vertex count is additive over its parts |
| Geometry.VertexCountMultiSingle | geospatial_app.py:195-200 | a one-part multi-polygon counts as its polygon |
| Geometry.VertexCountClosedRings | geospatial_app.py:195-200 | parts with closed rings of at least four coordinates count at least three vertices each |
| Geometry.RoundHalfEven | geospatial_app.py:263-268 | the result is within one half of the value, and an exact tie goes to the even neighbour |
| Geometry.RoundHalfEvenUnique | geospatial_app.py:263-268 | only one integer meets both rounding promises |
| Geometry.RoundHalfEvenAbove | geospatial_app.py:258-266 | a value above an integer bound rounds to at least that bound |
| Geometry.RoundHalfEvenMonotone | geospatial_app.py:263-268 | rounding never reverses an order |
| Geometry.HectareThousandthsMonotone | geospatial_app.py:263-265 | the larger area never gets the smaller rounded hectare value, as the area comparison at :299 relies on |
| Partition.DedupAfterSelects | geospatial_app.py:192 | the left-to-right dedup scan keeps, in order, exactly the rows whose key it has not yet seen |
| Partition.FirstWithKey | geospatial_app.py:192 | every key has a first row carrying it |
| Partition.DropDuplicatesSpec | geospatial_app.py:192 | `drop_duplicates` keeps, in order and once each, exactly the positions that are the first of their key: the result is the rows at those positions, and the keys are distinct |
| Partition.DropDuplicatesMembers | geospatial_app.py:192 | the same result read as values: an ordered subsequence with distinct keys that holds every first row of a key and only first rows |
| Partition.DropDuplicatesKeepsKey | geospatial_app.py:192 | no key of the input is lost |
| Partition.DedupAfterNoop | geospatial_app.py:308-309 | a table with distinct, unseen keys passes the scan unchanged |
| Partition.DropDuplicatesNoop | geospatial_app.py:308-309 | dropping duplicates from a table with distinct keys changes nothing |
| Partition.DropDuplicatesIdempotent | geospatial_app.py:192 | dropping duplicates twice is dropping them once |
| Partition.KeepRepeatedIsFilter | geospatial_app.py:209-215 | the repeated-key selection is the filter "key occurs at least twice" |
| Partition.KeepRepeatedSelects | geospatial_app.py:209-215 | it keeps, in order, exactly the rows whose key occurs at least twice |
| Partition.KeepDuplicatedSpec | geospatial_app.py:209 | `duplicated(keep=False)` keeps, in order and once each, exactly the positions whose key occurs at least twice, first occurrence included; the result is the rows at those positions |
| Partition.KeysOfKeepRepeated | geospatial_app.py:215 | projecting onto the key column commutes with the repeated-key selection |
| Partition.DedupKeepRepeatedCommute | geospatial_app.py:215 | on a key column, deduplicating commutes with the repeated-key selection |
| Parcels.GeoUniqueSpec | geospatial_app.py:192 | `geo_unique` is, in order and once each, the rows at exactly the positions that are the first of their WKT; no WKT repeats; deduplicating it again changes nothing |
| Parcels.GeoUniqueKeepsKeys | geospatial_app.py:192 | every WKT of the input is a WKT of `geo_unique` |
| Parcels.GeoDuplicatesSpec | geospatial_app.py:209 | `geo_duplicates` is, in order and once each, the rows at exactly the positions whose WKT occurs at least twice |
| Parcels.AttrUniqueSpec | geospatial_app.py:221 | `attr_unique` lists, at increasing positions, the code of exactly the rows that are the first of their code, each code once |
| Parcels.AttrUniqueMembers | geospatial_app.py:221 | `attr_unique` is an ordered subsequence of the code column without repeats, and a code is in it iff some row carries it |
| Parcels.AttrDuplicatesSpec | geospatial_app.py:215 | `attr_duplicates`: `attr_unique` restricted to the repeated codes, each once; a code is listed iff it occurs at least twice |
| Parcels.AttrReportedRepeated | geospatial_app.py:215 | every listed duplicate code occurs at least twice |
| Parcels.AttrRepeatedReported | geospatial_app.py:215 | every code occurring at least twice is listed |
| Parcels.NumPointSpec | geospatial_app.py:227-228 | `num_point`: in input order, exactly the rows of the full table with fewer than 12 vertices, each as its code and count |
| Parcels.CentroidTableSpec | geospatial_app.py:234-236 | `centroid`: in input order, exactly the rows whose centroid is not inside their geometry |
| Parcels.TriangleAndTwentyGon | geospatial_app.py:195-228 | a triangle (four ring coordinates) is in `num_point` with count 3; a 20-gon is not |
| Parcels.GeoFrame.constructor | geospatial_app.py:153 | a frame over the rows that has no derived columns yet |
| Parcels.GeoFrame.AddNumPoints | geospatial_app.py:227 | sets the `num_points` column to each row's vertex count; the centroid columns are unchanged |
| Parcels.GeoFrame.AddCentroids | geospatial_app.py:234-235 | sets the `centroid` and `centroid_outside` columns row by row; `num_points` is unchanged |
| Parcels.GeoFrame.SelectNumPoint | geospatial_app.py:228 | read off the `num_points` column, the selection is the `num_point` sheet |
| Parcels.GeoFrame.SelectCentroidOutside | geospatial_app.py:236 | the boolean-mask selection on `centroid_outside` is the `centroid` sheet |
| PairScan.RowHits | geospatial_app.py:246-247 | emitting pairs of one outer row, all within range; `PairScan.RowHitsOrdered` and `PairScan.RowHitsComplete` prove they come in inner-loop order and that none is missing |
| PairScan.Hits | geospatial_app.py:245-247 | the emitting pairs of the whole scan, all within range |
| PairScan.Items | geospatial_app.py:260-269 | the items emitted by the listed pairs, one per pair, in the pairs' order |
| PairScan.RowFoldStaysStopped | geospatial_app.py:246-258 | once a pair has stopped the inner loop, later pairs do not restart it |
| PairScan.ScanFoldStaysStopped | geospatial_app.py:245-258 | once a row has stopped the outer loop, later rows do not restart it |
| PairScan.RowFoldRuns | geospatial_app.py:246-269 | the inner loop over the first `j` pairs runs through iff none of them stops it |
| PairScan.RowFoldItems | geospatial_app.py:246-269 | when it runs through, it collects the items of the emitting pairs in order |
| PairScan.ScanFoldRuns | geospatial_app.py:245-269 | the outer loop over the first `i` rows runs through iff no pair of those rows stops it |
| PairScan.ScanFoldItems | geospatial_app.py:245-269 | when it runs through, it collects the rows' items in order |
| PairScan.ScanFoldIsScan | geospatial_app.py:244-270 | the full nested fold is the scan: nothing if some pair stops it, otherwise the items of all emitting pairs |
| PairScan.HitsOrdered | geospatial_app.py:245-246 | the emitting pairs are listed in visiting order |
| PairScan.HitsComplete | geospatial_app.py:245-246 | every emitting pair is listed |
| Overlap.OutcomeMeaning | geospatial_app.py:247-269 | the loop body stops on exactly the pairs that divide by zero, reports exactly the conflicts that do not, with their record, and skips the rest |
| Overlap.ExaminePair | geospatial_app.py:247-269 | the loop body as the script runs it, branch by branch |
| Overlap.ScanRow | geospatial_app.py:246-269 | the inner loop computes the inner fold for its outer row |
| Overlap.ScanOverlaps | geospatial_app.py:244-270 | the nested loops compute the `ovlp15` scan |
| Overlap.OverlapScanFails | geospatial_app.py:253-259 | the scan fails iff some pair of rows divides by zero, and then with `ZeroDivision` |
| Overlap.OverlapScanSpec | geospatial_app.py:244-270 | a successful scan reports, in scan order and one record per pair, exactly the examined pairs whose overlap exceeds 15 % |
| Overlap.EmittedPair | geospatial_app.py:258-269 | a reported pair is a conflict that does not divide by zero, reported by its record |
| Overlap.RecordOfPercentages | geospatial_app.py:256-268 | a record's overall percentage rounds to at least 15.00; it is the second polygon's percentage when that polygon is strictly smaller, otherwise the first's |
| Overlap.OverlapRecordsAboveThreshold | geospatial_app.py:258-270 | every `ovlp15` record is at least 15.00 %, and its overall percentage is that of the polygon with the strictly smaller rounded area |
| Overlap.ForwardPairs | geospatial_app.py:247 | with labels increasing by position, every reported pair has its first row earlier in the table |
| Resolve.CodeIndexSpec | geospatial_app.py:288 | the code-to-label dictionary knows exactly the table's codes, maps them to labels of the table, and maps each to the label of its last row |
| Resolve.DistinctCodesLast | geospatial_app.py:280-288 | with distinct codes, every row is the last row with its code |
| Resolve.LoserCodeSpec | geospatial_app.py:299-304 | the losing code is one of the two, the first when its area is strictly smaller, otherwise the second (ties included) |
| Resolve.Loser | geospatial_app.py:295-304 | a record marks a label iff both its codes resolve to labels of the table; the mark is one of the two resolved labels |
| Resolve.MarkedIds | geospatial_app.py:289-304 | the marked labels are labels of the table |
| Resolve.MarkedIdsSpec | geospatial_app.py:289-304 | a label is marked iff some record marks it; marks never depend on earlier marks |
| Resolve.MarkedIdsOrderFree | geospatial_app.py:290 | the marked set depends only on which records there are, not on their order |
| Resolve.MarkLosers | geospatial_app.py:289-304 | the marking loop, with `.get` lookups and the three area branches, collects the marked set |
| Resolve.DropLabelsIsFilter | geospatial_app.py:305 | dropping labels is the filter "label not dropped" |
| Resolve.DropLabelsSpec | geospatial_app.py:305 | dropping keeps an ordered subsequence: exactly the rows whose label is not dropped |
| Resolve.ResolveConflicts | geospatial_app.py:277-309 | the resolution as the script runs it computes the `valid` rows |
| Resolve.AfterConflictsSpec | geospatial_app.py:286-305 | step 3 keeps, in order, exactly the step-1 rows whose label no record marks |
| Resolve.ValidSpec | geospatial_app.py:277-309 | `valid` is an ordered subsequence of `geo_unique` with distinct codes and distinct WKTs |
| Resolve.FinalDedupsNoop | geospatial_app.py:308-309 | on a table with distinct WKTs (such as `geo_unique`), the dedups after step 3 remove nothing |
| Resolve.StepOneLabel | geospatial_app.py:280-288 | after step 1 the dictionary maps every row's code to that row's label |
| Resolve.LoserMarked | geospatial_app.py:295-304 | a record whose two codes are in the step-1 table marks its loser's label |
| Resolve.ValidWithinAfter | geospatial_app.py:308-309 | every `valid` row is a step-3 row |
| Resolve.ValidHasCodeInStep1 | geospatial_app.py:280-309 | a code left in `valid` is a step-1 code |
| Resolve.LoserGone | geospatial_app.py:286-309 | no `valid` row carries the loser's code of a record whose codes both survive step 1 |
| Resolve.ConflictRecord | geospatial_app.py:244-270 | a successful scan holds a record with the codes of every conflicting pair |
| Resolve.ValidHasNoConflicts | geospatial_app.py:244-309 | after a successful scan, no two `valid` rows overlap by more than 15 % |
| Resolve.MarkedRowStillMarksPartner | geospatial_app.py:297 | with A>B and B>C, marks are collected before any drop, so B still decides against C and only A is valid |
| Resolve.ByCodeStepOne | geospatial_app.py:280 | step 1 on rows with codes P, P, Q keeps the first P and Q |
| Resolve.RecordResolvesByCode | geospatial_app.py:288-296 | a record names codes, not rows: a record for the P row that step 1 dropped removes the P row it kept, leaving only Q |
| Resolve.LargerPolygonCanLose | geospatial_app.py:263-265 | areas of 10000 and 10004 square metres both record as 1.000 ha, and by the tie rule at :303-304 the larger second polygon's code is the one removed |
| Resolve.SameCodePairDropsCode | geospatial_app.py:295-305 | a record whose two codes coincide drops the surviving row of that code, so the code disappears from `valid` |
| Upload.FormatOfSpec | geospatial_app.py:150-169 | the reader chosen is the one whose suffix the name ends with; a name with none of the three suffixes is refused with `UnsupportedFormat` |
| Upload.CheckColumns | geospatial_app.py:175-178 | the run goes on iff both required columns are present, otherwise with `MissingColumns` |
| Upload.Stem | geospatial_app.py:344 | the stem is a dot-free prefix of the name that is the whole name or is followed by a dot |
| Upload.Underscored | geospatial_app.py:345 | same length; every space becomes an underscore and nothing else changes |
| Upload.StemUnique | geospatial_app.py:344 | only one prefix has the stem's properties |
| Upload.StemOfExtended | geospatial_app.py:344 | a dot-free base name with any extension has that base as its stem |
| Upload.ReportFileNameSpec | geospatial_app.py:344-346 | the download name is the report prefix, the stem with spaces made underscores (no space, no dot), and `.xlsx` |
| Upload.ReportFileNameExample | geospatial_app.py:344-346 | "a b.v2.kml" is reported as "geospatial_report_a_b.xlsx" |
| Analysis.Analyze | geospatial_app.py:146-346 | the whole run, through the frame's in-place columns and both loops, computes the run's outcome |
| Analysis.AnalysisStops | geospatial_app.py:150-270 | a run stops with `UnsupportedFormat` iff no suffix matches; with `MissingColumns` iff a suffix matches and a required column is missing; with `ZeroDivision` iff both pass and some pair of unique geometries divides by zero; it produces a report iff none of the three happens, so it fails in no other way |
| Analysis.AnalysisReport | geospatial_app.py:192-346 | a report's `valid` rows come from `geo_unique`, have distinct codes and WKTs, and no two of them conflict; every `ovlp15` record is at least 15.00 % after rounding; the download name has the report prefix and `.xlsx` |
| Geometry.VertexCount | geospatial_app.py:195-200 | definition of `count_vertices`; characterised by `Geometry.VertexCountMultiAppend`, `Geometry.VertexCountMultiSingle` and `Geometry.VertexCountClosedRings` |
| Parcels.GeoUnique | geospatial_app.py:192 | definition of `geo_unique_gdf`; characterised by `Parcels.GeoUniqueSpec` and `Parcels.GeoUniqueKeepsKeys` |
| Parcels.GeoUniqueTable | geospatial_app.py:201-203 | definition of the `geo_unique` sheet, each row with its `num_points`; its rows are those of `Parcels.GeoUniqueSpec` |
| Parcels.GeoDuplicates | geospatial_app.py:209 | definition of `geo_duplicates`; characterised by `Parcels.GeoDuplicatesSpec` |
| Parcels.AttrUnique | geospatial_app.py:221 | definition of `attr_unique`; characterised by `Parcels.AttrUniqueSpec` and `Parcels.AttrUniqueMembers` |
| Parcels.AttrDuplicates | geospatial_app.py:215 | definition of `attr_duplicates`; characterised by `Parcels.AttrDuplicatesSpec`, `Parcels.AttrReportedRepeated` and `Parcels.AttrRepeatedReported` |
| Parcels.NumPoint | geospatial_app.py:227-228 | definition of `num_point`; characterised by `Parcels.NumPointSpec` |
| Parcels.CentroidTable | geospatial_app.py:234-236 | definition of `centroid`; characterised by `Parcels.CentroidTableSpec` |
| Overlap.Outcome | geospatial_app.py:247-269 | definition of the loop body's effect on one pair; characterised by `Overlap.OutcomeMeaning` |
| Overlap.RecordOf | geospatial_app.py:259-269 | definition of one `ovlp15` record; characterised by `Overlap.RecordOfPercentages` |
| Overlap.OverlapScan | geospatial_app.py:244-270 | definition of the `ovlp15` scan; characterised by `Overlap.OverlapScanFails` and `Overlap.OverlapScanSpec` |
| Resolve.CodeIndex | geospatial_app.py:288 | definition of `plantation_code_to_index`; characterised by `Resolve.CodeIndexSpec` |
| Resolve.LoserCode | geospatial_app.py:299-304 | definition of the code a record removes; characterised by `Resolve.LoserCodeSpec` |
| Resolve.DropLabels | geospatial_app.py:305 | definition of `drop(index=...)`; characterised by `Resolve.DropLabelsIsFilter` and `Resolve.DropLabelsSpec` |
| Resolve.ValidRows | geospatial_app.py:277-309 | definition of `valid`; characterised by `Resolve.ValidSpec` and `Resolve.ValidHasNoConflicts` |
| Upload.FormatOf | geospatial_app.py:150-169 | definition of the reader choice; characterised by `Upload.FormatOfSpec` |
| Upload.ReportFileName | geospatial_app.py:344-346 | definition of the download name; characterised by `Upload.ReportFileNameSpec` |
| Analysis.AnalysisOf | geospatial_app.py:146-346 | definition of one run's outcome; characterised by `Analysis.AnalysisStops` and `Analysis.AnalysisReport` |
| Sequences.Map | geospatial_app.py:201 | definition of a column computed row by row with `apply`; its contract fixes the length and every entry |
| Sequences.KeysOf | geospatial_app.py:215 | definition of a key column such as `[['Plantation Code']]`; characterised by `Sequences.Map`'s contract and `Partition.KeysOfKeepRepeated` |
| Sequences.Occurrences | geospatial_app.py:209 | definition of how often a key occurs, which decides `duplicated(keep=False)`; characterised by `Sequences.OccurrencesPositive` and `Sequences.OccurrencesOfKeys` |
| Sequences.Filter | geospatial_app.py:228 | definition of boolean indexing by a row predicate; characterised by `Sequences.FilterSelects` |
| Sequences.FilterSelects | geospatial_app.py:228 | boolean indexing keeps, in order and once each, exactly the rows that satisfy the predicate |
| Sequences.Mask | geospatial_app.py:236 | definition of indexing by a stored boolean column; characterised by `Sequences.MaskIsFilter` |
| Sequences.MaskIsFilter | geospatial_app.py:235-236 | indexing by a column computed from a predicate is filtering by that predicate |
| Geometry.ExteriorVertices | geospatial_app.py:197 | definition of `len(geom.exterior.coords) - 1`; characterised by `Geometry.VertexCountClosedRings` |
| Geometry.SumExteriorVertices | geospatial_app.py:199 | definition of the sum over a multi-polygon's parts; characterised by `Geometry.VertexCountMultiAppend` and `Geometry.VertexCountMultiSingle` |
| Geometry.CentroidOutside | geospatial_app.py:234-235 | definition of `~geometry.contains(centroid)`; characterised by `Parcels.CentroidTableSpec` |
| Geometry.HectareThousandths | geospatial_app.py:263-265 | definition of `round(area / 10000, 3)` in thousandths; characterised by `Geometry.RoundHalfEven`'s contract and `Geometry.HectareThousandthsMonotone` |
| Geometry.PercentHundredths | geospatial_app.py:266-268 | definition of `round(p, 2)` in hundredths; characterised by `Geometry.RoundHalfEven`'s contract and `Geometry.RoundHalfEvenAbove` |
| Geometry.DegreesE8 | geospatial_app.py:316-317 | definition of `round(v, 8)` in units of 1e-8; characterised by `Geometry.RoundHalfEven`'s contract |
| Partition.IsFirstWithKey | geospatial_app.py:192 | definition of the row `keep='first'` keeps; characterised by `Partition.FirstWithKey` |
| Partition.DedupAfter | geospatial_app.py:192 | definition of the left-to-right dedup scan from a set of seen keys; characterised by `Partition.DedupAfterSelects` and `Partition.DedupAfterNoop` |
| Partition.DropDuplicates | geospatial_app.py:192 | definition of `drop_duplicates(keep='first')`, also at :280 and :308-309; characterised by `Partition.DropDuplicatesSpec`, `Partition.DropDuplicatesMembers` and `Partition.DropDuplicatesIdempotent` |
| Partition.KeepRepeated | geospatial_app.py:215 | definition of the rows of a table whose key occurs at least twice in another; characterised by `Partition.KeepRepeatedIsFilter` and `Partition.KeepRepeatedSelects` |
| Partition.KeepDuplicated | geospatial_app.py:209 | definition of `s[s.duplicated(keep=False)]`, also at :215; characterised by `Partition.KeepDuplicatedSpec` |
| Parcels.WithVertexCount | geospatial_app.py:201 | definition of a `geo_unique` row with its `num_points`; the count is `Geometry.VertexCount`'s |
| Parcels.CodeAndCount | geospatial_app.py:228 | definition of a `num_point` row, `[['Plantation Code', 'num_points']]`; characterised by `Parcels.NumPointSpec` |
| Parcels.FewVertices | geospatial_app.py:228 | definition of the `num_points < 12` test; characterised by `Parcels.NumPointSpec` |
| Parcels.OutsideTest | geospatial_app.py:235 | definition of the per-row `centroid_outside` test; characterised by `Parcels.CentroidTableSpec` |
| PairScan.Stops | geospatial_app.py:245-257 | definition of "some pair of the scan stops it"; characterised by `PairScan.ScanFoldRuns` |
| PairScan.Scan | geospatial_app.py:244-270 | definition of the scan's result; characterised by `PairScan.ScanFoldIsScan`, `PairScan.HitsOrdered` and `PairScan.HitsComplete` |
| PairScan.RowFold | geospatial_app.py:246-269 | definition of the inner loop over its first `j` pairs; characterised by `PairScan.RowFoldRuns`, `PairScan.RowFoldItems` and `PairScan.RowFoldStaysStopped` |
| PairScan.ScanFold | geospatial_app.py:245-269 | definition of the outer loop over its first `i` rows; characterised by `PairScan.ScanFoldRuns`, `PairScan.ScanFoldItems`, `PairScan.ScanFoldStaysStopped` and `PairScan.ScanFoldIsScan` |
| Overlap.MinArea | geospatial_app.py:257 | definition of `min(area1, area2)`; characterised through `Overlap.RecordOfPercentages` |
| Overlap.Examined | geospatial_app.py:247-250 | definition of the `i >= j` skip and the `intersects` test; characterised by `Overlap.OutcomeMeaning` and `Overlap.ForwardPairs` |
| Overlap.OverallPercentage | geospatial_app.py:257 | definition of `ovlp_percentage`; characterised by `Overlap.RecordOfPercentages` |
| Overlap.Conflict | geospatial_app.py:250-258 | definition of an examined pair over 15 %; characterised by `Overlap.OutcomeMeaning`, `Overlap.OverlapScanSpec` and `Resolve.ValidHasNoConflicts` |
| Overlap.PairFails | geospatial_app.py:253-260 | definition of the pairs whose divisions raise `ZeroDivisionError`; characterised by `Overlap.OutcomeMeaning` and `Overlap.OverlapScanFails` |
| Overlap.Visit | geospatial_app.py:245-247 | definition of the loop body over positions of `geo_unique`; characterised by `Overlap.OverlapScanSpec` |
| Resolve.Labels | geospatial_app.py:297 | definition of `valid_gdf.index`; characterised by `Resolve.CodeIndexSpec` and `Resolve.MarkedIds` |
| Resolve.HasCode | geospatial_app.py:288 | definition of "some row carries the code"; characterised by `Resolve.CodeIndexSpec` |
| Resolve.LastWithCode | geospatial_app.py:288 | definition of the row whose label the dict comprehension keeps for a code; characterised by `Resolve.CodeIndexSpec` and `Resolve.DistinctCodesLast` |
| Resolve.Resolvable | geospatial_app.py:295-297 | definition of the `.get` lookups and `in valid_gdf.index` tests succeeding; characterised by `Resolve.Loser` |
| Resolve.CodeUnique | geospatial_app.py:280 | definition of step 1; characterised by `Resolve.StepOneLabel` and `Resolve.ByCodeStepOne` |
| Resolve.Marked | geospatial_app.py:288-304 | definition of `indices_to_remove` over a step-1 table; characterised by `Resolve.MarkedIdsSpec` and `Resolve.LoserMarked` |
| Resolve.AfterConflicts | geospatial_app.py:286-305 | definition of step 3; characterised by `Resolve.AfterConflictsSpec` |
| Upload.EndsWith | geospatial_app.py:150-162 | definition of `str.endswith`; characterised by `Upload.FormatOfSpec` and `Upload.EndsWithLast` |
| Upload.EndsWithLast | geospatial_app.py:150-162 | a name ending with a non-empty suffix ends with that suffix's last character |
| Upload.SuffixOf | geospatial_app.py:150-162 | definition of the suffix that picks each reader; characterised by `Upload.FormatOfSpec` |
| Analysis.EntryOf | geospatial_app.py:313-317 | definition of a `valid` row's derived columns; no lemma characterises it beyond `Geometry.RoundHalfEven`'s contract on each rounded column, since the floating-point rounding of those columns is left out |

## Left out

- The Streamlit page: language choice, progress bar, messages, upload widget and
  download button. The upload's name and header are parameters of the run.
- Loading: reading Excel, GeoJSON and KML, and parsing `wkt_geom` with `loads`. The
  loaded rows are a parameter. A loader that raises stops the script; that path is
  not modelled.
- Reprojection to EPSG:4326 and EPSG:3857, and shapely's geometry operations.
  Intersection tests, areas, intersection areas, centroids and containment come
  from a `GeometryOracle` of total functions. Areas are the projected ones. A
  shapely operation that raises stops the script (for example `intersection` at
  :254 on an invalid polygon); the model does not capture this, so "it fails in
  no other way" in `Analysis.AnalysisStops` speaks of the model only.
- Floating point: areas and percentages are exact reals, and `round` is half-to-even
  on exact values. Binary floating-point error is not modelled.
- Writing the Excel workbook, its sheet names with counts, and dropping the
  `geometry` column. The report is the tables themselves.
- Columns other than `Plantation Code` and `wkt_geom` pass through the tables
  untouched and are not modelled.
- Resolve.ResolveConflicts: the model's rows do not carry `valid_gdf['centroid']`.
  The `num_points` column that `valid` inherits from `geo_unique_gdf` (:201, :277)
  and the `area_ha`, `longitude` and `latitude` columns (:313-317) are added in
  `Analysis` as `ValidEntry` fields.
- Analysis.AnalysisStops: for an `.xlsx` upload a missing `wkt_geom` column already
  fails in the loader (:152), whose error is caught as "Error loading file"
  (:170-172). Only a missing `Plantation Code` reaches the column check (:176). The
  model reports `MissingColumns` for both.
- Rows whose geometry is missing (`None`): the script raises at the containment test
  (:235). Such rows are not modelled; every row carries a geometry.
- Uploads with no rows: the script may raise at the `num_points` selection (:228),
  where `apply` on an empty column need not give a numeric column. That failure is
  not modelled; the model gives a report of empty tables.
- Overlap.ScanOverlaps: Python code that raises an uncaught `ZeroDivisionError` is
  modelled as a `Failure(ZeroDivision)` result. The traceback and page state are not
  modelled.
