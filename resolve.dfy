/** The `valid` sheet: the unique geometries with one row per code, minus one row of
    every pair that overlaps by more than the threshold, deduplicated once more. */
module Resolve {
  import opened Results
  import opened Sequences
  import opened Partition
  import opened Geometry
  import opened Parcels
  import opened PairScan
  import opened Overlap

  /** The code-to-label lookup, a dictionary filled row by row: a code carried by
      several rows maps to the label of the last of them. */
  function CodeIndex(rows: seq<Row>): map<string, int> {
    if rows == [] then map[]
    else
      var last := rows[|rows| - 1];
      CodeIndex(rows[..|rows| - 1])[last.code := last.id]
  }

  /** The index labels of a table. */
  function Labels(rows: seq<Row>): set<int> {
    set r | r in rows :: r.id
  }

  /** Some row of the table carries code `c`. */
  ghost predicate HasCode(rows: seq<Row>, c: string) {
    exists r :: r in rows && r.code == c
  }

  /** No later row carries the code of row `i`. */
  ghost predicate LastWithCode(rows: seq<Row>, i: int)
    requires 0 <= i < |rows|
  {
    forall k :: i < k < |rows| ==> rows[k].code != rows[i].code
  }

  /** The lookup knows exactly the table's codes, maps each to a label of the table,
      and to the label of the last row carrying it. */
  lemma {:induction false} CodeIndexSpec(rows: seq<Row>)
    ensures forall c :: c in CodeIndex(rows) <==> HasCode(rows, c)
    ensures forall c :: c in CodeIndex(rows) ==> CodeIndex(rows)[c] in Labels(rows)
    ensures forall i :: 0 <= i < |rows| && LastWithCode(rows, i) ==>
      rows[i].code in CodeIndex(rows) && CodeIndex(rows)[rows[i].code] == rows[i].id
  {
    if rows != [] {
      var n := |rows|;
      var front, last := rows[..n - 1], rows[n - 1];
      assert rows == front + [last];
      CodeIndexSpec(front);
      forall c ensures c in CodeIndex(rows) <==> HasCode(rows, c) {
        if HasCode(rows, c) && c != last.code {
          var r :| r in rows && r.code == c;
          assert r in front;
        }
      }
      forall c | c in CodeIndex(rows) ensures CodeIndex(rows)[c] in Labels(rows) {
        if c != last.code {
          var r :| r in front && r.id == CodeIndex(front)[c];
          assert r in rows;
        }
      }
      forall i | 0 <= i < n && LastWithCode(rows, i)
        ensures rows[i].code in CodeIndex(rows) && CodeIndex(rows)[rows[i].code] == rows[i].id
      {
        if i < n - 1 {
          assert front[i] == rows[i];
          assert LastWithCode(front, i);
        }
      }
    }
  }

  /** With distinct codes every row is the last with its code. */
  lemma DistinctCodesLast(rows: seq<Row>, i: int)
    requires DistinctKeys(rows, Code) && 0 <= i < |rows|
    ensures LastWithCode(rows, i)
  {
    forall k | i < k < |rows| ensures rows[k].code != rows[i].code {
      assert Code(rows[i]) != Code(rows[k]);
    }
  }

  /** The code of a record whose row loses: the one with the strictly smaller recorded
      area, the second one when the areas are equal. */
  function LoserCode(rec: OverlapRecord): string {
    if rec.areaHa1 < rec.areaHa2 then rec.code1
    else if rec.areaHa2 < rec.areaHa1 then rec.code2
    else rec.code2
  }

  /** The loser's recorded area is never above its partner's, it is strictly below
      unless the areas are equal, and a tie is decided against the second code. */
  lemma LoserCodeSpec(rec: OverlapRecord)
    ensures LoserCode(rec) == rec.code1 || LoserCode(rec) == rec.code2
    ensures rec.areaHa1 < rec.areaHa2 ==> LoserCode(rec) == rec.code1
    ensures rec.areaHa2 <= rec.areaHa1 ==> LoserCode(rec) == rec.code2
  {
  }

  /** Both codes of the record are in the lookup and map to labels of the table. */
  predicate Resolvable(lookup: map<string, int>, labels: set<int>, rec: OverlapRecord) {
    && rec.code1 in lookup && rec.code2 in lookup
    && lookup[rec.code1] in labels && lookup[rec.code2] in labels
  }

  /** The label a record marks for removal: the loser's row when both codes resolve,
      nothing otherwise. */
  function Loser(lookup: map<string, int>, labels: set<int>, rec: OverlapRecord): (r: Option<int>)
    ensures r.Some? <==> Resolvable(lookup, labels, rec)
    ensures r.Some? ==> r.value in labels
    ensures r.Some? ==> r.value == lookup[rec.code1] || r.value == lookup[rec.code2]
  {
    if Resolvable(lookup, labels, rec) then Some(lookup[LoserCode(rec)]) else None
  }

  function MarkOf(m: Option<int>): set<int> {
    match m
    case None => {}
    case Some(x) => {x}
  }

  /** The labels the records mark, in any order. */
  function MarkedIds(lookup: map<string, int>, labels: set<int>, recs: seq<OverlapRecord>): (r: set<int>)
    ensures r <= labels
  {
    if recs == [] then {}
    else MarkedIds(lookup, labels, recs[..|recs| - 1]) + MarkOf(Loser(lookup, labels, recs[|recs| - 1]))
  }

  /** A label is marked exactly when some record marks it: marks never depend on
      earlier marks. */
  lemma {:induction false} MarkedIdsSpec(lookup: map<string, int>, labels: set<int>, recs: seq<OverlapRecord>)
    ensures forall x :: x in MarkedIds(lookup, labels, recs) <==>
      exists k :: 0 <= k < |recs| && Loser(lookup, labels, recs[k]) == Some(x)
  {
    if recs != [] {
      var n := |recs|;
      var front := recs[..n - 1];
      MarkedIdsSpec(lookup, labels, front);
      forall x ensures x in MarkedIds(lookup, labels, recs) <==>
        exists k :: 0 <= k < n && Loser(lookup, labels, recs[k]) == Some(x)
      {
        if exists k :: 0 <= k < n && Loser(lookup, labels, recs[k]) == Some(x) {
          var k :| 0 <= k < n && Loser(lookup, labels, recs[k]) == Some(x);
          if k < n - 1 {
            assert front[k] == recs[k];
          }
        }
        if x in MarkedIds(lookup, labels, front) {
          var k :| 0 <= k < n - 1 && Loser(lookup, labels, front[k]) == Some(x);
          assert recs[k] == front[k];
        }
      }
    }
  }

  /** The marked set depends only on which records there are, not on their order. */
  lemma MarkedIdsOrderFree(lookup: map<string, int>, labels: set<int>, a: seq<OverlapRecord>, b: seq<OverlapRecord>)
    requires forall rec :: rec in a <==> rec in b
    ensures MarkedIds(lookup, labels, a) == MarkedIds(lookup, labels, b)
  {
    MarkedIdsSpec(lookup, labels, a);
    MarkedIdsSpec(lookup, labels, b);
    forall x ensures x in MarkedIds(lookup, labels, a) ==> x in MarkedIds(lookup, labels, b) {
      if x in MarkedIds(lookup, labels, a) {
        var k :| 0 <= k < |a| && Loser(lookup, labels, a[k]) == Some(x);
        assert a[k] in a;
        var l :| 0 <= l < |b| && b[l] == a[k];
      }
    }
    forall x ensures x in MarkedIds(lookup, labels, b) ==> x in MarkedIds(lookup, labels, a) {
      if x in MarkedIds(lookup, labels, b) {
        var k :| 0 <= k < |b| && Loser(lookup, labels, b[k]) == Some(x);
        assert b[k] in b;
        var l :| 0 <= l < |a| && a[l] == b[k];
      }
    }
  }

  /** The marking loop over the `ovlp15` records: every record whose two codes resolve
      adds its loser's label to the set; nothing is dropped inside the loop. */
  method MarkLosers(lookup: map<string, int>, labels: set<int>, ovlp: seq<OverlapRecord>)
    returns (toRemove: set<int>)
    ensures toRemove == MarkedIds(lookup, labels, ovlp)
  {
    toRemove := {};
    var k := 0;
    while k < |ovlp|
      invariant 0 <= k <= |ovlp|
      invariant toRemove == MarkedIds(lookup, labels, ovlp[..k])
    {
      var rec := ovlp[k];
      var idx1: Option<int> := if rec.code1 in lookup then Some(lookup[rec.code1]) else None;
      var idx2: Option<int> := if rec.code2 in lookup then Some(lookup[rec.code2]) else None;
      if idx1.Some? && idx2.Some? && idx1.value in labels && idx2.value in labels {
        if rec.areaHa1 < rec.areaHa2 {
          toRemove := toRemove + {idx1.value};
        } else if rec.areaHa2 < rec.areaHa1 {
          toRemove := toRemove + {idx2.value};
        } else {
          toRemove := toRemove + {idx2.value};
        }
      }
      assert ovlp[..k + 1][..k] == ovlp[..k];
      k := k + 1;
    }
    assert ovlp[..|ovlp|] == ovlp;
  }

  /** `drop(index=ids)`: the rows whose label is not among `ids`, in order. */
  function DropLabels(rows: seq<Row>, ids: set<int>): seq<Row> {
    if rows == [] then []
    else if rows[0].id in ids then DropLabels(rows[1..], ids)
    else [rows[0]] + DropLabels(rows[1..], ids)
  }

  lemma {:induction false} DropLabelsIsFilter(rows: seq<Row>, ids: set<int>)
    ensures DropLabels(rows, ids) == Filter(rows, (r: Row) => r.id !in ids)
  {
    if rows != [] {
      DropLabelsIsFilter(rows[1..], ids);
    }
  }

  /** Dropping keeps, in order, exactly the rows whose label is not dropped. */
  lemma DropLabelsSpec(rows: seq<Row>, ids: set<int>)
    ensures IsSubsequence(DropLabels(rows, ids), rows)
    ensures forall r :: r in DropLabels(rows, ids) <==> r in rows && r.id !in ids
  {
    DropLabelsIsFilter(rows, ids);
    var idx := FilterSelects(rows, (r: Row) => r.id !in ids);
    var d := DropLabels(rows, ids);
    forall r ensures r in d <==> r in rows && r.id !in ids {
      if r in d {
        var k :| 0 <= k < |d| && d[k] == r;
        assert rows[idx[k]] == r;
      }
      if r in rows && r.id !in ids {
        var i :| 0 <= i < |rows| && rows[i] == r;
        var k :| 0 <= k < |idx| && idx[k] == i;
        assert d[k] == r;
      }
    }
  }

  /** Step 1: one row per code, the first. */
  function CodeUnique(geoUnique: seq<Row>): seq<Row> {
    DropDuplicates(geoUnique, Code)
  }

  /** The labels the `ovlp15` records mark in a step-1 table. */
  function Marked(step1: seq<Row>, ovlp: seq<OverlapRecord>): set<int> {
    MarkedIds(CodeIndex(step1), Labels(step1), ovlp)
  }

  /** Step 3: when there are records, every marked label is dropped after the loop. */
  function AfterConflicts(step1: seq<Row>, ovlp: seq<OverlapRecord>): seq<Row> {
    if ovlp == [] then step1 else DropLabels(step1, Marked(step1, ovlp))
  }

  /** The `valid` rows: step 1, step 3, then the geometry and the code dedups again. */
  function ValidRows(geoUnique: seq<Row>, ovlp: seq<OverlapRecord>): seq<Row> {
    DropDuplicates(DropDuplicates(AfterConflicts(CodeUnique(geoUnique), ovlp), Wkt), Code)
  }

  /** The conflict resolution as the script runs it. */
  method ResolveConflicts(geoUnique: seq<Row>, ovlp: seq<OverlapRecord>) returns (valid: seq<Row>)
    ensures valid == ValidRows(geoUnique, ovlp)
  {
    valid := DropDuplicates(geoUnique, Code);
    if |ovlp| > 0 {
      var lookup := CodeIndex(valid);
      var toRemove := MarkLosers(lookup, Labels(valid), ovlp);
      valid := DropLabels(valid, toRemove);
    }
    valid := DropDuplicates(valid, Wkt);
    valid := DropDuplicates(valid, Code);
  }

  /** Step 3 keeps exactly the step-1 rows whose label no record marks. */
  lemma AfterConflictsSpec(step1: seq<Row>, ovlp: seq<OverlapRecord>)
    ensures IsSubsequence(AfterConflicts(step1, ovlp), step1)
    ensures forall r :: r in AfterConflicts(step1, ovlp) <==> r in step1 && r.id !in Marked(step1, ovlp)
  {
    if ovlp == [] {
      SubsequenceReflexive(step1);
    } else {
      DropLabelsSpec(step1, Marked(step1, ovlp));
    }
  }

  /** `valid` is drawn in order from the unique geometries, and no two of its rows share
      a code or a geometry text. */
  lemma ValidSpec(geoUnique: seq<Row>, ovlp: seq<OverlapRecord>)
    ensures IsSubsequence(ValidRows(geoUnique, ovlp), geoUnique)
    ensures DistinctKeys(ValidRows(geoUnique, ovlp), Code)
    ensures DistinctKeys(ValidRows(geoUnique, ovlp), Wkt)
  {
    var step1 := CodeUnique(geoUnique);
    var after := AfterConflicts(step1, ovlp);
    var byWkt := DropDuplicates(after, Wkt);
    DropDuplicatesMembers(geoUnique, Code);
    AfterConflictsSpec(step1, ovlp);
    DropDuplicatesMembers(after, Wkt);
    DropDuplicatesMembers(byWkt, Code);
    SubsequenceTransitive(after, step1, geoUnique);
    SubsequenceTransitive(byWkt, after, geoUnique);
    SubsequenceTransitive(ValidRows(geoUnique, ovlp), byWkt, geoUnique);
    SubsequenceDistinct(ValidRows(geoUnique, ovlp), byWkt, Wkt);
  }

  /** On a table of distinct geometry texts the dedups after step 3 remove nothing. */
  lemma FinalDedupsNoop(geoUnique: seq<Row>, ovlp: seq<OverlapRecord>)
    requires DistinctKeys(geoUnique, Wkt)
    ensures ValidRows(geoUnique, ovlp) == AfterConflicts(CodeUnique(geoUnique), ovlp)
  {
    var step1 := CodeUnique(geoUnique);
    var after := AfterConflicts(step1, ovlp);
    DropDuplicatesMembers(geoUnique, Code);
    AfterConflictsSpec(step1, ovlp);
    SubsequenceTransitive(after, step1, geoUnique);
    SubsequenceDistinct(after, geoUnique, Wkt);
    SubsequenceDistinct(after, step1, Code);
    DropDuplicatesNoop(after, Wkt);
    DropDuplicatesNoop(after, Code);
  }

  /** With distinct codes the lookup maps every row's code to that row's label. */
  lemma StepOneLabel(step1: seq<Row>, v: Row)
    requires DistinctKeys(step1, Code) && v in step1
    ensures v.code in CodeIndex(step1) && CodeIndex(step1)[v.code] == v.id
  {
    var i :| 0 <= i < |step1| && step1[i] == v;
    DistinctCodesLast(step1, i);
    CodeIndexSpec(step1);
  }

  /** A record whose two codes are codes of the step-1 table marks its loser's label. */
  lemma LoserMarked(step1: seq<Row>, ovlp: seq<OverlapRecord>, k: int)
    requires 0 <= k < |ovlp|
    requires HasCode(step1, ovlp[k].code1) && HasCode(step1, ovlp[k].code2)
    ensures LoserCode(ovlp[k]) in CodeIndex(step1)
    ensures CodeIndex(step1)[LoserCode(ovlp[k])] in Marked(step1, ovlp)
  {
    var lookup, labels := CodeIndex(step1), Labels(step1);
    CodeIndexSpec(step1);
    assert Loser(lookup, labels, ovlp[k]) == Some(lookup[LoserCode(ovlp[k])]);
    MarkedIdsSpec(lookup, labels, ovlp);
  }

  /** Every row of `valid` is a step-3 row. */
  lemma ValidWithinAfter(geoUnique: seq<Row>, ovlp: seq<OverlapRecord>)
    ensures forall v :: v in ValidRows(geoUnique, ovlp) ==> v in AfterConflicts(CodeUnique(geoUnique), ovlp)
  {
    var after := AfterConflicts(CodeUnique(geoUnique), ovlp);
    var byWkt := DropDuplicates(after, Wkt);
    DropDuplicatesMembers(after, Wkt);
    DropDuplicatesMembers(byWkt, Code);
    SubsequenceTransitive(ValidRows(geoUnique, ovlp), byWkt, after);
    SubsequenceMembers(ValidRows(geoUnique, ovlp), after);
  }

  /** A code left in `valid` is a code of the step-1 table. */
  lemma ValidHasCodeInStep1(geoUnique: seq<Row>, ovlp: seq<OverlapRecord>, v: Row)
    requires v in ValidRows(geoUnique, ovlp)
    ensures HasCode(CodeUnique(geoUnique), v.code)
  {
    ValidWithinAfter(geoUnique, ovlp);
    AfterConflictsSpec(CodeUnique(geoUnique), ovlp);
  }

  /** The loser of every record whose two codes survive step 1 leaves no row with its
      code in `valid`; of the two codes at most one is left. */
  lemma LoserGone(geoUnique: seq<Row>, ovlp: seq<OverlapRecord>, k: int)
    requires 0 <= k < |ovlp|
    requires HasCode(CodeUnique(geoUnique), ovlp[k].code1) && HasCode(CodeUnique(geoUnique), ovlp[k].code2)
    ensures !HasCode(ValidRows(geoUnique, ovlp), LoserCode(ovlp[k]))
  {
    var step1 := CodeUnique(geoUnique);
    var valid := ValidRows(geoUnique, ovlp);
    LoserMarked(step1, ovlp, k);
    DropDuplicatesMembers(geoUnique, Code);
    ValidWithinAfter(geoUnique, ovlp);
    AfterConflictsSpec(step1, ovlp);
    forall v | v in valid ensures v.code != LoserCode(ovlp[k]) {
      StepOneLabel(step1, v);
    }
  }

  /** The record a successful scan holds for a pair of rows in conflict. */
  lemma ConflictRecord(geoUnique: seq<Row>, o: GeometryOracle, i: int, j: int) returns (k: int)
    requires OverlapScan(geoUnique, o).Success?
    requires 0 <= i < |geoUnique| && 0 <= j < |geoUnique| && Conflict(geoUnique[i], geoUnique[j], o)
    ensures 0 <= k < |OverlapScan(geoUnique, o).value|
    ensures OverlapScan(geoUnique, o).value[k].code1 == geoUnique[i].code
    ensures OverlapScan(geoUnique, o).value[k].code2 == geoUnique[j].code
  {
    var hits := OverlapScanSpec(geoUnique, o);
    k :| 0 <= k < |hits| && hits[k] == Hit(i, j);
  }

  /** A successful scan leaves no two rows of `valid` whose overlap exceeds the threshold. */
  lemma ValidHasNoConflicts(geoUnique: seq<Row>, o: GeometryOracle)
    requires OverlapScan(geoUnique, o).Success?
    ensures forall a, b ::
      (a in ValidRows(geoUnique, OverlapScan(geoUnique, o).value) &&
       b in ValidRows(geoUnique, OverlapScan(geoUnique, o).value)) ==> !Conflict(a, b, o)
  {
    var ovlp := OverlapScan(geoUnique, o).value;
    var valid := ValidRows(geoUnique, ovlp);
    ValidSpec(geoUnique, ovlp);
    SubsequenceMembers(valid, geoUnique);
    forall a, b | a in valid && b in valid ensures !Conflict(a, b, o) {
      if Conflict(a, b, o) {
        var i :| 0 <= i < |geoUnique| && geoUnique[i] == a;
        var j :| 0 <= j < |geoUnique| && geoUnique[j] == b;
        var k := ConflictRecord(geoUnique, o, i, j);
        ValidHasCodeInStep1(geoUnique, ovlp, a);
        ValidHasCodeInStep1(geoUnique, ovlp, b);
        LoserCodeSpec(ovlp[k]);
        LoserGone(geoUnique, ovlp, k);
        assert false;
      }
    }
  }

  /** Three parcels where `b` loses to `a` and then `c` loses to `b`: the marks are
      collected before anything is dropped, so `b` still decides against `c` and only
      `a` is valid. */
  lemma MarkedRowStillMarksPartner(g: Geometry)
    ensures
      var a, b, c := Row(0, "A", "wa", g), Row(1, "B", "wb", g), Row(2, "C", "wc", g);
      ValidRows([a, b, c],
        [OverlapRecord("A", 10, "B", 5, 4000, 2000, 4000),
         OverlapRecord("B", 5, "C", 3, 5000, 3000, 5000)]) == [a]
  {
    var a, b, c := Row(0, "A", "wa", g), Row(1, "B", "wb", g), Row(2, "C", "wc", g);
    var rows := [a, b, c];
    var ovlp := [OverlapRecord("A", 10, "B", 5, 4000, 2000, 4000),
                 OverlapRecord("B", 5, "C", 3, 5000, 3000, 5000)];
    assert DistinctKeys(rows, Code) && DistinctKeys(rows, Wkt);
    DropDuplicatesNoop(rows, Code);
    FinalDedupsNoop(rows, ovlp);
    var lookup, labels := CodeIndex(rows), Labels(rows);
    StepOneLabel(rows, a);
    StepOneLabel(rows, b);
    StepOneLabel(rows, c);
    assert Loser(lookup, labels, ovlp[0]) == Some(1);
    assert Loser(lookup, labels, ovlp[1]) == Some(2);
    assert MarkedIds(lookup, labels, ovlp[..1]) == {1} by {
      assert ovlp[..1][..0] == [];
    }
    assert ovlp[..1] == ovlp[..|ovlp| - 1];
    assert Marked(rows, ovlp) == {1, 2};
    assert rows[1..] == [b, c] && [b, c][1..] == [c] && [c][1..] == [];
    assert DropLabels([c], {1, 2}) == [];
    assert DropLabels([b, c], {1, 2}) == [];
    assert DropLabels(rows, {1, 2}) == [a] + [];
  }

  /** Step 1 on rows with codes P, P, Q keeps `p1` and `q`. */
  lemma ByCodeStepOne(p1: Row, p2: Row, q: Row)
    requires p1.code == "P" && p2.code == "P" && q.code == "Q"
    ensures CodeUnique([p1, p2, q]) == [p1, q]
  {
    assert "Q"[0] != "P"[0];
    assert [p1, p2, q][1..] == [p2, q] && [p2, q][1..] == [q] && [q][1..] == [];
    assert SeenAfter(p1, Code, {}) == {"P"};
    assert DedupAfter([q], Code, {"P"}) == [q] + [];
    assert DedupAfter([p2, q], Code, {"P"}) == [q];
    assert DedupAfter([p1, p2, q], Code, {}) == [p1] + [q];
  }

  /** A record names codes, not rows: here the overlap was measured on `p2`, which step 1
      drops for sharing code P with `p1`, and the lookup resolves P to `p1`, which goes
      instead. */
  lemma RecordResolvesByCode(g: Geometry)
    ensures
      var p1, p2, q := Row(0, "P", "w1", g), Row(1, "P", "w2", g), Row(2, "Q", "w3", g);
      ValidRows([p1, p2, q], [OverlapRecord("P", 2, "Q", 9, 9000, 8000, 2000)]) == [q]
  {
    var p1, p2, q := Row(0, "P", "w1", g), Row(1, "P", "w2", g), Row(2, "Q", "w3", g);
    var rows := [p1, p2, q];
    var ovlp := [OverlapRecord("P", 2, "Q", 9, 9000, 8000, 2000)];
    assert DistinctKeys(rows, Wkt);
    var step1 := [p1, q];
    ByCodeStepOne(p1, p2, q);
    FinalDedupsNoop(rows, ovlp);
    var lookup, labels := CodeIndex(step1), Labels(step1);
    assert DistinctKeys(step1, Code);
    StepOneLabel(step1, p1);
    StepOneLabel(step1, q);
    assert Loser(lookup, labels, ovlp[0]) == Some(0);
    assert MarkedIds(lookup, labels, ovlp[..0]) == {} by {
      assert ovlp[..0] == [];
    }
    assert Marked(step1, ovlp) == {} + MarkOf(Some(0));
    assert Marked(step1, ovlp) == {0};
    assert [p1, q][1..] == [q] && [q][1..] == [];
    assert DropLabels([q], {0}) == [q] + [];
    assert DropLabels(step1, {0}) == [q];
    assert AfterConflicts(step1, ovlp) == [q];
  }

  /** Areas of 10000 and 10004 square metres both record as 1.000 ha, so the tie rule
      makes the second, larger polygon's code the loser. */
  lemma LargerPolygonCanLose(r1: Row, r2: Row, o: GeometryOracle)
    requires Conflict(r1, r2, o) && !PairFails(r1, r2, o)
    requires o.area(r1.geom) == 10000.0 && o.area(r2.geom) == 10004.0
    ensures o.area(r1.geom) < o.area(r2.geom)
    ensures LoserCode(RecordOf(r1, r2, o)) == r2.code
  {
    RoundHalfEvenUnique(10000.0 / 10.0, 1000);
    RoundHalfEvenUnique(10004.0 / 10.0, 1000);
  }

  /** Two parcels of one code with different geometry texts that overlap: both codes of
      the record resolve to the row step 1 keeps, which is therefore dropped, and the
      code disappears from `valid`. */
  lemma SameCodePairDropsCode(geoUnique: seq<Row>, ovlp: seq<OverlapRecord>, k: int)
    requires 0 <= k < |ovlp| && ovlp[k].code1 == ovlp[k].code2
    requires HasCode(CodeUnique(geoUnique), ovlp[k].code1)
    ensures !HasCode(ValidRows(geoUnique, ovlp), ovlp[k].code1)
  {
    LoserGone(geoUnique, ovlp, k);
  }
}
