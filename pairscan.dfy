/** A nested scan over the ordered pairs of positions of a table. The outer loop
    takes every first position in turn, the inner loop every second position; the
    visit of one pair skips it, stops the whole scan, or emits one item. The scan
    yields the emitted items in visiting order, or nothing when some visit stops it. */
module PairScan {
  import opened Results

  /** What the visit of one pair does. */
  datatype Step<T> = Skip | Stop | Emit(item: T)

  /** A pair of positions: the outer loop's and the inner loop's. */
  datatype Hit = Hit(first: int, second: int)

  /** The emitting pairs with first position `i` and second position before `q`, in
      the order the inner loop meets them. */
  function RowHits<T>(visit: (int, int) -> Step<T>, i: int, q: nat): (r: seq<Hit>)
    ensures forall k :: 0 <= k < |r| ==> r[k].first == i && 0 <= r[k].second < q
    ensures forall k :: 0 <= k < |r| ==> visit(r[k].first, r[k].second).Emit?
  {
    if q == 0 then []
    else RowHits(visit, i, q - 1) + (if visit(i, q - 1).Emit? then [Hit(i, q - 1)] else [])
  }

  /** The emitting pairs of `n` positions with first position before `p`, in visiting order. */
  function Hits<T>(visit: (int, int) -> Step<T>, n: nat, p: nat): (r: seq<Hit>)
    ensures forall k :: 0 <= k < |r| ==> 0 <= r[k].first < p && 0 <= r[k].second < n
    ensures forall k :: 0 <= k < |r| ==> visit(r[k].first, r[k].second).Emit?
  {
    if p == 0 then [] else Hits(visit, n, p - 1) + RowHits(visit, p - 1, n)
  }

  /** Every listed pair emits. */
  ghost predicate Emitting<T>(visit: (int, int) -> Step<T>, hs: seq<Hit>) {
    forall h :: h in hs ==> visit(h.first, h.second).Emit?
  }

  /** The items the listed pairs emit, in their order. */
  function Items<T>(visit: (int, int) -> Step<T>, hs: seq<Hit>): (r: seq<T>)
    requires Emitting(visit, hs)
    ensures |r| == |hs|
    ensures forall k :: 0 <= k < |hs| ==> r[k] == visit(hs[k].first, hs[k].second).item
  {
    if hs == [] then []
    else
      var last := hs[|hs| - 1];
      assert last in hs;
      Items(visit, hs[..|hs| - 1]) + [visit(last.first, last.second).item]
  }

  /** Some pair of `n` positions stops the scan. */
  ghost predicate Stops<T>(visit: (int, int) -> Step<T>, n: nat) {
    exists i, j :: 0 <= i < n && 0 <= j < n && visit(i, j).Stop?
  }

  /** What the scan of `n` positions yields: nothing when some pair stops it, the
      items of all emitting pairs in visiting order otherwise. */
  ghost function Scan<T>(visit: (int, int) -> Step<T>, n: nat): Option<seq<T>> {
    if Stops(visit, n) then None else Some(Items(visit, Hits(visit, n, n)))
  }

  /** The inner loop for first position `i` run over the second positions before `j`. */
  ghost function RowFold<T>(visit: (int, int) -> Step<T>, i: int, j: nat): Option<seq<T>> {
    if j == 0 then Some([])
    else
      var prev := RowFold(visit, i, j - 1);
      if prev.None? then None
      else match visit(i, j - 1)
        case Stop => None
        case Skip => prev
        case Emit(x) => Some(prev.value + [x])
  }

  /** The outer loop over `n` positions run over the first positions before `i`. */
  ghost function ScanFold<T>(visit: (int, int) -> Step<T>, n: nat, i: nat): Option<seq<T>> {
    if i == 0 then Some([])
    else
      var prev := ScanFold(visit, n, i - 1);
      if prev.None? then None
      else
        var row := RowFold(visit, i - 1, n);
        if row.None? then None else Some(prev.value + row.value)
  }

  lemma {:induction false} RowFoldStaysStopped<T>(visit: (int, int) -> Step<T>, i: int, j: nat, k: nat)
    requires j <= k && RowFold(visit, i, j).None?
    ensures RowFold(visit, i, k).None?
    decreases k
  {
    if j < k {
      RowFoldStaysStopped(visit, i, j, k - 1);
    }
  }

  lemma {:induction false} ScanFoldStaysStopped<T>(visit: (int, int) -> Step<T>, n: nat, i: nat, k: nat)
    requires i <= k && ScanFold(visit, n, i).None?
    ensures ScanFold(visit, n, k).None?
    decreases k
  {
    if i < k {
      ScanFoldStaysStopped(visit, n, i, k - 1);
    }
  }

  lemma ItemsSnoc<T>(visit: (int, int) -> Step<T>, hs: seq<Hit>, h: Hit)
    requires Emitting(visit, hs + [h])
    ensures Emitting(visit, hs)
    ensures Items(visit, hs + [h]) == Items(visit, hs) + [visit(h.first, h.second).item]
  {
    assert (hs + [h])[..|hs|] == hs;
  }

  lemma ItemsAppend<T>(visit: (int, int) -> Step<T>, a: seq<Hit>, b: seq<Hit>)
    requires Emitting(visit, a) && Emitting(visit, b)
    ensures Emitting(visit, a + b)
    ensures Items(visit, a + b) == Items(visit, a) + Items(visit, b)
  {
    var ab, ia, ib := Items(visit, a + b), Items(visit, a), Items(visit, b);
    forall k | 0 <= k < |a + b| ensures ab[k] == (ia + ib)[k] {
      if k >= |a| {
        assert (a + b)[k] == b[k - |a|];
      }
    }
  }

  /** No pair with first position `i` and second position before `j` stops the scan. */
  ghost predicate RowRuns<T>(visit: (int, int) -> Step<T>, i: int, j: nat) {
    forall q :: 0 <= q < j ==> !visit(i, q).Stop?
  }

  /** No pair with first position before `i` stops the scan. */
  ghost predicate NoStopBefore<T>(visit: (int, int) -> Step<T>, n: nat, i: nat) {
    forall p :: 0 <= p < i ==> RowRuns(visit, p, n)
  }

  lemma RowRunsStep<T>(visit: (int, int) -> Step<T>, i: int, j: nat)
    requires j > 0
    ensures RowRuns(visit, i, j) <==> RowRuns(visit, i, j - 1) && !visit(i, j - 1).Stop?
  {
  }

  lemma NoStopBeforeStep<T>(visit: (int, int) -> Step<T>, n: nat, i: nat)
    requires i > 0
    ensures NoStopBefore(visit, n, i) <==> NoStopBefore(visit, n, i - 1) && RowRuns(visit, i - 1, n)
  {
  }

  /** The inner loop runs through exactly when no pair of its row stops it. */
  lemma {:induction false} RowFoldRuns<T>(visit: (int, int) -> Step<T>, i: int, j: nat)
    ensures RowFold(visit, i, j).Some? <==> RowRuns(visit, i, j)
  {
    if j > 0 {
      RowFoldRuns(visit, i, j - 1);
      RowRunsStep(visit, i, j);
    }
  }

  /** Then it collects the items of the row's emitting pairs in order. */
  lemma {:induction false} RowFoldItems<T>(visit: (int, int) -> Step<T>, i: int, j: nat)
    requires RowFold(visit, i, j).Some?
    ensures RowFold(visit, i, j).value == Items(visit, RowHits(visit, i, j))
  {
    if j > 0 {
      RowFoldItems(visit, i, j - 1);
      var prev := RowHits(visit, i, j - 1);
      if visit(i, j - 1).Emit? {
        ItemsSnoc(visit, prev, Hit(i, j - 1));
      } else {
        assert RowHits(visit, i, j) == prev by {
          assert prev + [] == prev;
        }
      }
    }
  }

  /** The outer loop runs through exactly when no pair of its first positions stops it. */
  lemma {:induction false} ScanFoldRuns<T>(visit: (int, int) -> Step<T>, n: nat, i: nat)
    ensures ScanFold(visit, n, i).Some? <==> NoStopBefore(visit, n, i)
  {
    if i > 0 {
      ScanFoldRuns(visit, n, i - 1);
      RowFoldRuns(visit, i - 1, n);
      NoStopBeforeStep(visit, n, i);
    }
  }

  /** Then it collects the items of all emitting pairs in visiting order. */
  lemma {:induction false} ScanFoldItems<T>(visit: (int, int) -> Step<T>, n: nat, i: nat)
    requires ScanFold(visit, n, i).Some?
    ensures ScanFold(visit, n, i).value == Items(visit, Hits(visit, n, i))
  {
    if i > 0 {
      ScanFoldItems(visit, n, i - 1);
      RowFoldItems(visit, i - 1, n);
      ItemsAppend(visit, Hits(visit, n, i - 1), RowHits(visit, i - 1, n));
    }
  }

  /** Both loops run to the end compute the scan. */
  lemma ScanFoldIsScan<T>(visit: (int, int) -> Step<T>, n: nat)
    ensures ScanFold(visit, n, n) == Scan(visit, n)
  {
    ScanFoldRuns(visit, n, n);
    if ScanFold(visit, n, n).Some? {
      ScanFoldItems(visit, n, n);
    }
    if Stops(visit, n) {
      var i, j :| 0 <= i < n && 0 <= j < n && visit(i, j).Stop?;
      assert !RowRuns(visit, i, n);
    }
  }

  /** `g` comes after `h` in the scan: a later first position, or the same first
      position and a later second one. */
  predicate Before(h: Hit, g: Hit) {
    h.first < g.first || (h.first == g.first && h.second < g.second)
  }

  /** The listed pairs appear in visiting order. */
  ghost predicate InScanOrder(hs: seq<Hit>) {
    forall k, l :: 0 <= k < l < |hs| ==> Before(hs[k], hs[l])
  }

  lemma InScanOrderAppend(a: seq<Hit>, b: seq<Hit>, m: int)
    requires InScanOrder(a) && InScanOrder(b)
    requires forall g :: g in a ==> g.first < m
    requires forall h :: h in b ==> h.first == m
    ensures InScanOrder(a + b)
  {
    forall k, l | 0 <= k < l < |a + b| ensures Before((a + b)[k], (a + b)[l]) {
      if k >= |a| {
        assert (a + b)[k] == b[k - |a|] && (a + b)[l] == b[l - |a|];
      } else if l >= |a| {
        assert (a + b)[k] in a && (a + b)[l] in b;
      }
    }
  }

  lemma InScanOrderSnoc(a: seq<Hit>, h: Hit)
    requires InScanOrder(a)
    requires forall g :: g in a ==> g.first == h.first && g.second < h.second
    ensures InScanOrder(a + [h])
  {
    forall k, l | 0 <= k < l < |a + [h]| ensures Before((a + [h])[k], (a + [h])[l]) {
      if l == |a| {
        assert (a + [h])[k] in a;
      }
    }
  }

  lemma {:induction false} RowHitsOrdered<T>(visit: (int, int) -> Step<T>, i: int, q: nat)
    ensures InScanOrder(RowHits(visit, i, q))
  {
    if q > 0 {
      RowHitsOrdered(visit, i, q - 1);
      var prev := RowHits(visit, i, q - 1);
      if visit(i, q - 1).Emit? {
        InScanOrderSnoc(prev, Hit(i, q - 1));
      } else {
        assert prev + [] == prev;
      }
    }
  }

  /** The emitting pairs are listed in visiting order. */
  lemma {:induction false} HitsOrdered<T>(visit: (int, int) -> Step<T>, n: nat, p: nat)
    ensures InScanOrder(Hits(visit, n, p))
  {
    if p > 0 {
      var a, b := Hits(visit, n, p - 1), RowHits(visit, p - 1, n);
      assert InScanOrder(a) by { HitsOrdered(visit, n, p - 1); }
      assert InScanOrder(b) by { RowHitsOrdered(visit, p - 1, n); }
      InScanOrderAppend(a, b, p - 1);
    }
  }

  lemma {:induction false} RowHitsComplete<T>(visit: (int, int) -> Step<T>, i: int, q: nat)
    ensures forall j :: 0 <= j < q && visit(i, j).Emit? ==> Hit(i, j) in RowHits(visit, i, q)
  {
    if q > 0 {
      RowHitsComplete(visit, i, q - 1);
    }
  }

  /** Every emitting pair is listed. */
  lemma {:induction false} HitsComplete<T>(visit: (int, int) -> Step<T>, n: nat, p: nat)
    ensures forall i, j :: 0 <= i < p && 0 <= j < n && visit(i, j).Emit? ==> Hit(i, j) in Hits(visit, n, p)
  {
    if p > 0 {
      HitsComplete(visit, n, p - 1);
      RowHitsComplete(visit, p - 1, n);
    }
  }
}
