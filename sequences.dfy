/** Generic facts about ordered tables: order-preserving selection (subsequences
    witnessed by position lists), per-key distinctness and key counting. */
module Sequences {

  /** The identity, used as the key of a table whose rows are the keys themselves. */
  function Id<T>(x: T): T { x }

  /** `idx` lists, strictly increasing, the positions in `b` whose elements make up `a`. */
  ghost predicate Embeds<T>(a: seq<T>, b: seq<T>, idx: seq<int>) {
    && |idx| == |a|
    && (forall k :: 0 <= k < |idx| ==> 0 <= idx[k] < |b| && a[k] == b[idx[k]])
    && (forall k, l :: 0 <= k < l < |idx| ==> idx[k] < idx[l])
  }

  /** `a` is `b` with some elements left out and the order kept. */
  ghost predicate IsSubsequence<T>(a: seq<T>, b: seq<T>) {
    exists idx :: Embeds(a, b, idx)
  }

  /** No two entries of `s` carry the same key. */
  ghost predicate DistinctKeys<T, K>(s: seq<T>, key: T -> K) {
    forall i, j :: 0 <= i < j < |s| ==> key(s[i]) != key(s[j])
  }

  /** `f` applied to every row of a table, in order (a column computed row by row). */
  function Map<T, U>(s: seq<T>, f: T -> U): (r: seq<U>)
    ensures |r| == |s|
    ensures forall i :: 0 <= i < |s| ==> r[i] == f(s[i])
  {
    if s == [] then [] else [f(s[0])] + Map(s[1..], f)
  }

  /** The key column of a table. */
  function KeysOf<T, K>(s: seq<T>, key: T -> K): seq<K> {
    Map(s, key)
  }

  /** How many entries of `s` carry key `k`. */
  function Occurrences<T, K(==)>(s: seq<T>, key: T -> K, k: K): nat {
    if s == [] then 0 else (if key(s[0]) == k then 1 else 0) + Occurrences(s[1..], key, k)
  }

  function Shift(idx: seq<int>, d: int): (r: seq<int>)
    ensures |r| == |idx|
    ensures forall k :: 0 <= k < |idx| ==> r[k] == idx[k] + d
  {
    seq(|idx|, k requires 0 <= k < |idx| => idx[k] + d)
  }

  lemma EmbedsSkip<T>(x: T, a: seq<T>, b: seq<T>, idx: seq<int>)
    requires Embeds(a, b, idx)
    ensures Embeds(a, [x] + b, Shift(idx, 1))
  {
  }

  lemma EmbedsKeep<T>(x: T, a: seq<T>, b: seq<T>, idx: seq<int>)
    requires Embeds(a, b, idx)
    ensures Embeds([x] + a, [x] + b, [0] + Shift(idx, 1))
  {
    var r := [0] + Shift(idx, 1);
    forall k | 0 <= k < |r| ensures 0 <= r[k] < |[x] + b| && ([x] + a)[k] == ([x] + b)[r[k]] {
      if k > 0 {
        assert r[k] == idx[k - 1] + 1;
      }
    }
  }

  /** Positions taken from positions. */
  function Compose(inner: seq<int>, outer: seq<int>): (r: seq<int>)
    requires forall k :: 0 <= k < |inner| ==> 0 <= inner[k] < |outer|
    ensures |r| == |inner|
    ensures forall k :: 0 <= k < |inner| ==> r[k] == outer[inner[k]]
  {
    seq(|inner|, k requires 0 <= k < |inner| => outer[inner[k]])
  }

  lemma EmbedsTransitive<T>(a: seq<T>, b: seq<T>, c: seq<T>, i1: seq<int>, i2: seq<int>)
    requires Embeds(a, b, i1) && Embeds(b, c, i2)
    ensures Embeds(a, c, Compose(i1, i2))
  {
  }

  lemma SubsequenceTransitive<T>(a: seq<T>, b: seq<T>, c: seq<T>)
    requires IsSubsequence(a, b) && IsSubsequence(b, c)
    ensures IsSubsequence(a, c)
  {
    var i1 :| Embeds(a, b, i1);
    var i2 :| Embeds(b, c, i2);
    EmbedsTransitive(a, b, c, i1, i2);
  }

  lemma SubsequenceMembers<T>(a: seq<T>, b: seq<T>)
    requires IsSubsequence(a, b)
    ensures forall x :: x in a ==> x in b
  {
    var idx :| Embeds(a, b, idx);
    forall x | x in a ensures x in b {
      var k :| 0 <= k < |a| && a[k] == x;
      assert b[idx[k]] == x;
    }
  }

  /** Leaving entries out cannot create a key clash. */
  lemma SubsequenceDistinct<T, K>(a: seq<T>, b: seq<T>, key: T -> K)
    requires IsSubsequence(a, b) && DistinctKeys(b, key)
    ensures DistinctKeys(a, key)
  {
    var idx :| Embeds(a, b, idx);
    forall i, j | 0 <= i < j < |a| ensures key(a[i]) != key(a[j]) {
      assert idx[i] < idx[j];
    }
  }

  lemma SubsequenceReflexive<T>(a: seq<T>)
    ensures IsSubsequence(a, a)
  {
    var idx := seq(|a|, k requires 0 <= k < |a| => k);
    assert Embeds(a, a, idx);
  }

  /** Counting keys of a table equals counting the same value in its key column. */
  lemma {:induction false} OccurrencesOfKeys<T, K>(s: seq<T>, key: T -> K, k: K)
    ensures Occurrences(s, key, k) == Occurrences(KeysOf(s, key), Id, k)
  {
    if s != [] {
      assert KeysOf(s, key)[1..] == KeysOf(s[1..], key);
      OccurrencesOfKeys(s[1..], key, k);
    }
  }

  /** A key occurs at least once exactly when some entry carries it. */
  lemma {:induction false} OccurrencesPositive<T, K>(s: seq<T>, key: T -> K, k: K)
    ensures Occurrences(s, key, k) > 0 <==> exists i :: 0 <= i < |s| && key(s[i]) == k
  {
    if s != [] {
      OccurrencesPositive(s[1..], key, k);
      if key(s[0]) != k {
        if exists i :: 0 <= i < |s| && key(s[i]) == k {
          var i :| 0 <= i < |s| && key(s[i]) == k;
          assert key(s[1..][i - 1]) == k;
        }
      } else {
        assert key(s[0]) == k;
      }
    }
  }
  /** The entries of `s` that satisfy `p`, in order. */
  function Filter<T>(s: seq<T>, p: T -> bool): (r: seq<T>)
    ensures |r| <= |s|
    ensures forall k :: 0 <= k < |r| ==> p(r[k])
  {
    if s == [] then []
    else if p(s[0]) then [s[0]] + Filter(s[1..], p)
    else Filter(s[1..], p)
  }

  /** Boolean-mask selection `s[mask]`: the entries whose mask bit is set, in order. */
  function Mask<T>(s: seq<T>, keep: seq<bool>): seq<T>
    requires |keep| == |s|
  {
    if s == [] then []
    else if keep[0] then [s[0]] + Mask(s[1..], keep[1..])
    else Mask(s[1..], keep[1..])
  }

  /** The positions of the entries of `s` that satisfy `p`, in order. */
  function FilterIndices<T>(s: seq<T>, p: T -> bool): seq<int> {
    if s == [] then []
    else if p(s[0]) then [0] + Shift(FilterIndices(s[1..], p), 1)
    else Shift(FilterIndices(s[1..], p), 1)
  }

  lemma {:induction false} FilterIndicesEmbed<T>(s: seq<T>, p: T -> bool)
    ensures Embeds(Filter(s, p), s, FilterIndices(s, p))
  {
    if s != [] {
      var rest := s[1..];
      assert s == [s[0]] + rest;
      FilterIndicesEmbed(rest, p);
      if p(s[0]) {
        EmbedsKeep(s[0], Filter(rest, p), rest, FilterIndices(rest, p));
      } else {
        EmbedsSkip(s[0], Filter(rest, p), rest, FilterIndices(rest, p));
      }
    }
  }

  lemma {:induction false} FilterIndicesComplete<T>(s: seq<T>, p: T -> bool)
    ensures forall i :: 0 <= i < |s| && p(s[i]) ==> i in FilterIndices(s, p)
  {
    if s != [] {
      var rest, idx := s[1..], FilterIndices(s, p);
      var inner := FilterIndices(rest, p);
      FilterIndicesComplete(rest, p);
      forall i | 0 <= i < |s| && p(s[i]) ensures i in idx {
        if i == 0 {
          assert idx[0] == 0;
        } else {
          assert rest[i - 1] == s[i];
          var q :| 0 <= q < |inner| && inner[q] == i - 1;
          assert idx[if p(s[0]) then q + 1 else q] == i;
        }
      }
    }
  }

  /** The filter keeps exactly the entries satisfying `p`, in their order. */
  lemma FilterSelects<T>(s: seq<T>, p: T -> bool) returns (idx: seq<int>)
    ensures Embeds(Filter(s, p), s, idx)
    ensures forall k :: 0 <= k < |idx| ==> 0 <= idx[k] < |s| && p(s[idx[k]])
    ensures forall i :: 0 <= i < |s| && p(s[i]) ==> i in idx
  {
    idx := FilterIndices(s, p);
    FilterIndicesEmbed(s, p);
    FilterIndicesComplete(s, p);
  }

  /** A mask computed entry by entry from `p` selects what the filter by `p` selects. */
  lemma {:induction false} MaskIsFilter<T>(s: seq<T>, keep: seq<bool>, p: T -> bool)
    requires |keep| == |s|
    requires forall i :: 0 <= i < |s| ==> keep[i] == p(s[i])
    ensures Mask(s, keep) == Filter(s, p)
  {
    if s != [] {
      MaskIsFilter(s[1..], keep[1..], p);
    }
  }
}
