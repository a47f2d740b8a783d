/** Table partitioning by a key column, as the data-frame operations the parcel
    analysis uses: drop duplicates keeping the first row per key, and select every
    row whose key is repeated (duplicates reported with all their copies). */
module Partition {
  import opened Sequences

  /** Row `i` is kept by a left-to-right scan that has already seen the keys in
      `seen`: its key is not in `seen` and no earlier row carries it. */
  ghost predicate FreshAt<T, K>(s: seq<T>, key: T -> K, seen: set<K>, i: int)
    requires 0 <= i < |s|
  {
    key(s[i]) !in seen && forall k :: 0 <= k < i ==> key(s[k]) != key(s[i])
  }

  /** Row `i` is the first row of `s` carrying its key. */
  ghost predicate IsFirstWithKey<T, K>(s: seq<T>, key: T -> K, i: int)
    requires 0 <= i < |s|
  {
    forall k :: 0 <= k < i ==> key(s[k]) != key(s[i])
  }

  /** The keys seen once the scan has passed `x`. */
  function SeenAfter<T, K(==)>(x: T, key: T -> K, seen: set<K>): set<K> {
    seen + {key(x)}
  }

  /** Left-to-right scan that keeps a row when its key has not been seen yet. */
  function DedupAfter<T, K(==)>(s: seq<T>, key: T -> K, seen: set<K>): seq<T>
    decreases |s|
  {
    if s == [] then []
    else if key(s[0]) in seen then DedupAfter(s[1..], key, seen)
    else [s[0]] + DedupAfter(s[1..], key, SeenAfter(s[0], key, seen))
  }

  /** The table without repeated keys, the first row of each key kept. */
  function DropDuplicates<T, K(==)>(s: seq<T>, key: T -> K): seq<T> {
    DedupAfter(s, key, {})
  }

  /** Rows of `t` whose key occurs at least twice in `all`. */
  function KeepRepeated<T, K(==)>(t: seq<T>, key: T -> K, all: seq<T>): seq<T> {
    if t == [] then []
    else if Occurrences(all, key, key(t[0])) >= 2 then [t[0]] + KeepRepeated(t[1..], key, all)
    else KeepRepeated(t[1..], key, all)
  }

  /** Every row whose key occurs at least twice, the first occurrence included. */
  function KeepDuplicated<T, K(==)>(s: seq<T>, key: T -> K): seq<T> {
    KeepRepeated(s, key, s)
  }

  /** The freshness of a row past the first, relative to the scan's state after the first row. */
  lemma FreshShift<T, K>(s: seq<T>, key: T -> K, seen: set<K>, i: int)
    requires 1 <= i < |s|
    ensures key(s[0]) in seen ==> (FreshAt(s, key, seen, i) <==> FreshAt(s[1..], key, seen, i - 1))
    ensures key(s[0]) !in seen ==>
      (FreshAt(s, key, seen, i) <==> FreshAt(s[1..], key, SeenAfter(s[0], key, seen), i - 1))
  {
    if FreshAt(s[1..], key, seen, i - 1) || FreshAt(s[1..], key, SeenAfter(s[0], key, seen), i - 1) {
      forall k | 1 <= k < i ensures key(s[k]) != key(s[i]) {
        assert s[k] == s[1..][k - 1];
      }
    }
  }

  /** The scan keeps exactly the fresh rows, in their order. */
  lemma {:induction false} DedupAfterSelects<T, K>(s: seq<T>, key: T -> K, seen: set<K>)
    returns (idx: seq<int>)
    ensures Embeds(DedupAfter(s, key, seen), s, idx)
    ensures forall k :: 0 <= k < |idx| ==> 0 <= idx[k] < |s| && FreshAt(s, key, seen, idx[k])
    ensures forall i :: 0 <= i < |s| && FreshAt(s, key, seen, i) ==> i in idx
    decreases |s|
  {
    if s == [] {
      idx := [];
      return;
    }
    var rest := s[1..];
    assert s == [s[0]] + rest;
    if key(s[0]) in seen {
      var inner := DedupAfterSelects(rest, key, seen);
      EmbedsSkip(s[0], DedupAfter(rest, key, seen), rest, inner);
      idx := Shift(inner, 1);
      forall k | 0 <= k < |idx| ensures 0 <= idx[k] < |s| && FreshAt(s, key, seen, idx[k]) {
        FreshShift(s, key, seen, idx[k]);
      }
      forall i | 0 <= i < |s| && FreshAt(s, key, seen, i) ensures i in idx {
        FreshShift(s, key, seen, i);
        var p :| 0 <= p < |inner| && inner[p] == i - 1;
        assert idx[p] == i;
      }
    } else {
      var seen' := SeenAfter(s[0], key, seen);
      var inner := DedupAfterSelects(rest, key, seen');
      EmbedsKeep(s[0], DedupAfter(rest, key, seen'), rest, inner);
      idx := [0] + Shift(inner, 1);
      forall k | 0 <= k < |idx| ensures 0 <= idx[k] < |s| && FreshAt(s, key, seen, idx[k]) {
        if k > 0 {
          FreshShift(s, key, seen, idx[k]);
        }
      }
      forall i | 0 <= i < |s| && FreshAt(s, key, seen, i) ensures i in idx {
        if i == 0 {
          assert idx[0] == 0;
        } else {
          FreshShift(s, key, seen, i);
          var p :| 0 <= p < |inner| && inner[p] == i - 1;
          assert idx[p + 1] == i;
        }
      }
    }
  }

  /** Every row carrying a key has a first row carrying it. */
  lemma {:induction false} FirstWithKey<T, K>(s: seq<T>, key: T -> K, i: int) returns (j: int)
    requires 0 <= i < |s|
    ensures 0 <= j <= i && key(s[j]) == key(s[i]) && IsFirstWithKey(s, key, j)
    decreases i
  {
    if IsFirstWithKey(s, key, i) {
      j := i;
    } else {
      var k :| 0 <= k < i && key(s[k]) == key(s[i]);
      j := FirstWithKey(s, key, k);
    }
  }

  /** `drop_duplicates(keep='first')` keeps, in input order, exactly the first row of
      every key: position `k` of the result is the row at `idx[k]`, the positions
      increase, each is the first row of its key, and every first row is among them.
      The result's keys are therefore pairwise distinct. */
  lemma DropDuplicatesSpec<T, K>(s: seq<T>, key: T -> K) returns (idx: seq<int>)
    ensures Embeds(DropDuplicates(s, key), s, idx)
    ensures forall k :: 0 <= k < |idx| ==> 0 <= idx[k] < |s| && IsFirstWithKey(s, key, idx[k])
    ensures forall i :: 0 <= i < |s| && IsFirstWithKey(s, key, i) ==> i in idx
    ensures DistinctKeys(DropDuplicates(s, key), key)
  {
    var r := DropDuplicates(s, key);
    idx := DedupAfterSelects(s, key, {});
    forall i | 0 <= i < |s| && IsFirstWithKey(s, key, i) ensures i in idx {
      assert FreshAt(s, key, {}, i);
    }
    forall i, j | 0 <= i < j < |r| ensures key(r[i]) != key(r[j]) {
      assert idx[i] < idx[j];
      assert FreshAt(s, key, {}, idx[j]);
    }
  }

  /** The same in terms of membership: an ordered subsequence with distinct keys that
      holds every first row, and only first rows. */
  lemma DropDuplicatesMembers<T, K>(s: seq<T>, key: T -> K)
    ensures IsSubsequence(DropDuplicates(s, key), s)
    ensures DistinctKeys(DropDuplicates(s, key), key)
    ensures forall i :: 0 <= i < |s| && IsFirstWithKey(s, key, i) ==> s[i] in DropDuplicates(s, key)
    ensures forall y :: y in DropDuplicates(s, key) ==>
      exists i :: 0 <= i < |s| && s[i] == y && IsFirstWithKey(s, key, i)
  {
    var r := DropDuplicates(s, key);
    var idx := DropDuplicatesSpec(s, key);
    forall i | 0 <= i < |s| && IsFirstWithKey(s, key, i) ensures s[i] in r {
      var p :| 0 <= p < |idx| && idx[p] == i;
      assert r[p] == s[i];
    }
    forall y | y in r ensures exists i :: 0 <= i < |s| && s[i] == y && IsFirstWithKey(s, key, i) {
      var p :| 0 <= p < |r| && r[p] == y;
      assert IsFirstWithKey(s, key, idx[p]);
    }
  }

  /** No key of the input is lost: the first row carrying it is kept. */
  lemma DropDuplicatesKeepsKey<T, K>(s: seq<T>, key: T -> K, i: int) returns (j: int)
    requires 0 <= i < |s|
    ensures 0 <= j <= i && key(s[j]) == key(s[i]) && s[j] in DropDuplicates(s, key)
  {
    j := FirstWithKey(s, key, i);
    var idx := DedupAfterSelects(s, key, {});
    assert FreshAt(s, key, {}, j);
    var p :| 0 <= p < |idx| && idx[p] == j;
    assert DropDuplicates(s, key)[p] == s[j];
  }

  /** A table whose keys are already distinct, and none of them seen, passes the scan unchanged. */
  lemma {:induction false} DedupAfterNoop<T, K>(s: seq<T>, key: T -> K, seen: set<K>)
    requires DistinctKeys(s, key)
    requires forall i :: 0 <= i < |s| ==> key(s[i]) !in seen
    ensures DedupAfter(s, key, seen) == s
    decreases |s|
  {
    if s != [] {
      var seen' := SeenAfter(s[0], key, seen);
      forall i | 0 <= i < |s[1..]| ensures key(s[1..][i]) !in seen' {
        assert key(s[0]) != key(s[i + 1]);
      }
      forall i, j | 0 <= i < j < |s[1..]| ensures key(s[1..][i]) != key(s[1..][j]) {
        assert key(s[i + 1]) != key(s[j + 1]);
      }
      DedupAfterNoop(s[1..], key, seen');
    }
  }

  /** Dropping duplicates from a table without duplicate keys changes nothing. */
  lemma DropDuplicatesNoop<T, K>(s: seq<T>, key: T -> K)
    requires DistinctKeys(s, key)
    ensures DropDuplicates(s, key) == s
  {
    DedupAfterNoop(s, key, {});
  }

  /** Dropping duplicates is idempotent. */
  lemma DropDuplicatesIdempotent<T, K>(s: seq<T>, key: T -> K)
    ensures DropDuplicates(DropDuplicates(s, key), key) == DropDuplicates(s, key)
  {
    var _ := DropDuplicatesSpec(s, key);
    DropDuplicatesNoop(DropDuplicates(s, key), key);
  }

  /** Row `i` of `t` carries a key that `all` holds at least twice. */
  ghost predicate RepeatedAt<T, K>(t: seq<T>, key: T -> K, all: seq<T>, i: int)
    requires 0 <= i < |t|
  {
    Occurrences(all, key, key(t[i])) >= 2
  }

  /** The repeated-key filter is the filter by "the key occurs at least twice in `all`". */
  lemma {:induction false} KeepRepeatedIsFilter<T, K>(t: seq<T>, key: T -> K, all: seq<T>)
    ensures KeepRepeated(t, key, all) == Filter(t, (y: T) => Occurrences(all, key, key(y)) >= 2)
  {
    if t != [] {
      KeepRepeatedIsFilter(t[1..], key, all);
    }
  }

  /** The repeated-key filter keeps, in order, exactly the rows whose key occurs at least twice in `all`. */
  lemma {:induction false} KeepRepeatedSelects<T, K>(t: seq<T>, key: T -> K, all: seq<T>)
    returns (idx: seq<int>)
    ensures Embeds(KeepRepeated(t, key, all), t, idx)
    ensures forall k :: 0 <= k < |idx| ==> 0 <= idx[k] < |t| && RepeatedAt(t, key, all, idx[k])
    ensures forall i :: 0 <= i < |t| && RepeatedAt(t, key, all, i) ==> i in idx
  {
    var repeated := (y: T) => Occurrences(all, key, key(y)) >= 2;
    KeepRepeatedIsFilter(t, key, all);
    idx := FilterSelects(t, repeated);
  }

  /** `duplicated(keep=False)` reports, in input order, exactly the rows whose key the
      input holds at least twice, first occurrences included: position `k` of the
      result is the row at `idx[k]`, the positions increase, and they are exactly the
      positions of rows with a repeated key. */
  lemma KeepDuplicatedSpec<T, K>(s: seq<T>, key: T -> K) returns (idx: seq<int>)
    ensures Embeds(KeepDuplicated(s, key), s, idx)
    ensures forall k :: 0 <= k < |idx| ==> 0 <= idx[k] < |s| && Occurrences(s, key, key(s[idx[k]])) >= 2
    ensures forall i :: 0 <= i < |s| && Occurrences(s, key, key(s[i])) >= 2 ==> i in idx
  {
    idx := KeepRepeatedSelects(s, key, s);
    forall k | 0 <= k < |idx| ensures Occurrences(s, key, key(s[idx[k]])) >= 2 {
      assert RepeatedAt(s, key, s, idx[k]);
    }
    forall i | 0 <= i < |s| && Occurrences(s, key, key(s[i])) >= 2 ensures i in idx {
      assert RepeatedAt(s, key, s, i);
    }
  }

  /** Taking the key column commutes with the repeated-key filter. */
  lemma {:induction false} KeysOfKeepRepeated<T, K>(t: seq<T>, key: T -> K, all: seq<T>)
    ensures KeysOf(KeepRepeated(t, key, all), key) == KeepRepeated(KeysOf(t, key), Id, KeysOf(all, key))
  {
    if t != [] {
      OccurrencesOfKeys(all, key, key(t[0]));
      assert KeysOf(t, key)[1..] == KeysOf(t[1..], key);
      KeysOfKeepRepeated(t[1..], key, all);
      if Occurrences(all, key, key(t[0])) >= 2 {
        assert KeysOf([t[0]] + KeepRepeated(t[1..], key, all), key)
          == [key(t[0])] + KeysOf(KeepRepeated(t[1..], key, all), key);
      }
    }
  }

  /** On a column of keys, dropping duplicates commutes with the repeated-key filter,
      provided both scans agree on which repeated keys they have already seen. */
  lemma {:induction false} DedupKeepRepeatedCommute<K>(t: seq<K>, all: seq<K>, s1: set<K>, s2: set<K>)
    requires forall c :: Occurrences(all, Id, c) >= 2 ==> (c in s1 <==> c in s2)
    ensures DedupAfter(KeepRepeated(t, Id, all), Id, s1) == KeepRepeated(DedupAfter(t, Id, s2), Id, all)
    decreases |t|
  {
    if t != [] {
      var c := t[0];
      if Occurrences(all, Id, c) >= 2 {
        if c in s2 {
          DedupKeepRepeatedCommute(t[1..], all, s1, s2);
        } else {
          DedupKeepRepeatedCommute(t[1..], all, SeenAfter(c, Id, s1), SeenAfter(c, Id, s2));
          assert KeepRepeated([c] + DedupAfter(t[1..], Id, SeenAfter(c, Id, s2)), Id, all)
            == [c] + KeepRepeated(DedupAfter(t[1..], Id, SeenAfter(c, Id, s2)), Id, all);
        }
      } else {
        if c in s2 {
          DedupKeepRepeatedCommute(t[1..], all, s1, s2);
        } else {
          DedupKeepRepeatedCommute(t[1..], all, s1, SeenAfter(c, Id, s2));
          assert KeepRepeated([c] + DedupAfter(t[1..], Id, SeenAfter(c, Id, s2)), Id, all)
            == KeepRepeated(DedupAfter(t[1..], Id, SeenAfter(c, Id, s2)), Id, all);
        }
      }
    }
  }
}
