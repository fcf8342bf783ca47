/** Deterministic class-capped subsampling of a labelled training set
    (get_subset of simclr_lin.py). The dataset is represented by its sequence
    of labels: the item at index i has label labels[i]. */
module Subset {

  /** The per-class threshold get_subset compares bucket sizes with:
      len(dataset) * pct / 10, the divisor 10 being fixed in the source. */
  function PerClassCap(n: nat, pct: real): real
  {
    (n as real * pct) / 10.0
  }

  /** The least integer not below x. */
  function Ceil(x: real): (c: int)
    ensures x <= c as real < x + 1.0
  {
    -((-x).Floor)
  }

  /** The number of indices of one label that get_subset keeps at most under
      the threshold cap: max(1, ceil(cap)), since the first index of a label is
      always admitted and every later one only while the bucket holds fewer
      than cap indices. */
  function Quota(cap: real): (q: nat)
    ensures q >= 1
    ensures cap <= q as real
    ensures q == 1 || (q - 1) as real < cap
  {
    var c := Ceil(cap);
    if c < 1 then 1 else c
  }

  /** For a bucket that already holds b >= 1 indices, the source's test
      b < cap is the same as b < Quota(cap). */
  lemma AdmitsBelowQuota(b: nat, cap: real)
    requires b >= 1
    ensures (b as real < cap) <==> b < Quota(cap)
  {
  }

  /** The indices of the items labelled y, in ascending order. */
  function Occurrences(labels: seq<int>, y: int): (r: seq<nat>)
    ensures forall k :: 0 <= k < |r| ==> r[k] < |labels| && labels[r[k]] == y
    ensures forall a, b :: 0 <= a < b < |r| ==> r[a] < r[b]
  {
    if labels == [] then []
    else
      var n := |labels| - 1;
      var p := Occurrences(labels[..n], y);
      if labels[n] == y then p + [n] else p
  }

  /** Every index labelled y is among the occurrences of y. */
  lemma {:induction false} OccurrencesComplete(labels: seq<int>, y: int, i: nat)
    requires i < |labels| && labels[i] == y
    ensures i in Occurrences(labels, y)
  {
    var n := |labels| - 1;
    if i < n {
      OccurrencesComplete(labels[..n], y, i);
    }
  }

  /** The index of the first item labelled y, searched from the front. */
  function FirstIndex(labels: seq<int>, y: int): (i: nat)
    requires y in labels
    ensures i < |labels| && labels[i] == y
    ensures forall j :: 0 <= j < i ==> labels[j] != y
  {
    if labels[0] == y then 0 else 1 + FirstIndex(labels[1..], y)
  }

  /** The labels in the order in which each is first met (the key order of the
      source's insertion-ordered dictionary). */
  function FirstSeen(labels: seq<int>): (r: seq<int>)
    ensures forall y :: y in r ==> y in labels
    ensures forall y :: y in labels ==> y in r
    ensures forall a, b :: 0 <= a < b < |r| ==> r[a] != r[b]
  {
    if labels == [] then []
    else
      var n := |labels| - 1;
      var p := FirstSeen(labels[..n]);
      assert forall y :: y in labels <==> y in labels[..n] || y == labels[n] by {
        assert labels == labels[..n] + [labels[n]];
      }
      if labels[n] in p then p else p + [labels[n]]
  }

  /** The first min(q, #occurrences) indices labelled y. */
  function Bucket(labels: seq<int>, y: int, q: nat): seq<nat>
  {
    var occ := Occurrences(labels, y);
    occ[..if q < |occ| then q else |occ|]
  }

  /** The buckets of the given labels, concatenated in the order of keys. */
  function Grouped(labels: seq<int>, keys: seq<int>, q: nat): seq<nat>
  {
    if keys == [] then []
    else Grouped(labels, keys[..|keys| - 1], q) + Bucket(labels, keys[|keys| - 1], q)
  }

  /** What get_subset returns: for each label in first-seen order, the first
      Quota indices carrying that label (fewer if the label is rarer). */
  function Selected(labels: seq<int>, pct: real): seq<nat>
  {
    Grouped(labels, FirstSeen(labels), Quota(PerClassCap(|labels|, pct)))
  }

  /** The indices of r whose item is labelled y, in the order of r. */
  function LabelFilter(labels: seq<int>, r: seq<nat>, y: int): seq<nat>
  {
    if r == [] then []
    else
      var n := |r| - 1;
      LabelFilter(labels, r[..n], y)
        + (if r[n] < |labels| && labels[r[n]] == y then [r[n]] else [])
  }

  /** Output is grouped by label in first-seen order, ascending within a group. */
  predicate GroupOrdered(labels: seq<int>, r: seq<nat>)
  {
    && (forall k :: 0 <= k < |r| ==> r[k] < |labels|)
    && (forall a, b :: 0 <= a < b < |r| ==>
          FirstIndex(labels, labels[r[a]]) < FirstIndex(labels, labels[r[b]])
          || (labels[r[a]] == labels[r[b]] && r[a] < r[b]))
  }

  // ---------------------------------------------------------------------------
  // The loop method

  lemma OccurrencesSnoc(labels: seq<int>, i: nat, z: int)
    requires i < |labels|
    ensures Occurrences(labels[..i + 1], z)
         == Occurrences(labels[..i], z) + (if labels[i] == z then [i] else [])
  {
    assert labels[..i + 1][..i] == labels[..i];
  }

  lemma FirstSeenSnoc(labels: seq<int>, i: nat)
    requires i < |labels|
    ensures FirstSeen(labels[..i + 1])
         == if labels[i] in FirstSeen(labels[..i]) then FirstSeen(labels[..i])
            else FirstSeen(labels[..i]) + [labels[i]]
  {
    assert labels[..i + 1][..i] == labels[..i];
  }

  /** A label occurs in the items exactly when it has an occurrence index. */
  lemma OccurrencesNonEmpty(labels: seq<int>, y: int)
    ensures y in labels <==> Occurrences(labels, y) != []
  {
    var occ := Occurrences(labels, y);
    if y in labels {
      var k :| 0 <= k < |labels| && labels[k] == y;
      OccurrencesComplete(labels, y, k);
    }
    if occ != [] {
      assert labels[occ[0]] == y;
    }
  }

  /** The bucket of the label at index i after that index has been offered to it. */
  lemma BucketStep(labels: seq<int>, i: nat, q: nat)
    requires i < |labels| && q >= 1
    ensures var b := Bucket(labels[..i], labels[i], q);
      && (labels[i] !in labels[..i] ==> b == [] && Bucket(labels[..i + 1], labels[i], q) == [i])
      && (labels[i] in labels[..i] ==> |b| >= 1)
      && (|b| < q ==> Bucket(labels[..i + 1], labels[i], q) == b + [i])
      && (|b| >= q ==> Bucket(labels[..i + 1], labels[i], q) == b)
  {
    var y := labels[i];
    var occ := Occurrences(labels[..i], y);
    var occ' := Occurrences(labels[..i + 1], y);
    OccurrencesSnoc(labels, i, y);
    assert occ' == occ + [i];
    OccurrencesNonEmpty(labels[..i], y);
    var b := Bucket(labels[..i], y, q);
    if q < |occ| {
      assert b == occ[..q];
      assert occ'[..q] == occ[..q];
    } else {
      assert b == occ;
      if q == |occ| {
        assert occ'[..q] == occ;
      } else {
        assert occ'[..|occ'|] == occ + [i];
      }
    }
  }

  /** The state of get_subset's first loop once the items before index i have
      been offered: keys lists the labels met so far in first-seen order and m
      maps each of them to its bucket. */
  ghost predicate FilledUpTo(labels: seq<int>, i: nat, q: nat, m: map<int, seq<nat>>, keys: seq<int>)
    requires i <= |labels|
  {
    && keys == FirstSeen(labels[..i])
    && (forall y :: y in m ==> y in keys)
    && (forall y :: y in keys ==> y in m)
    && (forall y :: y in m ==> m[y] == Bucket(labels[..i], y, q))
  }

  /** Offering index i leaves the buckets of every other label as they were. */
  lemma OtherBucketsUnchanged(labels: seq<int>, i: nat, q: nat)
    requires i < |labels|
    ensures forall z :: z != labels[i] ==> Bucket(labels[..i + 1], z, q) == Bucket(labels[..i], z, q)
  {
    forall z | z != labels[i] ensures Bucket(labels[..i + 1], z, q) == Bucket(labels[..i], z, q) {
      OccurrencesSnoc(labels, i, z);
    }
  }

  /** A label met for the first time gets a bucket holding just i. */
  lemma NewLabelStep(labels: seq<int>, i: nat, q: nat, m: map<int, seq<nat>>, keys: seq<int>)
    requires i < |labels| && q >= 1
    requires FilledUpTo(labels, i, q, m, keys)
    requires labels[i] !in m
    ensures FilledUpTo(labels, i + 1, q, m[labels[i] := [i]], keys + [labels[i]])
  {
    var y := labels[i];
    var m', keys' := m[y := [i]], keys + [y];
    FirstSeenSnoc(labels, i);
    assert y !in FirstSeen(labels[..i]);
    assert keys' == FirstSeen(labels[..i + 1]);
    OtherBucketsUnchanged(labels, i, q);
    BucketStep(labels, i, q);
    forall z | z in m' ensures m'[z] == Bucket(labels[..i + 1], z, q) {
      if z != y {
        assert m'[z] == m[z];
      }
    }
  }

  /** A known label whose bucket passes the cap test gets i appended. */
  lemma AdmitStep(labels: seq<int>, i: nat, cap: real, m: map<int, seq<nat>>, keys: seq<int>)
    requires i < |labels|
    requires FilledUpTo(labels, i, Quota(cap), m, keys)
    requires labels[i] in m
    requires (|m[labels[i]]| as real) < cap
    ensures FilledUpTo(labels, i + 1, Quota(cap), m[labels[i] := m[labels[i]] + [i]], keys)
  {
    var q := Quota(cap);
    var y := labels[i];
    var m' := m[y := m[y] + [i]];
    FirstSeenSnoc(labels, i);
    assert keys == FirstSeen(labels[..i + 1]);
    OtherBucketsUnchanged(labels, i, q);
    BucketStep(labels, i, q);
    AdmitsBelowQuota(|m[y]|, cap);
    assert m'[y] == Bucket(labels[..i + 1], y, q);
    forall z | z in m' ensures m'[z] == Bucket(labels[..i + 1], z, q) {
      if z != y {
        assert m'[z] == m[z];
      }
    }
  }

  /** A known label whose bucket fails the cap test keeps its bucket. */
  lemma RejectStep(labels: seq<int>, i: nat, cap: real, m: map<int, seq<nat>>, keys: seq<int>)
    requires i < |labels|
    requires FilledUpTo(labels, i, Quota(cap), m, keys)
    requires labels[i] in m
    requires !((|m[labels[i]]| as real) < cap)
    ensures FilledUpTo(labels, i + 1, Quota(cap), m, keys)
  {
    var q := Quota(cap);
    var y := labels[i];
    FirstSeenSnoc(labels, i);
    assert keys == FirstSeen(labels[..i + 1]);
    OtherBucketsUnchanged(labels, i, q);
    BucketStep(labels, i, q);
    AdmitsBelowQuota(|m[y]|, cap);
    assert m[y] == Bucket(labels[..i + 1], y, q);
    forall z | z in m ensures m[z] == Bucket(labels[..i + 1], z, q) {
      if z != y {
        assert m[z] == Bucket(labels[..i], z, q);
      }
    }
  }

  /** Once every item has been offered, the map holds the final bucket of every label. */
  lemma FilledAll(labels: seq<int>, q: nat, m: map<int, seq<nat>>, keys: seq<int>)
    requires FilledUpTo(labels, |labels|, q, m, keys)
    ensures keys == FirstSeen(labels)
    ensures forall y :: y in keys ==> y in m && m[y] == Bucket(labels, y, q)
  {
    assert labels[..|labels|] == labels;
  }

  lemma GroupedSnoc(labels: seq<int>, keys: seq<int>, j: nat, q: nat)
    requires j < |keys|
    ensures Grouped(labels, keys[..j + 1], q) == Grouped(labels, keys[..j], q) + Bucket(labels, keys[j], q)
  {
    assert keys[..j + 1][..j] == keys[..j];
  }

  /** The first loop of get_subset: offers every index, in order, to the bucket
      of its label (a map whose key order is kept in keys). A new label gets a
      bucket holding the index; a known one is appended to only while its bucket
      holds fewer than perClassValues indices. */
  method FillBuckets(labels: seq<int>, perClassValues: real) returns (m: map<int, seq<nat>>, keys: seq<int>)
    ensures keys == FirstSeen(labels)
    ensures forall y :: y in m ==> y in keys
    ensures forall y :: y in keys ==> y in m && m[y] == Bucket(labels, y, Quota(perClassValues))
  {
    ghost var q := Quota(perClassValues);
    m, keys := map[], [];
    var i := 0;
    while i < |labels|
      invariant 0 <= i <= |labels|
      invariant FilledUpTo(labels, i, q, m, keys)
    {
      var y := labels[i];
      if y in m {
        if (|m[y]| as real) < perClassValues {
          AdmitStep(labels, i, perClassValues, m, keys);
          m := m[y := m[y] + [i]];
        } else {
          RejectStep(labels, i, perClassValues, m, keys);
        }
      } else {
        NewLabelStep(labels, i, q, m, keys);
        m := m[y := [i]];
        keys := keys + [y];
      }
      i := i + 1;
    }
    FilledAll(labels, q, m, keys);
  }

  /** The second loop of get_subset: the buckets concatenated in key order. */
  method ConcatBuckets(labels: seq<int>, m: map<int, seq<nat>>, keys: seq<int>, ghost q: nat)
    returns (indices: seq<nat>)
    requires forall y :: y in keys ==> y in m && m[y] == Bucket(labels, y, q)
    ensures indices == Grouped(labels, keys, q)
  {
    indices := [];
    var j := 0;
    while j < |keys|
      invariant 0 <= j <= |keys|
      invariant indices == Grouped(labels, keys[..j], q)
    {
      GroupedSnoc(labels, keys, j, q);
      indices := indices + m[keys[j]];
      j := j + 1;
    }
    assert keys[..j] == keys;
  }

  /** get_subset: the threshold len(dataset) * pct / 10, the buckets, then their
      concatenation in first-seen label order. */
  method GetSubset(labels: seq<int>, pct: real) returns (indices: seq<nat>)
    ensures indices == Selected(labels, pct)
  {
    var perClassValues := PerClassCap(|labels|, pct);
    var m, keys := FillBuckets(labels, perClassValues);
    indices := ConcatBuckets(labels, m, keys, Quota(perClassValues));
  }

}

module SubsetProperties {
  import opened Subset

  // ---------------------------------------------------------------------------
  // Every selected index is an index of the dataset, and carries one of the keys.

  lemma {:induction false} GroupedMembers(labels: seq<int>, keys: seq<int>, q: nat)
    ensures forall k :: 0 <= k < |Grouped(labels, keys, q)| ==>
      Grouped(labels, keys, q)[k] < |labels| && labels[Grouped(labels, keys, q)[k]] in keys
  {
    if keys != [] {
      var init := keys[..|keys| - 1];
      var last := keys[|keys| - 1];
      GroupedMembers(labels, init, q);
      var g, b := Grouped(labels, init, q), Bucket(labels, last, q);
      assert Grouped(labels, keys, q) == g + b;
      forall k | 0 <= k < |g + b|
        ensures (g + b)[k] < |labels| && labels[(g + b)[k]] in keys
      {
        if k < |g| {
          assert (g + b)[k] == g[k];
          assert labels[g[k]] in init;
        } else {
          assert (g + b)[k] == b[k - |g|];
          assert labels[b[k - |g|]] == last;
        }
      }
    }
  }

  // ---------------------------------------------------------------------------
  // Filtering the output by one label

  lemma {:induction false} FilterConcat(labels: seq<int>, a: seq<nat>, b: seq<nat>, y: int)
    ensures LabelFilter(labels, a + b, y) == LabelFilter(labels, a, y) + LabelFilter(labels, b, y)
  {
    if b != [] {
      var n := |b| - 1;
      assert (a + b)[..|a + b| - 1] == a + b[..n];
      FilterConcat(labels, a, b[..n], y);
    } else {
      assert a + b == a;
    }
  }

  lemma {:induction false} FilterKeepsAll(labels: seq<int>, s: seq<nat>, y: int)
    requires forall k :: 0 <= k < |s| ==> s[k] < |labels| && labels[s[k]] == y
    ensures LabelFilter(labels, s, y) == s
  {
    if s != [] {
      var n := |s| - 1;
      FilterKeepsAll(labels, s[..n], y);
      assert s[..n] + [s[n]] == s;
    }
  }

  lemma {:induction false} FilterDropsAll(labels: seq<int>, s: seq<nat>, y: int)
    requires forall k :: 0 <= k < |s| ==> s[k] < |labels| && labels[s[k]] != y
    ensures LabelFilter(labels, s, y) == []
  {
    if s != [] {
      FilterDropsAll(labels, s[..|s| - 1], y);
    }
  }

  lemma {:induction false} FilterMembers(labels: seq<int>, r: seq<nat>, y: int)
    ensures forall x :: x in LabelFilter(labels, r, y) ==> x in r
  {
    if r != [] {
      var n := |r| - 1;
      FilterMembers(labels, r[..n], y);
      assert r == r[..n] + [r[n]];
    }
  }

  /** Filtering the concatenated buckets of distinct keys by y gives y's bucket. */
  lemma {:induction false} FilterGrouped(labels: seq<int>, keys: seq<int>, q: nat, y: int)
    requires forall a, b :: 0 <= a < b < |keys| ==> keys[a] != keys[b]
    ensures LabelFilter(labels, Grouped(labels, keys, q), y)
         == if y in keys then Bucket(labels, y, q) else []
  {
    if keys != [] {
      var init := keys[..|keys| - 1];
      var last := keys[|keys| - 1];
      FilterGrouped(labels, init, q, y);
      var b := Bucket(labels, last, q);
      FilterConcat(labels, Grouped(labels, init, q), b, y);
      assert keys == init + [last];
      if y == last {
        FilterKeepsAll(labels, b, y);
        assert y !in init;
      } else {
        FilterDropsAll(labels, b, y);
      }
    }
  }

  /** For each label y, the selected indices carrying y are exactly the first
      min(#occurrences of y, Quota) occurrences of y, in ascending order: the
      bucket stops growing once it is full. */
  lemma SelectedPerLabel(labels: seq<int>, pct: real, y: int)
    ensures var occ := Occurrences(labels, y);
      var q := Quota(PerClassCap(|labels|, pct));
      LabelFilter(labels, Selected(labels, pct), y) == occ[..if q < |occ| then q else |occ|]
  {
    var q := Quota(PerClassCap(|labels|, pct));
    FilterGrouped(labels, FirstSeen(labels), q, y);
    OccurrencesNonEmpty(labels, y);
  }

  /** The first index of y is the head of its occurrences. */
  lemma OccurrencesHead(labels: seq<int>, y: int)
    requires y in labels
    ensures Occurrences(labels, y) != [] && Occurrences(labels, y)[0] == FirstIndex(labels, y)
  {
    var occ := Occurrences(labels, y);
    var f := FirstIndex(labels, y);
    OccurrencesComplete(labels, y, f);
    var p :| 0 <= p < |occ| && occ[p] == f;
    assert occ[0] <= occ[p];
    assert labels[occ[0]] == y;
  }

  /** Every label present contributes its first occurrence, even when the
      per-class threshold len(dataset) * pct / 10 is below one. */
  lemma FirstOccurrenceSelected(labels: seq<int>, pct: real, y: int)
    requires y in labels
    ensures FirstIndex(labels, y) in Selected(labels, pct)
  {
    SelectedPerLabel(labels, pct, y);
    OccurrencesHead(labels, y);
    var r := Selected(labels, pct);
    FilterMembers(labels, r, y);
    assert FirstIndex(labels, y) in LabelFilter(labels, r, y);
  }

  // ---------------------------------------------------------------------------
  // Order of the output

  lemma FirstIndexPrefix(labels: seq<int>, n: nat, z: int)
    requires n <= |labels| && z in labels[..n]
    ensures FirstIndex(labels, z) == FirstIndex(labels[..n], z)
  {
    var f := FirstIndex(labels[..n], z);
    assert labels[f] == z;
  }

  /** Labels are listed in increasing order of their first index. */
  lemma {:induction false} FirstSeenOrdered(labels: seq<int>)
    ensures forall a, b :: 0 <= a < b < |FirstSeen(labels)| ==>
      FirstIndex(labels, FirstSeen(labels)[a]) < FirstIndex(labels, FirstSeen(labels)[b])
  {
    if labels != [] {
      var n := |labels| - 1;
      var p := FirstSeen(labels[..n]);
      var ks := FirstSeen(labels);
      FirstSeenOrdered(labels[..n]);
      forall z | z in p ensures FirstIndex(labels, z) == FirstIndex(labels[..n], z) < n {
        FirstIndexPrefix(labels, n, z);
      }
      var y := labels[n];
      if y in p {
        assert ks == p;
      } else {
        assert ks == p + [y];
        var f := FirstIndex(labels, y);
        assert f == n;
        forall a, b | 0 <= a < b < |ks| ensures FirstIndex(labels, ks[a]) < FirstIndex(labels, ks[b]) {
          assert ks[a] == p[a] && ks[a] in p;
          if b < |p| {
            assert ks[b] == p[b] && ks[b] in p;
          }
        }
      }
    }
  }

  /** The elements of one bucket all carry its label and ascend. */
  lemma BucketOrdered(labels: seq<int>, y: int, q: nat)
    ensures forall k :: 0 <= k < |Bucket(labels, y, q)| ==>
      Bucket(labels, y, q)[k] < |labels| && labels[Bucket(labels, y, q)[k]] == y
    ensures forall a, b :: 0 <= a < b < |Bucket(labels, y, q)| ==> Bucket(labels, y, q)[a] < Bucket(labels, y, q)[b]
  {
  }

  /** Appending the bucket of a key met later than every earlier key keeps the
      output grouped. */
  lemma AppendBucketOrdered(labels: seq<int>, g: seq<nat>, init: seq<int>, last: int, q: nat)
    requires last in labels
    requires forall k :: 0 <= k < |g| ==> g[k] < |labels| && labels[g[k]] in init
    requires forall k :: 0 <= k < |init| ==> init[k] in labels
    requires forall k :: 0 <= k < |init| ==> FirstIndex(labels, init[k]) < FirstIndex(labels, last)
    requires GroupOrdered(labels, g)
    ensures GroupOrdered(labels, g + Bucket(labels, last, q))
  {
    var b := Bucket(labels, last, q);
    var r := g + b;
    BucketOrdered(labels, last, q);
    forall x, z | 0 <= x < z < |r|
      ensures FirstIndex(labels, labels[r[x]]) < FirstIndex(labels, labels[r[z]])
           || (labels[r[x]] == labels[r[z]] && r[x] < r[z])
    {
      if z < |g| {
        assert r[x] == g[x] && r[z] == g[z];
      } else if x >= |g| {
        assert r[x] == b[x - |g|] && r[z] == b[z - |g|];
      } else {
        assert r[x] == g[x] && r[z] == b[z - |g|];
        var p :| 0 <= p < |init| && init[p] == labels[g[x]];
      }
    }
  }

  /** Buckets of keys listed by increasing first index come out grouped in that
      order, each bucket ascending. */
  lemma {:induction false} GroupedOrdered(labels: seq<int>, keys: seq<int>, q: nat)
    requires forall k :: 0 <= k < |keys| ==> keys[k] in labels
    requires forall a, b :: 0 <= a < b < |keys| ==> FirstIndex(labels, keys[a]) < FirstIndex(labels, keys[b])
    ensures GroupOrdered(labels, Grouped(labels, keys, q))
  {
    if keys != [] {
      var init := keys[..|keys| - 1];
      var last := keys[|keys| - 1];
      GroupedOrdered(labels, init, q);
      GroupedMembers(labels, init, q);
      AppendBucketOrdered(labels, Grouped(labels, init, q), init, last, q);
    }
  }

  /** The output is grouped by label in order of each label's first
      occurrence, and ascending within each group. */
  lemma SelectedOrdered(labels: seq<int>, pct: real)
    ensures GroupOrdered(labels, Selected(labels, pct))
  {
    FirstSeenOrdered(labels);
    GroupedOrdered(labels, FirstSeen(labels), Quota(PerClassCap(|labels|, pct)));
  }

  // ---------------------------------------------------------------------------
  // Distinct indices, bounded length

  /** A sequence of distinct naturals below n has at most n elements. */
  lemma {:induction false} DistinctBoundedLength(r: seq<nat>, n: nat)
    requires forall k :: 0 <= k < |r| ==> r[k] < n
    requires forall a, b :: 0 <= a < b < |r| ==> r[a] != r[b]
    ensures |r| <= n
  {
    if n == 0 {
    } else if n - 1 in r {
      var p :| 0 <= p < |r| && r[p] == n - 1;
      var r' := r[..p] + r[p + 1..];
      forall k | 0 <= k < |r'| ensures r'[k] < n - 1 {
        if k < p {
          assert r'[k] == r[k];
        } else {
          assert r'[k] == r[k + 1];
        }
      }
      forall a, b | 0 <= a < b < |r'| ensures r'[a] != r'[b] {
        var a', b' := if a < p then a else a + 1, if b < p then b else b + 1;
        assert r'[a] == r[a'] && r'[b] == r[b'];
      }
      DistinctBoundedLength(r', n - 1);
    } else {
      DistinctBoundedLength(r, n - 1);
    }
  }

  /** get_subset returns distinct indices of the dataset, no more than there are items. */
  lemma SelectedIndicesDistinct(labels: seq<int>, pct: real)
    ensures var r := Selected(labels, pct);
      && (forall k :: 0 <= k < |r| ==> r[k] < |labels|)
      && (forall a, b :: 0 <= a < b < |r| ==> r[a] != r[b])
      && |r| <= |labels|
  {
    var r := Selected(labels, pct);
    SelectedOrdered(labels, pct);
    DistinctBoundedLength(r, |labels|);
  }

  // ---------------------------------------------------------------------------
  // A worked scenario

  /** Items whose labels all appeared among the first n add no new key. */
  lemma {:induction false} FirstSeenStable(labels: seq<int>, n: nat)
    requires n <= |labels|
    requires forall i :: n <= i < |labels| ==> labels[i] in labels[..n]
    ensures FirstSeen(labels) == FirstSeen(labels[..n])
  {
    if |labels| > n {
      var m := |labels| - 1;
      var p := labels[..m];
      assert p[..n] == labels[..n];
      forall i | n <= i < |p| ensures p[i] in p[..n] {
        assert p[i] == labels[i];
      }
      FirstSeenStable(p, n);
      assert labels[m] in labels[..n];
      var k :| 0 <= k < n && labels[..n][k] == labels[m];
      assert p[k] == labels[m];
      assert labels[m] in FirstSeen(p);
      FirstSeenSnoc(labels, m);
      assert labels[..m + 1] == labels;
    } else {
      assert labels[..n] == labels;
    }
  }


  /** Labels alternating 0, 1, 0, 1, ...: the keys are 0 then 1. */
  lemma AlternatingKeys(labels: seq<int>)
    requires |labels| >= 2 && forall i :: 0 <= i < |labels| ==> labels[i] == i % 2
    ensures FirstSeen(labels) == [0, 1]
    ensures FirstIndex(labels, 0) == 0 && FirstIndex(labels, 1) == 1
  {
    assert labels[..2] == [0, 1];
    forall i | 2 <= i < |labels| ensures labels[i] in labels[..2] {
      assert labels[i] == labels[i % 2];
    }
    FirstSeenStable(labels, 2);
    assert [0, 1][..1] == [0];
  }

  /** Twenty items in two alternating classes with pct 0.5: the threshold is
      20 * 0.5 / 10 = 1, so each class keeps only its first item and the result
      is the two first-seen indices, class 0 first. */
  lemma TwoClassesHalf(labels: seq<int>)
    requires |labels| == 20 && forall i :: 0 <= i < |labels| ==> labels[i] == i % 2
    ensures Selected(labels, 0.5) == [0, 1]
  {
    assert PerClassCap(|labels|, 0.5) == 1.0;
    assert Quota(1.0) == 1;
    AlternatingKeys(labels);
    OccurrencesHead(labels, 0);
    OccurrencesHead(labels, 1);
    assert Bucket(labels, 0, 1) == [0];
    assert Bucket(labels, 1, 1) == [1];
    assert [0, 1][..1] == [0] && [0][..0] == [];
    assert Grouped(labels, [0], 1) == [0];
  }
}
