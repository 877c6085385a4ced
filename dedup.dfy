/** Order-preserving deduplication by a key, as the source writes it three
    times with a `seen` set: message ids across listing pages, action items
    compared ignoring case, and hashtag names. `DedupBy` keeps the first
    element of each key, in the order the keys first appear. */
module Dedup {

  /** The keys of the elements of `xs`. */
  function KeySet<T, K(==)>(xs: seq<T>, key: T -> K): set<K> {
    set i | 0 <= i < |xs| :: key(xs[i])
  }

  /** No two elements of `xs` have the same key. */
  ghost predicate KeysDistinct<T, K>(xs: seq<T>, key: T -> K) {
    forall i, j :: 0 <= i < j < |xs| ==> key(xs[i]) != key(xs[j])
  }

  /** The loop `for x in xs: if key(x) not in seen: seen.add(key(x));
      out.append(x)`, unfolded from the last element. */
  function DedupBy<T, K(==)>(xs: seq<T>, key: T -> K): seq<T>
    decreases |xs|
  {
    if xs == [] then []
    else
      var init := DedupBy(xs[..|xs| - 1], key);
      if key(xs[|xs| - 1]) in KeySet(init, key) then init else init + [xs[|xs| - 1]]
  }

  /** The position of the first element of `xs` whose key is `k`. */
  ghost function FirstIndex<T, K>(xs: seq<T>, key: T -> K, k: K): (p: nat)
    requires k in KeySet(xs, key)
    ensures p < |xs| && key(xs[p]) == k
    ensures forall q :: 0 <= q < p ==> key(xs[q]) != k
    decreases |xs|
  {
    if key(xs[0]) == k then 0
    else
      var i :| 0 <= i < |xs| && key(xs[i]) == k;
      assert key(xs[1..][i - 1]) == k;
      1 + FirstIndex(xs[1..], key, k)
  }

  lemma FirstIndexPrefix<T, K>(xs: seq<T>, n: nat, key: T -> K, k: K)
    requires n <= |xs| && k in KeySet(xs[..n], key)
    ensures k in KeySet(xs, key) && FirstIndex(xs, key, k) == FirstIndex(xs[..n], key, k)
  {
    assert forall j :: 0 <= j < n ==> xs[..n][j] == xs[j];
    var p := FirstIndex(xs[..n], key, k);
    assert key(xs[p]) == k;
  }

  lemma KeySetSnoc<T, K>(xs: seq<T>, x: T, key: T -> K)
    ensures KeySet(xs + [x], key) == KeySet(xs, key) + {key(x)}
  {
    var ys := xs + [x];
    assert forall i :: 0 <= i < |xs| ==> ys[i] == xs[i];
    assert ys[|xs|] == x;
  }

  /** Deduplication keeps every key and invents none. */
  lemma {:induction false} DedupByKeys<T, K>(xs: seq<T>, key: T -> K)
    ensures KeySet(DedupBy(xs, key), key) == KeySet(xs, key)
    ensures forall y :: y in DedupBy(xs, key) ==> y in xs
    decreases |xs|
  {
    if xs != [] {
      var xs' := xs[..|xs| - 1];
      DedupByKeys(xs', key);
      assert xs == xs' + [xs[|xs| - 1]];
      KeySetSnoc(xs', xs[|xs| - 1], key);
      KeySetSnoc(DedupBy(xs', key), xs[|xs| - 1], key);
    }
  }

  /** The output has pairwise distinct keys. */
  lemma {:induction false} DedupByDistinct<T, K>(xs: seq<T>, key: T -> K)
    ensures KeysDistinct(DedupBy(xs, key), key)
    decreases |xs|
  {
    if xs != [] {
      DedupByDistinct(xs[..|xs| - 1], key);
    }
  }

  /** Each output element is the first input element with its key, and the
      output lists the keys in the order of their first appearance. With
      `DedupByKeys` and `DedupByDistinct` this determines the output. */
  lemma {:induction false} DedupByFirstSeen<T, K>(xs: seq<T>, key: T -> K)
    ensures forall i :: 0 <= i < |DedupBy(xs, key)| ==>
      key(DedupBy(xs, key)[i]) in KeySet(xs, key) &&
      DedupBy(xs, key)[i] == xs[FirstIndex(xs, key, key(DedupBy(xs, key)[i]))]
    ensures forall i, j :: 0 <= i < j < |DedupBy(xs, key)| ==>
      key(DedupBy(xs, key)[i]) in KeySet(xs, key) && key(DedupBy(xs, key)[j]) in KeySet(xs, key) &&
      FirstIndex(xs, key, key(DedupBy(xs, key)[i])) < FirstIndex(xs, key, key(DedupBy(xs, key)[j]))
    decreases |xs|
  {
    if xs != [] {
      var n := |xs| - 1;
      var xs' := xs[..n];
      var r' := DedupBy(xs', key);
      var r := DedupBy(xs, key);
      DedupByFirstSeen(xs', key);
      DedupByKeys(xs', key);
      forall i | 0 <= i < |r'|
        ensures key(r'[i]) in KeySet(xs, key)
        ensures FirstIndex(xs, key, key(r'[i])) == FirstIndex(xs', key, key(r'[i])) < n
      {
        FirstIndexPrefix(xs, n, key, key(r'[i]));
      }
      if key(xs[n]) !in KeySet(r', key) {
        assert r == r' + [xs[n]];
        assert key(xs[n]) !in KeySet(xs', key);
        assert xs[n] in xs;
        assert forall j :: 0 <= j < n ==> xs'[j] == xs[j];
        assert xs[n] == xs[|xs| - 1];
        assert key(xs[n]) in KeySet(xs, key);
      }
    }
  }

  /** Deduplication never lengthens its input. */
  lemma {:induction false} DedupByLength<T, K>(xs: seq<T>, key: T -> K)
    ensures |DedupBy(xs, key)| <= |xs|
    decreases |xs|
  {
    if xs != [] {
      DedupByLength(xs[..|xs| - 1], key);
    }
  }

  /** The number of distinct keys is the length of the deduplicated sequence. */
  lemma DistinctKeyCount<T, K>(xs: seq<T>, key: T -> K)
    ensures |KeySet(xs, key)| == |DedupBy(xs, key)|
  {
    var r := DedupBy(xs, key);
    DedupByKeys(xs, key);
    DedupByDistinct(xs, key);
    DistinctCard(r, key);
  }

  lemma {:induction false} DistinctCard<T, K>(r: seq<T>, key: T -> K)
    requires KeysDistinct(r, key)
    ensures |KeySet(r, key)| == |r|
    decreases |r|
  {
    if r != [] {
      var r' := r[..|r| - 1];
      DistinctCard(r', key);
      assert r == r' + [r[|r| - 1]];
      KeySetSnoc(r', r[|r| - 1], key);
      assert key(r[|r| - 1]) !in KeySet(r', key);
    }
  }

  /** Appending to the input only appends to the output: the `seen` set
      carries over from one batch of input to the next. */
  lemma DedupBySnoc<T, K>(xs: seq<T>, x: T, key: T -> K)
    ensures DedupBy(xs + [x], key) ==
      if key(x) in KeySet(DedupBy(xs, key), key) then DedupBy(xs, key) else DedupBy(xs, key) + [x]
  {
    assert (xs + [x])[..|xs + [x]| - 1] == xs;
  }

  /** A prefix of a deduplicated sequence still has distinct keys. */
  lemma PrefixKeysDistinct<T, K>(xs: seq<T>, n: nat, key: T -> K)
    requires KeysDistinct(xs, key) && n <= |xs|
    ensures KeysDistinct(xs[..n], key)
  {
  }
}
