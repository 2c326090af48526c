/** np.argsort on a sequence of real keys: a permutation of the indices that
    lists the keys in ascending order. numpy's default sort is not stable,
    so its order among equal keys is left open by IsArgSort; ArgSort below
    is one order that satisfies it (ties by ascending index). */
module Ranking {

  /** The index sequence 0, 1, ..., n - 1. */
  function Indices(n: nat): (s: seq<int>)
    ensures |s| == n && forall k :: 0 <= k < n ==> s[k] == k
  {
    seq(n, k => k)
  }

  /** order lists each of 0 .. n - 1 exactly once. */
  predicate IsPermutation(order: seq<int>, n: nat)
  {
    multiset(order) == multiset(Indices(n))
  }

  /** Every index of order addresses keys, and the addressed keys ascend. */
  predicate SortedBy(order: seq<int>, keys: seq<real>)
  {
    (forall k :: 0 <= k < |order| ==> 0 <= order[k] < |keys|) &&
    forall k, l :: 0 <= k < l < |order| ==> keys[order[k]] <= keys[order[l]]
  }

  /** order is a possible result of np.argsort(keys). */
  predicate IsArgSort(order: seq<int>, keys: seq<real>)
  {
    |order| == |keys| && IsPermutation(order, |keys|) && SortedBy(order, keys)
  }

  /** Insert index i into the sorted index sequence s, after every index
      whose key is not larger. */
  function InsertByKey(keys: seq<real>, s: seq<int>, i: int): (r: seq<int>)
    requires 0 <= i < |keys|
    requires SortedBy(s, keys)
    ensures |r| == |s| + 1
    ensures multiset(r) == multiset(s) + multiset{i}
    ensures forall k :: 0 <= k < |r| ==> r[k] == i || r[k] in s
    ensures SortedBy(r, keys)
  {
    if |s| == 0 then [i]
    else if keys[i] < keys[s[0]] then [i] + s
    else
      var tail := InsertByKey(keys, s[1..], i);
      assert s == [s[0]] + s[1..];
      HeadBelowRest(keys, s, tail, i);
      [s[0]] + tail
  }

  /** The head of a sorted s has no larger key than i or any later entry. */
  lemma HeadBelowRest(keys: seq<real>, s: seq<int>, tail: seq<int>, i: int)
    requires 0 <= i < |keys| && SortedBy(s, keys) && |s| > 0 && keys[s[0]] <= keys[i]
    requires SortedBy(tail, keys)
    requires forall k :: 0 <= k < |tail| ==> tail[k] == i || tail[k] in s[1..]
    ensures SortedBy([s[0]] + tail, keys)
  {
    forall k | 0 <= k < |tail| ensures keys[s[0]] <= keys[tail[k]] {
      if tail[k] != i {
        var p :| 0 <= p < |s[1..]| && s[1..][p] == tail[k];
        assert s[1 + p] == tail[k];
      }
    }
    var r := [s[0]] + tail;
    forall k, l | 0 <= k < l < |r| ensures keys[r[k]] <= keys[r[l]] {
      if k > 0 {
        assert r[k] == tail[k - 1] && r[l] == tail[l - 1];
      } else {
        assert r[l] == tail[l - 1];
      }
    }
  }

  /** The first n indices of keys, sorted by key. */
  function SortFirst(keys: seq<real>, n: nat): (r: seq<int>)
    requires n <= |keys|
    ensures |r| == n
    ensures multiset(r) == multiset(Indices(n))
    ensures SortedBy(r, keys)
  {
    if n == 0 then []
    else
      assert Indices(n) == Indices(n - 1) + [n - 1];
      InsertByKey(keys, SortFirst(keys, n - 1), n - 1)
  }

  /** np.argsort(keys). */
  function ArgSort(keys: seq<real>): (order: seq<int>)
    ensures IsArgSort(order, keys)
  {
    SortFirst(keys, |keys|)
  }

  /** Each index below n occurs once in Indices(n), no other value occurs. */
  lemma {:induction false} IndicesCount(n: nat, v: int)
    ensures multiset(Indices(n))[v] == if 0 <= v < n then 1 else 0
  {
    if n > 0 {
      assert Indices(n) == Indices(n - 1) + [n - 1];
      IndicesCount(n - 1, v);
    }
  }

  /** What a permutation of 0 .. n - 1 is: n distinct entries, all below n,
      every index below n among them. */
  lemma PermutationFacts(order: seq<int>, n: nat)
    requires IsPermutation(order, n)
    ensures |order| == n
    ensures forall k :: 0 <= k < |order| ==> 0 <= order[k] < n
    ensures forall k, l :: 0 <= k < l < |order| ==> order[k] != order[l]
    ensures forall v :: 0 <= v < n ==> v in order
  {
    assert |multiset(order)| == |multiset(Indices(n))|;
    forall k | 0 <= k < |order| ensures 0 <= order[k] < n {
      assert order[k] in multiset(order);
      IndicesCount(n, order[k]);
    }
    forall k, l | 0 <= k < l < |order| ensures order[k] != order[l] {
      if order[k] == order[l] {
        DuplicateCount(order, k, l);
        IndicesCount(n, order[k]);
      }
    }
    forall v | 0 <= v < n ensures v in order {
      IndicesCount(n, v);
      assert v in multiset(order);
    }
  }

  /** The position of index v in a permutation of 0 .. n - 1. */
  lemma PositionOf(order: seq<int>, n: nat, v: int) returns (p: int)
    requires IsPermutation(order, n) && 0 <= v < n
    ensures 0 <= p < |order| == n && order[p] == v
  {
    PermutationFacts(order, n);
    assert v in order;
    p :| 0 <= p < |order| && order[p] == v;
  }

  /** A value at two positions occurs at least twice. */
  lemma DuplicateCount(s: seq<int>, k: int, l: int)
    requires 0 <= k < l < |s| && s[k] == s[l]
    ensures multiset(s)[s[k]] >= 2
  {
    assert s == s[.. l] + s[l ..];
    assert s[k] in s[.. l];
    assert s[l] in s[l ..];
  }
}
