/** Comparison functions, ascending sequences and the binary search that the
    Go code calls as `slices.BinarySearchFunc`. */
module Slices {

  /** `cmp` is a strict total order that reports 0 on equal arguments only.
      The laws are stated through named predicates so that a proof can ask for
      the instances it needs. */
  ghost predicate TotalOrder<K(!new)>(cmp: (K, K) -> int) {
    && (forall a, b :: Antisymmetric(cmp, a, b))
    && (forall a, b, c :: Transitive(cmp, a, b, c))
  }

  ghost predicate Antisymmetric<K>(cmp: (K, K) -> int, a: K, b: K) {
    && (cmp(a, b) == 0 <==> a == b)
    && (cmp(a, b) < 0 <==> cmp(b, a) > 0)
  }

  ghost predicate Transitive<K>(cmp: (K, K) -> int, a: K, b: K, c: K) {
    cmp(a, b) < 0 && cmp(b, c) < 0 ==> cmp(a, c) < 0
  }

  ghost predicate Ascending<K>(cmp: (K, K) -> int, s: seq<K>) {
    forall i, j :: 0 <= i < j < |s| ==> cmp(s[i], s[j]) < 0
  }

  /** The elements that sort before `target` come first: what binary search needs. */
  ghost predicate Partitioned<T>(s: seq<T>, target: T, cmp: (T, T) -> int) {
    forall i, j :: 0 <= i < j < |s| && cmp(s[j], target) < 0 ==> cmp(s[i], target) < 0
  }

  method BinarySearch<T>(s: seq<T>, target: T, cmp: (T, T) -> int) returns (pos: nat, found: bool)
    requires Partitioned(s, target, cmp)
    ensures pos <= |s|
    ensures forall k :: 0 <= k < pos ==> cmp(s[k], target) < 0
    ensures forall k :: pos <= k < |s| ==> cmp(s[k], target) >= 0
    ensures found <==> pos < |s| && cmp(s[pos], target) == 0
  {
    var lo, hi := 0, |s|;
    while lo < hi
      invariant 0 <= lo <= hi <= |s|
      invariant forall k :: 0 <= k < lo ==> cmp(s[k], target) < 0
      invariant forall k :: hi <= k < |s| ==> cmp(s[k], target) >= 0
    {
      var mid := (lo + hi) / 2;
      if cmp(s[mid], target) < 0 {
        lo := mid + 1;
      } else {
        hi := mid;
      }
    }
    return lo, lo < |s| && cmp(s[lo], target) == 0;
  }

  function Insert<T>(s: seq<T>, i: nat, x: T): seq<T>
    requires i <= |s|
  {
    s[..i] + [x] + s[i..]
  }

  function Delete<T>(s: seq<T>, i: nat): seq<T>
    requires i < |s|
  {
    s[..i] + s[i + 1..]
  }

  /** Two ascending sequences with the same elements are the same sequence, so
      the iteration order of a sorted container depends on its content alone. */
  lemma {:induction false} AscendingUnique<K(!new)>(cmp: (K, K) -> int, s: seq<K>, t: seq<K>)
    requires TotalOrder(cmp)
    requires Ascending(cmp, s) && Ascending(cmp, t)
    requires forall k :: k in s <==> k in t
    ensures s == t
  {
    assert (|s| > 0 ==> s[0] in s) && (|t| > 0 ==> t[0] in t);
    if |s| > 0 && |t| > 0 {
      assert s[0] in t && t[0] in s;
      assert Antisymmetric(cmp, s[0], t[0]);
      assert s[0] == t[0];
      forall k ensures k in s[1..] <==> k in t[1..] {
        TailElements(cmp, s, k);
        TailElements(cmp, t, k);
      }
      AscendingUnique(cmp, s[1..], t[1..]);
    }
  }

  lemma TailElements<K(!new)>(cmp: (K, K) -> int, s: seq<K>, k: K)
    requires TotalOrder(cmp) && Ascending(cmp, s) && s != []
    ensures k in s[1..] <==> k in s && k != s[0]
  {
    assert Antisymmetric(cmp, s[0], s[0]);
    if k in s && k != s[0] {
      var i :| 0 <= i < |s| && s[i] == k;
      assert s[1..][i - 1] == k;
    }
  }
}
