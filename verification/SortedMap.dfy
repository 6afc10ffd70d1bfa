/** The ordered map that backs the subnet index (internal/aghalg/sortedmap.go). */
module SortedMaps {
  import opened Slices
  import opened Wrappers

  class SortedMap<K(==, !new), V> {
    var vals: map<K, V>
    const cmp: (K, K) -> int
    var keys: seq<K>

    /** The key slice is strictly ascending and lists exactly the map's domain. */
    ghost predicate Valid()
      reads this
    {
      && TotalOrder(cmp)
      && Ascending(cmp, keys)
      && forall k :: k in keys <==> k in vals
    }

    constructor (cmp: (K, K) -> int)
      requires TotalOrder(cmp)
      ensures Valid() && vals == map[] && this.cmp == cmp
    {
      vals := map[];
      this.cmp := cmp;
      keys := [];
    }

    method Set(key: K, val: V)
      requires Valid()
      modifies this
      ensures Valid() && vals == old(vals)[key := val]
    {
      vals := vals[key := val];
      AscendingPartitioned(cmp, keys, key);
      var i, has := BinarySearch(keys, key, cmp);
      if has {
        assert Antisymmetric(cmp, keys[i], key);
        assert keys[i := key] == keys;
        keys := keys[i := key];
      } else {
        InsertAscending(cmp, keys, key, i);
        keys := Insert(keys, i, key);
      }
    }

    method Get(key: K) returns (val: Option<V>)
      requires Valid()
      ensures val == if key in vals then Some(vals[key]) else None
    {
      if key in vals {
        val := Some(vals[key]);
      } else {
        val := None;
      }
    }

    /** The search result that the source drops is always a hit. */
    method Del(key: K)
      requires Valid()
      modifies this
      ensures Valid() && vals == old(vals) - {key}
    {
      if key !in vals {
        assert vals == vals - {key};
        return;
      }
      vals := vals - {key};
      AscendingPartitioned(cmp, keys, key);
      var i, found := BinarySearch(keys, key, cmp);
      SearchHits(cmp, keys, key, i);
      assert Antisymmetric(cmp, key, key) && found;
      DeleteAscending(cmp, keys, key, i);
      keys := Delete(keys, i);
    }

    method Clear()
      requires Valid()
      modifies this
      ensures Valid() && vals == map[]
    {
      keys := [];
      vals := map[];
    }

    /** Calls `cb` on the entries in key order and stops after the first call
        that returns false.  `visited` lists the calls. */
    method Range(cb: (K, V) -> bool) returns (visited: seq<(K, V)>)
      requires Valid()
      ensures |visited| <= |keys|
      ensures forall i :: 0 <= i < |visited| ==>
                keys[i] in vals && visited[i] == (keys[i], vals[keys[i]])
      ensures forall i :: 0 <= i < |visited| - 1 ==> cb(visited[i].0, visited[i].1)
      ensures |visited| < |keys| ==> visited != [] && !cb(visited[|visited| - 1].0, visited[|visited| - 1].1)
    {
      visited := [];
      for j := 0 to |keys|
        invariant |visited| == j
        invariant forall i :: 0 <= i < j ==> keys[i] in vals && visited[i] == (keys[i], vals[keys[i]])
        invariant forall i :: 0 <= i < j ==> cb(visited[i].0, visited[i].1)
      {
        assert keys[j] in keys;
        visited := visited + [(keys[j], vals[keys[j]])];
        if !cb(keys[j], vals[keys[j]]) {
          return;
        }
      }
    }

    /** The callers' way of searching: a walk with `Range` whose callback stops
        it at the first key for which `hit` holds.  Gives that key's place. */
    method First(hit: K -> bool) returns (r: Option<nat>)
      requires Valid()
      ensures r.Some? ==> r.value < |keys| && hit(keys[r.value]) && keys[r.value] in vals
      ensures r.Some? ==> forall i :: 0 <= i < r.value ==> !hit(keys[i])
      ensures r.None? ==> forall k :: k in vals ==> !hit(k)
    {
      var visited := Range((k, v) => !hit(k));
      forall i | 0 <= i < |visited| - 1 ensures !hit(keys[i]) {
        assert visited[i].0 == keys[i];
      }
      if visited != [] && hit(visited[|visited| - 1].0) {
        return Some(|visited| - 1);
      }
      assert |visited| == |keys|;
      forall k | k in vals ensures !hit(k) {
        assert k in keys;
        var i :| 0 <= i < |keys| && keys[i] == k;
        assert visited[i].0 == k;
      }
      return None;
    }
  }

  datatype Op<K, V> = OpSet(key: K, val: V) | OpDel(key: K) | OpClear

  /** What a run of operations means for a plain map. */
  ghost function Apply<K, V>(m: map<K, V>, ops: seq<Op<K, V>>): map<K, V> {
    if ops == [] then m else
      var m1 := Apply(m, ops[..|ops| - 1]);
      match ops[|ops| - 1]
      case OpSet(k, v) => m1[k := v]
      case OpDel(k) => m1 - {k}
      case OpClear => map[]
  }

  /** Every run of operations refines the plain map, and ends with the one
      ascending listing of its domain. */
  method Run<K(==, !new), V>(m: SortedMap<K, V>, ops: seq<Op<K, V>>)
    requires m.Valid()
    modifies m
    ensures m.Valid() && m.vals == Apply(old(m.vals), ops)
    ensures forall ks: seq<K> :: Ascending(m.cmp, ks) && (forall k :: k in ks <==> k in Apply(old(m.vals), ops)) ==> m.keys == ks
  {
    for i := 0 to |ops|
      invariant m.Valid() && m.vals == Apply(old(m.vals), ops[..i])
    {
      assert ops[..i + 1][..i] == ops[..i];
      match ops[i]
      case OpSet(k, v) => m.Set(k, v);
      case OpDel(k) => m.Del(k);
      case OpClear => m.Clear();
    }
    assert ops[..|ops|] == ops;
    forall ks: seq<K> | Ascending(m.cmp, ks) && (forall k :: k in ks <==> k in Apply(old(m.vals), ops))
      ensures m.keys == ks
    {
      AscendingUnique(m.cmp, m.keys, ks);
    }
  }

  lemma AscendingPartitioned<K(!new)>(cmp: (K, K) -> int, s: seq<K>, key: K)
    requires TotalOrder(cmp) && Ascending(cmp, s)
    ensures Partitioned(s, key, cmp)
  {
    forall i, j | 0 <= i < j < |s| && cmp(s[j], key) < 0 ensures cmp(s[i], key) < 0 {
      assert Transitive(cmp, s[i], s[j], key);
    }
  }

  lemma InsertAscending<K(!new)>(cmp: (K, K) -> int, s: seq<K>, key: K, i: nat)
    requires TotalOrder(cmp) && Ascending(cmp, s) && i <= |s|
    requires forall k :: 0 <= k < i ==> cmp(s[k], key) < 0
    requires forall k :: i <= k < |s| ==> cmp(s[k], key) >= 0
    requires i == |s| || cmp(s[i], key) != 0
    ensures Ascending(cmp, Insert(s, i, key))
    ensures forall k :: k in Insert(s, i, key) <==> k in s || k == key
  {
    forall k | i <= k < |s| ensures cmp(key, s[k]) < 0 {
      assert Antisymmetric(cmp, s[i], key) && Antisymmetric(cmp, key, s[i]);
      assert Transitive(cmp, key, s[i], s[k]);
    }
    InsertElements(s, key, i);
  }

  lemma InsertElements<K>(s: seq<K>, key: K, i: nat)
    requires i <= |s|
    ensures forall k :: k in Insert(s, i, key) <==> k in s || k == key
  {
  }

  /** Searching an ascending sequence for one of its elements finds it. */
  lemma SearchHits<K(!new)>(cmp: (K, K) -> int, s: seq<K>, key: K, i: nat)
    requires TotalOrder(cmp) && key in s && i <= |s|
    requires forall k :: 0 <= k < i ==> cmp(s[k], key) < 0
    requires forall k :: i <= k < |s| ==> cmp(s[k], key) >= 0
    requires Ascending(cmp, s)
    ensures i < |s| && s[i] == key
  {
    var j :| 0 <= j < |s| && s[j] == key;
    assert Antisymmetric(cmp, key, key) && Antisymmetric(cmp, s[i], key);
  }

  lemma DeleteAscending<K(!new)>(cmp: (K, K) -> int, s: seq<K>, key: K, i: nat)
    requires TotalOrder(cmp) && Ascending(cmp, s) && i < |s| && s[i] == key
    ensures Ascending(cmp, Delete(s, i))
    ensures forall k :: k in Delete(s, i) <==> k in s && k != key
  {
    var t := Delete(s, i);
    assert forall a :: 0 <= a < |t| ==> t[a] == s[if a < i then a else a + 1];
    assert Antisymmetric(cmp, key, key);
    forall k | k in s && k != key ensures k in t {
      var j :| 0 <= j < |s| && s[j] == k;
      assert t[if j < i then j else j - 1] == k;
    }
    assert forall j :: 0 <= j < |s| && s[j] == key ==> j == i;
  }
}
