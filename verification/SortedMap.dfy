/** The sorted map of `internal/aghalg/sortedmap.go`: a map of values and a slice
    of its keys that binary search keeps sorted. */
module SortedMaps {
  import opened Wrappers
  import opened Collections

  /** cmp is negative, zero or positive as a total order says. */
  ghost predicate IsOrder<K(!new)>(cmp: (K, K) -> int) {
    && (forall a, b :: cmp(a, b) == 0 <==> a == b)
    && (forall a, b :: cmp(a, b) < 0 <==> cmp(b, a) > 0)
    && (forall a, b, c :: cmp(a, b) < 0 && cmp(b, c) < 0 ==> cmp(a, c) < 0)
  }

  ghost predicate Sorted<K(!new)>(cmp: (K, K) -> int, keys: seq<K>) {
    forall i, j :: 0 <= i < j < |keys| ==> cmp(keys[i], keys[j]) < 0
  }

  /** The index of the first key that is not less than key. */
  ghost predicate IsPosition<K(!new)>(cmp: (K, K) -> int, keys: seq<K>, key: K, i: nat) {
    && i <= |keys|
    && (forall j :: 0 <= j < i ==> cmp(keys[j], key) < 0)
    && (forall j :: i <= j < |keys| ==> cmp(keys[j], key) >= 0)
  }

  /** slices.BinarySearchFunc. */
  method BinarySearch<K(!new)>(cmp: (K, K) -> int, keys: seq<K>, key: K) returns (i: nat, found: bool)
    requires IsOrder(cmp) && Sorted(cmp, keys)
    ensures IsPosition(cmp, keys, key, i)
    ensures found <==> key in keys
    ensures found ==> i < |keys| && keys[i] == key
  {
    var lo, hi := 0, |keys|;
    while lo < hi
      invariant lo <= hi <= |keys|
      invariant forall j :: 0 <= j < lo ==> cmp(keys[j], key) < 0
      invariant forall j :: hi <= j < |keys| ==> cmp(keys[j], key) >= 0
    {
      var h := (lo + hi) / 2;
      if cmp(keys[h], key) < 0 {
        lo := h + 1;
      } else {
        hi := h;
      }
    }
    i := lo;
    found := i < |keys| && cmp(keys[i], key) == 0;
  }

  lemma InsertKeepsSorted<K(!new)>(cmp: (K, K) -> int, keys: seq<K>, key: K, i: nat)
    requires IsOrder(cmp) && Sorted(cmp, keys) && key !in keys && IsPosition(cmp, keys, key, i)
    ensures Sorted(cmp, keys[..i] + [key] + keys[i..])
    ensures Elems(keys[..i] + [key] + keys[i..]) == Elems(keys) + {key}
  {
    var after := keys[..i] + [key] + keys[i..];
    assert keys == keys[..i] + keys[i..];
    forall a, b | 0 <= a < b < |after|
      ensures cmp(after[a], after[b]) < 0
    {
      if b == i {
        assert cmp(keys[a], key) < 0;
      } else if a == i {
        assert keys[b - 1] in keys && cmp(keys[b - 1], key) > 0;
      }
    }
  }

  lemma DeleteKeepsSorted<K(!new)>(cmp: (K, K) -> int, keys: seq<K>, i: nat)
    requires IsOrder(cmp) && Sorted(cmp, keys) && i < |keys|
    ensures Sorted(cmp, keys[..i] + keys[i + 1..])
    ensures Elems(keys[..i] + keys[i + 1..]) == Elems(keys) - {keys[i]}
  {}

  lemma SortedDistinct<K(!new)>(cmp: (K, K) -> int, keys: seq<K>, i: nat, j: nat)
    requires IsOrder(cmp) && Sorted(cmp, keys) && i < j < |keys|
    ensures keys[i] != keys[j]
  {}

  lemma FirstNotLater<K(!new)>(cmp: (K, K) -> int, xs: seq<K>)
    requires IsOrder(cmp) && Sorted(cmp, xs) && xs != []
    ensures Sorted(cmp, xs[1..]) && Elems(xs[1..]) == Elems(xs) - {xs[0]}
  {}

  lemma EmptyElems<K>(xs: seq<K>)
    ensures Elems(xs) == {} <==> xs == []
  {
    if xs != [] {
      assert xs[0] in Elems(xs);
    }
  }

  /** Sorted lists with the same keys are the same list. */
  lemma {:induction false} SortedUnique<K(!new)>(cmp: (K, K) -> int, xs: seq<K>, ys: seq<K>)
    requires IsOrder(cmp) && Sorted(cmp, xs) && Sorted(cmp, ys) && Elems(xs) == Elems(ys)
    ensures xs == ys
  {
    EmptyElems(xs);
    EmptyElems(ys);
    if xs != [] {
      SameFirst(cmp, xs, ys);
      FirstNotLater(cmp, xs);
      FirstNotLater(cmp, ys);
      SortedUnique(cmp, xs[1..], ys[1..]);
      assert xs == [xs[0]] + xs[1..] && ys == [ys[0]] + ys[1..];
    }
  }

  lemma SameFirst<K(!new)>(cmp: (K, K) -> int, xs: seq<K>, ys: seq<K>)
    requires IsOrder(cmp) && Sorted(cmp, xs) && Sorted(cmp, ys) && Elems(xs) == Elems(ys) && xs != [] && ys != []
    ensures xs[0] == ys[0]
  {
    assert xs[0] in Elems(xs) && ys[0] in Elems(ys);
  }

  lemma {:induction false} KeysCounted<K(!new)>(cmp: (K, K) -> int, keys: seq<K>)
    requires IsOrder(cmp) && Sorted(cmp, keys)
    ensures |keys| == |Elems(keys)|
  {
    if keys != [] {
      FirstNotLater(cmp, keys);
      assert keys[0] in Elems(keys);
      KeysCounted(cmp, keys[1..]);
    }
  }

  class SortedMap<K(==, !new), V> {
    var vals: map<K, V>
    var keys: seq<K>
    const cmp: (K, K) -> int

    /** The keys are strictly sorted and are exactly the keys of the map. */
    ghost predicate Valid()
      reads this
    {
      && IsOrder(cmp)
      && Sorted(cmp, keys)
      && Elems(keys) == vals.Keys
    }

    constructor (cmp: (K, K) -> int)
      requires IsOrder(cmp)
      ensures Valid() && this.cmp == cmp && vals == map[]
    {
      this.cmp := cmp;
      vals, keys := map[], [];
    }

    method Set(key: K, val: V)
      requires Valid()
      modifies this
      ensures Valid() && vals == old(vals)[key := val]
    {
      var i, has := BinarySearch(cmp, keys, key);
      if has {
        assert keys[i := key] == keys;
        assert vals[key := val].Keys == vals.Keys;
        keys := keys[i := key];
      } else {
        InsertKeepsSorted(cmp, keys, key, i);
        keys := keys[..i] + [key] + keys[i..];
      }
      vals := vals[key := val];
    }

    method Get(key: K) returns (val: Option<V>)
      ensures val.Some? <==> key in vals
      ensures val.Some? ==> val.value == vals[key]
    {
      val := if key in vals then Some(vals[key]) else None;
    }

    method Del(key: K)
      requires Valid()
      modifies this
      ensures Valid() && vals == old(vals) - {key}
    {
      if key !in vals {
        assert vals - {key} == vals;
        return;
      }
      assert key in Elems(keys);
      var i, has := BinarySearch(cmp, keys, key);
      DeleteKeepsSorted(cmp, keys, i);
      vals := vals - {key};
      keys := keys[..i] + keys[i + 1..];
    }

    method Clear()
      requires Valid()
      modifies this
      ensures Valid() && vals == map[]
    {
      keys, vals := [], map[];
    }

    /** The entries in the order of the keys. */
    function Entries(): (es: seq<(K, V)>)
      requires Elems(keys) == vals.Keys
      reads this
      ensures |es| == |keys|
      ensures forall i :: 0 <= i < |keys| ==> es[i] == (keys[i], vals[keys[i]])
    {
      assert forall i :: 0 <= i < |keys| ==> keys[i] in Elems(keys);
      seq(|keys|, i requires 0 <= i < |keys| && keys[i] in vals reads this => (keys[i], vals[keys[i]]))
    }

    /** Range: visits the entries in order up to the first for which the callback
        does not want to go on, that one included.  The visited entries are the
        first n. */
    method Range(cb: (K, V) -> bool) returns (n: nat)
      requires Valid()
      ensures n <= |Entries()|
      ensures forall i :: 0 <= i < n - 1 ==> cb(Entries()[i].0, Entries()[i].1)
      ensures n < |Entries()| ==> n > 0 && !cb(Entries()[n - 1].0, Entries()[n - 1].1)
    {
      n := 0;
      while n < |keys|
        invariant n <= |keys|
        invariant forall i :: 0 <= i < n ==> cb(Entries()[i].0, Entries()[i].1)
      {
        var k := keys[n];
        assert Entries()[n] == (k, vals[k]);
        n := n + 1;
        if !cb(k, vals[k]) {
          return;
        }
      }
    }
  }

  /** What Range enumerates depends only on the map: two sorted maps with the same
      contents enumerate the same entries, each once and in order. */
  lemma EntriesDetermined<K(!new), V>(m: SortedMap<K, V>, n: SortedMap<K, V>)
    requires m.Valid() && n.Valid() && m.cmp == n.cmp && m.vals == n.vals
    ensures m.Entries() == n.Entries()
    ensures |m.Entries()| == |m.vals|
  {
    SortedUnique(m.cmp, m.keys, n.keys);
    KeysCounted(m.cmp, m.keys);
  }
}
