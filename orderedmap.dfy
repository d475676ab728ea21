/**
 * The ordered map of orderedmap/orderedmap.go: a map plus a slice of its
 * keys in insertion order. The slice never holds a key twice and holds
 * exactly the keys of the map.
 */
module OrderedMaps {
  import opened Wrappers
  import opened Seqs

  /** The error of Get and Remove: the key was not present. */
  datatype MapError<K> = NotPresent(key: K)

  class OrderedMap<K(==), V> {
    var mapping: map<K, V>
    var keys: seq<K>

    /** The key slice lists the map's keys, each exactly once. */
    ghost predicate Valid()
      reads this
    {
      Distinct(keys) && Elems(keys) == mapping.Keys
    }

    /** NewOrderedMap: no entries and no keys; `size` is only the key slice's capacity. */
    constructor NewOrderedMap(size: nat)
      ensures Valid() && mapping == map[] && keys == [] && Count() == 0
    {
      mapping := map[];
      keys := [];
    }

    /** Keys: the key slice, which lists every key of the map once. */
    function Keys(): (r: seq<K>)
      reads this
      requires Valid()
      ensures Enumerates(r, mapping.Keys) && |r| == |mapping|
    {
      EnumeratesCard(keys, mapping.Keys);
      keys
    }

    /** Get: the stored value and no error for a present key; the zero value and an error otherwise. */
    function Get(key: K, zero: V): (r: (V, Option<MapError<K>>))
      reads this
      requires Valid()
      ensures key in mapping ==> r == (mapping[key], None)
      ensures key !in mapping ==> r == (zero, Some(NotPresent(key)))
      ensures r.1.None? <==> key in keys
    {
      if key in mapping then (mapping[key], None) else (zero, Some(NotPresent(key)))
    }

    /** Contains asks the map; under the invariant that is the same as asking the key slice. */
    function Contains(key: K): (b: bool)
      reads this
      requires Valid()
      ensures b <==> key in keys
    {
      key in mapping
    }

    /** Count is the key slice's length, which under the invariant is the number of entries. */
    function Count(): (c: nat)
      reads this
      requires Valid()
      ensures c == |mapping|
    {
      EnumeratesCard(keys, mapping.Keys);
      |keys|
    }

    /** Set: a new key is appended to the order; an existing key keeps its position. */
    method Set(key: K, value: V)
      requires Valid()
      modifies this
      ensures Valid()
      ensures mapping == old(mapping)[key := value]
      ensures key in old(mapping) ==> keys == old(keys)
      ensures key !in old(mapping) ==> keys == old(keys) + [key]
      ensures Contains(key) && forall zero :: Get(key, zero) == (value, None)
    {
      if !Contains(key) {
        EnumeratesSnoc(keys, mapping.Keys, key);
        keys := keys + [key];
      }
      mapping := mapping[key := value];
    }

    /**
     * SetAndUpdate: an existing key moves to the end, the others keeping
     * their order; a new key is appended.
     */
    method SetAndUpdate(key: K, value: V)
      requires Valid()
      modifies this
      ensures Valid()
      ensures mapping == old(mapping)[key := value]
      ensures key in old(mapping) ==> keys == RemoveIndex(old(keys), FirstIndex(old(keys), key)) + [key]
      ensures key !in old(mapping) ==> keys == old(keys) + [key]
      ensures Contains(key) && forall zero :: Get(key, zero) == (value, None)
    {
      if Contains(key) {
        var i := 0;
        while i < |keys| && keys[i] != key
          invariant 0 <= i <= |keys| && key !in keys[..i]
        {
          assert keys[..i + 1] == keys[..i] + [keys[i]];
          i := i + 1;
        }
        if i < |keys| {
          var newKeys := MoveToEnd(keys, i);
          DistinctRemoveIndex(keys, i);
          EnumeratesSnoc(RemoveIndex(keys, i), mapping.Keys - {key}, key);
          keys := newKeys;
        }
      } else {
        EnumeratesSnoc(keys, mapping.Keys, key);
        keys := keys + [key];
      }
      mapping := mapping[key := value];
    }

    /**
     * Remove: an absent key is an error and no change; a present key leaves
     * the map and the key slice, the other keys keeping their order.
     */
    method Remove(key: K) returns (err: Option<MapError<K>>)
      requires Valid()
      modifies this
      ensures Valid()
      ensures key !in old(mapping) ==>
        err == Some(NotPresent(key)) && mapping == old(mapping) && keys == old(keys)
      ensures key in old(mapping) ==>
        err.None? && mapping == old(mapping) - {key} &&
        keys == RemoveIndex(old(keys), FirstIndex(old(keys), key))
    {
      if !Contains(key) {
        return Some(NotPresent(key));
      }
      mapping := mapping - {key};
      var i := 0;
      while i < |keys| && keys[i] != key
        invariant 0 <= i <= |keys| && key !in keys[..i]
      {
        assert keys[..i + 1] == keys[..i] + [keys[i]];
        i := i + 1;
      }
      if i < |keys| {
        DistinctRemoveIndex(keys, i);
        keys := keys[..i] + keys[i + 1..];
      }
      return None;
    }
  }

  /**
   * The key rebuild of SetAndUpdate: a new slice of the same length whose
   * first l-1 entries are the keys without index i, read with a second
   * index k that skips i, and whose last entry is the key at i.
   */
  method MoveToEnd<K>(keys: seq<K>, i: nat) returns (newKeys: seq<K>)
    requires i < |keys|
    ensures newKeys == RemoveIndex(keys, i) + [keys[i]]
    ensures |newKeys| == |keys| && multiset(newKeys) == multiset(keys)
  {
    var l := |keys|;
    var key := keys[i];
    var arr := new K[l](_ => key);
    var j, k := 0, 0;
    while j < l - 1
      invariant 0 <= j <= l - 1
      invariant k == if j <= i then j else j + 1
      invariant forall m :: 0 <= m < j ==> arr[m] == RemoveIndex(keys, i)[m]
    {
      if j == i {
        k := k + 1;
      }
      arr[j] := keys[k];
      j, k := j + 1, k + 1;
    }
    arr[l - 1] := key;
    newKeys := arr[..];
    assert newKeys == RemoveIndex(keys, i) + [key];
    RemoveIndexMultiset(keys, i);
  }
}
