/**
 * The sequence capability: an enumerable wraps a slice of values, and an
 * enumerator is a cursor over that slice with a position (-1 before the
 * first element) and a current value (Go's zero value before the first
 * advance and after exhaustion). Dafny has no expression for the zero value
 * of a type parameter, so the cursor is given it explicitly.
 */
module Enumerator {
  import opened Seqs

  /** An enumerable over a slice; `Values` returns the slice itself. */
  datatype Enumerable<V> = Enumerable(elements: seq<V>) {

    /** The values are the wrapped slice itself, the same one a cursor from GetEnumerator walks. */
    function Values(): (r: seq<V>)
      ensures r == elements
    {
      elements
    }

    /** A fresh cursor over the elements, before the first element. */
    method GetEnumerator(zero: V) returns (en: Enumerator<V>)
      ensures fresh(en) && en.Valid()
      ensures en.elements == elements && en.zero == zero
      ensures en.position == -1 && en.current == zero
    {
      en := new Enumerator(elements, zero);
    }
  }

  class Enumerator<V> {
    const elements: seq<V>
    /** Go's zero value of V. */
    const zero: V
    var position: int
    var current: V

    /** The cursor stays within [-1, |elements|); current is the last value yielded or zero. */
    ghost predicate Valid()
      reads this
    {
      && -1 <= position < |elements|
      && (position == -1 ==> current == zero)
      && (position >= 0 ==> current == elements[position] || current == zero)
    }

    constructor (elements: seq<V>, zero: V)
      ensures Valid()
      ensures this.elements == elements && this.zero == zero
      ensures position == -1 && current == zero
    {
      this.elements := elements;
      this.zero := zero;
      position := -1;
      current := zero;
    }

    /** The current value: the zero value until the first successful Next. */
    function Current(): (c: V)
      reads this
      ensures c == current
      ensures Valid() && position == -1 ==> c == zero
    {
      current
    }

    /** Advance: true and the next element when there is one; otherwise false, current reset to zero. */
    method Next() returns (ok: bool)
      requires Valid()
      modifies this
      ensures Valid()
      ensures ok <==> old(position) + 1 < |elements|
      ensures ok ==> position == old(position) + 1 && current == elements[position]
      ensures !ok ==> position == old(position) && current == zero
    {
      if position + 1 >= |elements| {
        current := zero;
        return false;
      }
      position := position + 1;
      current := elements[position];
      return true;
    }

    /** Back to the state of a fresh cursor. */
    method Reset()
      requires Valid()
      modifies this
      ensures Valid()
      ensures position == -1 && current == zero
    {
      position := -1;
      current := zero;
    }
  }

  /**
   * Drive a fresh cursor with `Next` until it returns false, collecting
   * `Current` after every true: this yields the elements in order, with
   * exactly |elements| true answers, and leaves the cursor exhausted.
   */
  method Traverse<V>(en: Enumerator<V>) returns (yielded: seq<V>, trues: nat)
    requires en.Valid() && en.position == -1
    modifies en
    ensures en.Valid()
    ensures yielded == en.elements && trues == |en.elements|
    ensures en.position == |en.elements| - 1 && en.current == en.zero
  {
    yielded, trues := [], 0;
    var more := en.Next();
    while more
      invariant en.Valid()
      invariant trues == |yielded| <= |en.elements|
      invariant yielded == en.elements[..trues]
      invariant more ==> trues < |en.elements| && en.position == trues && en.current == en.elements[trues]
      invariant !more ==> trues == |en.elements| && en.position == |en.elements| - 1 && en.current == en.zero
      decreases |en.elements| - trues
    {
      yielded := yielded + [en.Current()];
      trues := trues + 1;
      more := en.Next();
    }
  }

  /** After `Reset`, a second traversal yields the same sequence as the first. */
  method TraverseTwice<V>(en: Enumerator<V>) returns (first: seq<V>, second: seq<V>)
    requires en.Valid()
    modifies en
    ensures en.Valid()
    ensures first == second == en.elements
    ensures en.position == |en.elements| - 1 && en.current == en.zero
  {
    en.Reset();
    var n;
    first, n := Traverse(en);
    en.Reset();
    second, n := Traverse(en);
  }

  /** An enumerable over a slice exposes that slice unchanged. */
  function GetSliceEnumerable<V>(elements: seq<V>): (e: Enumerable<V>)
    ensures e.Values() == elements
  {
    Enumerable(elements)
  }

  /** The values of `m` read along the key order `ks`. */
  ghost function ValuesAlong<K, V>(m: map<K, V>, ks: seq<K>): seq<V>
    requires Elems(ks) <= m.Keys
  {
    seq(|ks|, i requires 0 <= i < |ks| => assert ks[i] in Elems(ks); m[ks[i]])
  }

  /** The key/value pairs of `m` along the key order `ks`. */
  ghost function PairsAlong<K, V>(m: map<K, V>, ks: seq<K>): seq<(K, V)>
    requires Elems(ks) <= m.Keys
  {
    seq(|ks|, i requires 0 <= i < |ks| => assert ks[i] in Elems(ks); (ks[i], m[ks[i]]))
  }

  /**
   * The map's keys, each exactly once, in Go's unspecified iteration order
   * (modelled by an arbitrary choice of the next key).
   */
  method GetMapKeyEnumerable<K, V>(elements: map<K, V>) returns (e: Enumerable<K>)
    ensures Enumerates(e.Values(), elements.Keys)
    ensures |e.Values()| == |elements|
  {
    var keys: seq<K> := [];
    var rest := elements.Keys;
    while rest != {}
      invariant rest <= elements.Keys
      invariant Enumerates(keys, elements.Keys - rest)
      decreases rest
    {
      var key :| key in rest;
      EnumeratesSnoc(keys, elements.Keys - rest, key);
      keys := keys + [key];
      assert (elements.Keys - rest) + {key} == elements.Keys - (rest - {key});
      rest := rest - {key};
    }
    EnumeratesCard(keys, elements.Keys);
    e := Enumerable(keys);
  }

  /** The map's values, one per key, along some duplicate-free order of all keys. */
  method GetMapValueEnumerable<K, V>(elements: map<K, V>) returns (e: Enumerable<V>)
    ensures exists ks :: Enumerates(ks, elements.Keys) && e.Values() == ValuesAlong(elements, ks)
  {
    var values: seq<V> := [];
    ghost var keys: seq<K> := [];
    var rest := elements.Keys;
    while rest != {}
      invariant rest <= elements.Keys
      invariant Enumerates(keys, elements.Keys - rest)
      invariant values == ValuesAlong(elements, keys)
      decreases rest
    {
      var key :| key in rest;
      EnumeratesSnoc(keys, elements.Keys - rest, key);
      keys := keys + [key];
      values := values + [elements[key]];
      assert (elements.Keys - rest) + {key} == elements.Keys - (rest - {key});
      rest := rest - {key};
    }
    e := Enumerable(values);
    assert Enumerates(keys, elements.Keys) && e.Values() == ValuesAlong(elements, keys);
  }

  /** The map's key/value pairs, one per key, along some duplicate-free order of all keys. */
  method GetMapEnumerable<K, V>(elements: map<K, V>) returns (e: Enumerable<(K, V)>)
    ensures exists ks :: Enumerates(ks, elements.Keys) && e.Values() == PairsAlong(elements, ks)
  {
    var pairs: seq<(K, V)> := [];
    ghost var keys: seq<K> := [];
    var rest := elements.Keys;
    while rest != {}
      invariant rest <= elements.Keys
      invariant Enumerates(keys, elements.Keys - rest)
      invariant pairs == PairsAlong(elements, keys)
      decreases rest
    {
      var key :| key in rest;
      EnumeratesSnoc(keys, elements.Keys - rest, key);
      keys := keys + [key];
      pairs := pairs + [(key, elements[key])];
      assert (elements.Keys - rest) + {key} == elements.Keys - (rest - {key});
      rest := rest - {key};
    }
    e := Enumerable(pairs);
    assert Enumerates(keys, elements.Keys) && e.Values() == PairsAlong(elements, keys);
  }
}
