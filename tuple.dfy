/**
 * The immutable tuple of collection/tuple: a fixed sequence of elements
 * that no operation writes after construction, so it is a datatype and its
 * operations are functions.
 */
module Tuples {
  import opened Wrappers
  import opened Seqs

  /** The errors of the tuple: an index out of bounds, or a value not found. */
  datatype TupleError<V> = OutOfBounds(index: int) | NotFound(value: V)

  datatype Tuple<V(==)> = Tuple(elements: seq<V>)
  {
    /** The element search from index `from` on: the first index holding v, or |elements|. */
    function Find(v: V, from: nat): (i: nat)
      requires from <= |elements|
      ensures from <= i <= |elements|
      ensures i < |elements| ==> elements[i] == v
      ensures forall j :: from <= j < i ==> elements[j] != v
      decreases |elements| - from
    {
      if from == |elements| then from
      else if elements[from] == v then from
      else Find(v, from + 1)
    }

    /** Contains holds iff some element equals v. */
    function Contains(v: V): (b: bool)
      ensures b <==> v in elements
    {
      Find(v, 0) < |elements|
    }

    function Count(): nat
    {
      |elements|
    }

    /** IsEmpty holds iff Count() is 0, which is when there are no elements. */
    function IsEmpty(): (b: bool)
      ensures b <==> Count() == 0
      ensures b <==> elements == []
    {
      Count() == 0
    }

    /** IndexOf: the first index holding v, or -1 and an error when there is none. */
    function IndexOf(v: V): (r: (int, Option<TupleError<V>>))
      ensures v in elements ==> 0 <= r.0 < |elements| && elements[r.0] == v && v !in elements[..r.0] && r.1.None?
      ensures v !in elements ==> r == (-1, Some(NotFound(v)))
    {
      var i := Find(v, 0);
      if i < |elements| then (i as int, None) else (-1, Some(NotFound(v)))
    }

    /** checkBounds: no error exactly for the indices 0 .. Count()-1. */
    function CheckBounds(i: int): (err: Option<TupleError<V>>)
      ensures err.None? <==> 0 <= i < Count()
      ensures err.Some? ==> err.value == OutOfBounds(i)
    {
      if i < 0 || i >= Count() then Some(OutOfBounds(i)) else None
    }

    /** Get: element i in bounds; otherwise the zero value and an error. */
    function Get(i: int, zero: V): (r: (V, Option<TupleError<V>>))
      ensures 0 <= i < |elements| ==> r == (elements[i], None)
      ensures !(0 <= i < |elements|) ==> r == (zero, Some(OutOfBounds(i)))
    {
      var err := CheckBounds(i);
      if err.Some? then (zero, err) else (elements[i], None)
    }
  }

  /** NewTuple: a tuple of the given values in the given order. */
  function NewTuple<V(==)>(values: seq<V>): (t: Tuple<V>)
    ensures t.Count() == |values|
    ensures forall i :: 0 <= i < |values| ==> t.CheckBounds(i).None? && t.Get(i, values[i]) == (values[i], None)
  {
    Tuple(values)
  }

  /** IndexOf finds the first occurrence, and finds one exactly when Contains holds. */
  lemma IndexOfIsFirst<V>(t: Tuple<V>, v: V)
    ensures t.Contains(v) <==> t.IndexOf(v).1.None?
    ensures t.Contains(v) ==> t.IndexOf(v).0 == FirstIndex(t.elements, v)
    ensures !t.Contains(v) ==> t.IndexOf(v).0 == -1
  {
  }

  /** Get succeeds on exactly the indices IndexOf can return. */
  lemma GetIndexOf<V>(t: Tuple<V>, v: V, zero: V)
    requires t.Contains(v)
    ensures t.Get(t.IndexOf(v).0, zero) == (v, None)
  {
  }
}
