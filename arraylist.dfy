/**
 * The array list of collection/list/arraylist: a slice of elements edited
 * through bounds-checked indexed operations. An out-of-bounds index is an
 * error that leaves the list unchanged.
 */
module ArrayList {
  import opened Wrappers
  import opened Seqs

  /** The errors of the list: an index out of bounds, or a value not found. */
  datatype ListError<V> = OutOfBounds(index: int) | NotFound(value: V)

  class List<V(==)> {
    var elements: seq<V>

    /** New: an empty list. */
    constructor New()
      ensures elements == []
    {
      elements := [];
    }

    /** NewFromSlice: a list over the given elements. */
    constructor NewFromSlice(l: seq<V>)
      ensures elements == l
    {
      elements := l;
    }

    /** checkBounds: no error exactly for the indices 0 .. Count()-1. */
    function CheckBounds(i: int): (err: Option<ListError<V>>)
      reads this
      ensures err.None? <==> 0 <= i < |elements|
      ensures err.Some? ==> err.value == OutOfBounds(i)
    {
      if i < 0 || i >= |elements| then Some(OutOfBounds(i)) else None
    }

    function Count(): nat
      reads this
    {
      |elements|
    }

    /** IsEmpty holds exactly when there are no elements. */
    function IsEmpty(): (b: bool)
      reads this
      ensures b <==> elements == []
    {
      Count() == 0
    }

    /** Add appends at the end; the earlier elements stay as they were. */
    method Add(v: V)
      modifies this
      ensures elements == old(elements) + [v]
      ensures Count() == old(Count()) + 1 && elements[..old(Count())] == old(elements)
    {
      elements := elements + [v];
    }

    /** Contains holds iff some element equals v. */
    method Contains(v: V) returns (b: bool)
      ensures b <==> v in elements
    {
      for i := 0 to |elements|
        invariant v !in elements[..i]
      {
        assert elements[..i + 1] == elements[..i] + [elements[i]];
        if elements[i] == v {
          return true;
        }
      }
      assert elements[..|elements|] == elements;
      return false;
    }

    /** IndexOf: the first index holding v, or -1 and an error when there is none. */
    method IndexOf(v: V) returns (i: int, err: Option<ListError<V>>)
      ensures v in elements ==> 0 <= i < |elements| && elements[i] == v && v !in elements[..i] && err.None?
      ensures v !in elements ==> i == -1 && err == Some(NotFound(v))
    {
      for j := 0 to |elements|
        invariant v !in elements[..j]
      {
        assert elements[..j + 1] == elements[..j] + [elements[j]];
        if elements[j] == v {
          return j, None;
        }
      }
      assert elements[..|elements|] == elements;
      return -1, Some(NotFound(v));
    }

    /** Remove deletes the first occurrence of v only; an absent v changes nothing. */
    method Remove(v: V)
      modifies this
      ensures v !in old(elements) ==> elements == old(elements)
      ensures v in old(elements) ==>
        elements == RemoveIndex(old(elements), FirstIndex(old(elements), v))
      ensures v in old(elements) ==> multiset(elements) == multiset(old(elements)) - multiset{v}
    {
      var i, err := IndexOf(v);
      if err.Some? {
        return;
      }
      RemoveIndexMultiset(elements, i);
      elements := elements[..i] + elements[i + 1..];
    }

    /**
     * InsertAt: for 0 <= i < Count() puts v at i and shifts the rest right;
     * i == Count() appends; any other i is an error and no change.
     */
    method InsertAt(i: int, v: V) returns (err: Option<ListError<V>>)
      modifies this
      ensures 0 <= i <= old(|elements|) ==> err.None? && elements == InsertIndex(old(elements), i, v)
      ensures !(0 <= i <= old(|elements|)) ==> err == Some(OutOfBounds(i)) && elements == old(elements)
    {
      var bounds := CheckBounds(i);
      if bounds.Some? {
        if i == |elements| {
          Add(v);
          return None;
        }
        return bounds;
      }
      elements := elements[..i] + ([v] + elements[i..]);
      return None;
    }

    /** RemoveAt: in bounds deletes index i keeping the others' order; otherwise an error and no change. */
    method RemoveAt(i: int) returns (err: Option<ListError<V>>)
      modifies this
      ensures 0 <= i < old(|elements|) ==> err.None? && elements == RemoveIndex(old(elements), i)
      ensures !(0 <= i < old(|elements|)) ==> err == Some(OutOfBounds(i)) && elements == old(elements)
    {
      var bounds := CheckBounds(i);
      if bounds.Some? {
        return bounds;
      }
      elements := elements[..i] + elements[i + 1..];
      return None;
    }

    /** Get: element i in bounds; otherwise the zero value and an error. */
    function Get(i: int, zero: V): (r: (V, Option<ListError<V>>))
      reads this
      ensures CheckBounds(i).None? ==> r == (elements[i], None)
      ensures CheckBounds(i).Some? ==> r == (zero, CheckBounds(i))
      ensures r.1.None? <==> 0 <= i < |elements|
    {
      var bounds := CheckBounds(i);
      if bounds.Some? then (zero, bounds) else (elements[i], None)
    }

    /** Set: in bounds replaces index i only; otherwise an error and no change. */
    method Set(i: int, v: V) returns (err: Option<ListError<V>>)
      modifies this
      ensures 0 <= i < old(|elements|) ==> err.None? && elements == old(elements)[i := v]
      ensures 0 <= i < old(|elements|) ==> forall zero :: Get(i, zero) == (v, None)
      ensures !(0 <= i < old(|elements|)) ==> err == Some(OutOfBounds(i)) && elements == old(elements)
    {
      var bounds := CheckBounds(i);
      if bounds.Some? {
        return bounds;
      }
      elements := elements[i := v];
      return None;
    }

    /** Clear: no elements remain, so Count() is 0. */
    method Clear()
      modifies this
      ensures elements == [] && Count() == 0
    {
      elements := [];
    }
  }

  /** An InsertAt followed by a RemoveAt at the same in-bounds index restores the list's elements. */
  lemma InsertAtRemoveAt<V>(elements: seq<V>, i: nat, v: V)
    requires i <= |elements|
    ensures RemoveIndex(InsertIndex(elements, i, v), i) == elements
    ensures multiset(InsertIndex(elements, i, v)) == multiset(elements) + multiset{v}
  {
    RemoveInsert(elements, i, v);
    RemoveIndexMultiset(InsertIndex(elements, i, v), i);
  }
}
