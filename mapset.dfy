/**
 * The map-typed set of set/set.go: a Go map used as a set. A map is a
 * reference, so the set is a class whose one field is the key set; Insert
 * and Remove report the value that made them fail.
 */
module MapSet {
  import opened Wrappers
  import opened Seqs

  /** The errors of Insert, Remove and the decoded-slice check. */
  datatype SetError<V> = AlreadyPresent(value: V) | NotPresent(value: V) | DuplicatesPresent

  /** Elements are comparable and have a zero value, as Go's `make([]V, n)` needs. */
  class Set<V(==,0)> {
    var elems: set<V>

    /** NewSet: an empty set; `size` is only a capacity hint. */
    constructor NewSet(size: nat)
      ensures elems == {}
    {
      elems := {};
    }

    function Contains(value: V): bool
      reads this
    {
      value in elems
    }

    function Count(): nat
      reads this
    {
      |elems|
    }

    /** Insert: a present value is an error and no change; otherwise exactly that value is added. */
    method Insert(value: V) returns (err: Option<SetError<V>>)
      modifies this
      ensures old(value in elems) ==> err == Some(AlreadyPresent(value)) && elems == old(elems)
      ensures old(value !in elems) ==> err == None && elems == old(elems) + {value}
    {
      if Contains(value) {
        return Some(AlreadyPresent(value));
      }
      elems := elems + {value};
      return None;
    }

    /** Remove: an absent value is an error and no change; otherwise exactly that value is removed. */
    method Remove(value: V) returns (err: Option<SetError<V>>)
      modifies this
      ensures old(value !in elems) ==> err == Some(NotPresent(value)) && elems == old(elems)
      ensures old(value in elems) ==> err == None && elems == old(elems) - {value}
    {
      if !Contains(value) {
        return Some(NotPresent(value));
      }
      elems := elems - {value};
      return None;
    }

    /** Clear: deletes the values one by one while ranging over the map, leaving it empty. */
    method Clear()
      modifies this
      ensures elems == {}
    {
      while elems != {}
        decreases |elems|
      {
        var v :| v in elems;
        elems := elems - {v};
      }
    }

    /** Values: an array of length Count filled with each value once, in map order. */
    method Values() returns (vs: seq<V>)
      ensures Enumerates(vs, elems) && |vs| == Count()
    {
      var values := new V[|elems|];
      var i := 0;
      var rest := elems;
      while rest != {}
        invariant rest <= elems && i + |rest| == |elems|
        invariant Enumerates(values[..i], elems - rest)
        decreases |rest|
      {
        var v :| v in rest;
        EnumeratesSnoc(values[..i], elems - rest, v);
        ghost var prefix := values[..i];
        values[i] := v;
        assert values[..i + 1] == prefix + [v];
        assert elems - rest + {v} == elems - (rest - {v});
        i := i + 1;
        rest := rest - {v};
      }
      vs := values[..];
      assert vs == values[..i];
    }

    /** Equals holds iff both sets hold the same values. */
    method Equals(other: Set<V>) returns (b: bool)
      ensures b <==> elems == other.elems
    {
      if Count() != other.Count() {
        return false;
      }
      var rest := elems;
      while rest != {}
        invariant rest <= elems
        invariant elems - rest <= other.elems
        decreases |rest|
      {
        var v :| v in rest;
        if !other.Contains(v) {
          return false;
        }
        rest := rest - {v};
      }
      SubsetCard(elems, other.elems);
      return true;
    }

    /** Inserts every value of `items`, ignoring the errors for values already present. */
    method InsertMembers(items: set<V>)
      modifies this
      ensures elems == old(elems) + items
    {
      var rest := items;
      while rest != {}
        invariant rest <= items
        invariant elems == old(elems) + (items - rest)
        decreases |rest|
      {
        var v :| v in rest;
        var _ := Insert(v);
        rest := rest - {v};
      }
    }

    /** Union: a new set of the values in either set; neither set changes. */
    method Union(other: Set<V>) returns (union: Set<V>)
      ensures fresh(union) && union.elems == elems + other.elems
    {
      union := new Set.NewSet(Count() + other.Count());
      union.InsertMembers(elems);
      union.InsertMembers(other.elems);
    }

    /** Intersection: a new set of the values in both sets; neither set changes. */
    method Intersection(other: Set<V>) returns (intersection: Set<V>)
      ensures fresh(intersection) && intersection.elems == elems * other.elems
    {
      intersection := new Set.NewSet(Count());
      var rest := elems;
      while rest != {}
        invariant rest <= elems
        invariant intersection.elems == (elems - rest) * other.elems
        decreases |rest|
      {
        var v :| v in rest;
        if other.Contains(v) {
          var _ := intersection.Insert(v);
        }
        rest := rest - {v};
      }
    }

    /** Difference: a new set of the values in this set but not in the other; neither set changes. */
    method Difference(other: Set<V>) returns (difference: Set<V>)
      ensures fresh(difference) && difference.elems == elems - other.elems
    {
      difference := new Set.NewSet(Count());
      var rest := elems;
      while rest != {}
        invariant rest <= elems
        invariant difference.elems == (elems - rest) - other.elems
        decreases |rest|
      {
        var v :| v in rest;
        if !other.Contains(v) {
          var _ := difference.Insert(v);
        }
        rest := rest - {v};
      }
    }

    /** SymmetricDifference: the union less the intersection, which is the values in exactly one set. */
    method SymmetricDifference(other: Set<V>) returns (r: Set<V>)
      ensures fresh(r)
      ensures r.elems == (elems + other.elems) - (elems * other.elems)
      ensures r.elems == (elems - other.elems) + (other.elems - elems)
    {
      var union := Union(other);
      var intersection := Intersection(other);
      r := union.Difference(intersection);
    }

    /** SubsetOf holds iff every value of this set is in the other. */
    method SubsetOf(other: Set<V>) returns (b: bool)
      ensures b <==> elems <= other.elems
    {
      if Count() > other.Count() {
        if elems <= other.elems {
          SubsetCard(elems, other.elems);
        }
        return false;
      }
      var rest := elems;
      while rest != {}
        invariant rest <= elems
        invariant elems - rest <= other.elems
        decreases |rest|
      {
        var v :| v in rest;
        if !other.Contains(v) {
          return false;
        }
        rest := rest - {v};
      }
      return true;
    }

    /** SupersetOf(o) is o.SubsetOf(this). */
    method SupersetOf(other: Set<V>) returns (b: bool)
      ensures b <==> other.elems <= elems
    {
      b := other.SubsetOf(this);
    }

    /**
     * The step of UnmarshalJSON after decoding: the set becomes
     * NewSetFromSlice(decoded), and the result is an error exactly when the
     * count differs from the slice length, which is when the slice held
     * duplicates.
     */
    method UnmarshalJSON(decoded: seq<V>) returns (err: Option<SetError<V>>)
      modifies this
      ensures elems == Elems(decoded)
      ensures err.Some? <==> !Distinct(decoded)
      ensures err.Some? ==> err.value == DuplicatesPresent
    {
      var s := NewSetFromSlice(decoded);
      elems := s.elems;
      DistinctIffCard(decoded);
      if Count() != |decoded| {
        return Some(DuplicatesPresent);
      }
      return None;
    }
  }

  /** NewSetFromSlice: a set of the slice's values with duplicates dropped. */
  method NewSetFromSlice<V(==,0)>(slice: seq<V>) returns (s: Set<V>)
    ensures fresh(s) && s.elems == Elems(slice) && |s.elems| <= |slice|
    ensures |s.elems| == |slice| <==> Distinct(slice)
  {
    s := new Set.NewSet(|slice|);
    for i := 0 to |slice|
      invariant s.elems == Elems(slice[..i])
    {
      assert slice[..i + 1] == slice[..i] + [slice[i]];
      ElemsSnoc(slice[..i], slice[i]);
      var _ := s.Insert(slice[i]);
    }
    assert slice[..|slice|] == slice;
    DistinctIffCard(slice);
  }
}
