/**
 * The hash set of collection/set/hashset: a set of values, a version
 * counter bumped by every change, and a cached slice of the values that a
 * change clears. The values slice comes from map iteration, whose order Go
 * leaves unspecified, so it is specified only as listing every element
 * exactly once.
 */
module HashSet {
  import opened Wrappers
  import opened Seqs

  class Set<V(==)> {
    /** The underlying map's key set. */
    var contents: set<V>
    /** The cached values slice; None is Go's nil slice. */
    var values: Option<seq<V>>
    var version: int

    /** A cached slice, when present, lists the contents exactly once each. */
    ghost predicate Valid()
      reads this
    {
      values.Some? ==> Enumerates(values.value, contents)
    }

    /** New: an empty set at version 0 with no cache; `size` is only a capacity hint. */
    constructor New(size: nat)
      ensures Valid() && contents == {} && values == None && version == 0
    {
      contents := {};
      values := None;
      version := 0;
    }

    /** Contains agrees with the cached slice whenever there is one. */
    function Contains(value: V): (b: bool)
      reads this
      requires Valid()
      ensures values.Some? ==> (b <==> value in values.value)
    {
      value in contents
    }

    /** Count is the number of values, which is the cached slice's length when cached. */
    function Count(): (c: nat)
      reads this
      requires Valid()
      ensures values.Some? ==> c == |values.value|
    {
      if values.Some? then EnumeratesCard(values.value, contents); |contents| else |contents|
    }

    /** IsEmpty holds exactly when there are no values. */
    function IsEmpty(): (b: bool)
      reads this
      requires Valid()
      ensures b <==> contents == {}
      ensures values.Some? ==> (b <==> values.value == [])
    {
      Count() == 0
    }

    /** Add: a present value changes nothing; a new one is inserted, bumps the version and drops the cache. */
    method Add(value: V)
      requires Valid()
      modifies this
      ensures Valid()
      ensures old(value in contents) ==>
        contents == old(contents) && values == old(values) && version == old(version)
      ensures old(value !in contents) ==>
        contents == old(contents) + {value} && values == None && version == old(version) + 1
    {
      if Contains(value) {
        return;
      }
      contents := contents + {value};
      version := version + 1;
      values := None;
    }

    /** Remove: an absent value changes nothing; a present one is deleted, bumps the version and drops the cache. */
    method Remove(value: V)
      requires Valid()
      modifies this
      ensures Valid()
      ensures old(value !in contents) ==>
        contents == old(contents) && values == old(values) && version == old(version)
      ensures old(value in contents) ==>
        contents == old(contents) - {value} && values == None && version == old(version) + 1
    {
      if !Contains(value) {
        return;
      }
      contents := contents - {value};
      version := version + 1;
      values := None;
    }

    /** Clear: no values left, the version always goes up and the cache is dropped. */
    method Clear()
      modifies this
      ensures Valid() && contents == {} && values == None && version == old(version) + 1
    {
      contents := {};
      version := version + 1;
      values := None;
    }

    /**
     * Values: the cached slice when there is one; otherwise a slice built
     * from the contents, each value once, which becomes the cache.
     */
    method Values() returns (vs: seq<V>)
      requires Valid()
      modifies this`values
      ensures Valid()
      ensures Enumerates(vs, contents) && |vs| == |contents|
      ensures old(values).Some? ==> vs == old(values).value && values == old(values)
      ensures old(values).None? ==> values == Some(vs)
    {
      if values.Some? {
        vs := values.value;
        EnumeratesCard(vs, contents);
        return;
      }
      vs := [];
      var rest := contents;
      while rest != {}
        invariant rest <= contents
        invariant Enumerates(vs, contents - rest)
        decreases |rest|
      {
        var v :| v in rest;
        EnumeratesSnoc(vs, contents - rest, v);
        assert contents - rest + {v} == contents - (rest - {v});
        vs := vs + [v];
        rest := rest - {v};
      }
      EnumeratesCard(vs, contents);
      values := Some(vs);
    }

    /** Equals holds iff both sets hold the same values. */
    method Equals(other: Set<V>) returns (b: bool)
      requires Valid() && other.Valid()
      ensures b <==> contents == other.contents
    {
      if Count() != other.Count() {
        return false;
      }
      var rest := contents;
      while rest != {}
        invariant rest <= contents
        invariant contents - rest <= other.contents
        decreases |rest|
      {
        var v :| v in rest;
        if !other.Contains(v) {
          return false;
        }
        rest := rest - {v};
      }
      SubsetCard(contents, other.contents);
      return true;
    }

    /**
     * Union: a new set of the values in either set. It reads the other set
     * through its Values, so the other set ends with a cache (its old one if
     * it had one); neither set's values change. The new set counts one
     * version per value, as it is built by Add alone.
     */
    method Union(other: Set<V>) returns (u: Set<V>)
      requires Valid() && other.Valid()
      modifies other`values
      ensures fresh(u) && u.Valid() && u.values == None
      ensures u.contents == old(contents) + old(other.contents) && u.version == |u.contents|
      ensures Valid() && other.Valid()
      ensures contents == old(contents) && other.contents == old(other.contents)
      ensures other.values.Some? && (old(other.values).Some? ==> other.values == old(other.values))
    {
      u := new Set.New(Count() + other.Count());
      u.AddMembers(contents);
      var vs := other.Values();
      u.AddSlice(vs);
    }

    /** Adds every value of `items`, in map order; each value not yet present adds one version. */
    method AddMembers(items: set<V>)
      requires Valid() && values == None
      modifies this
      ensures Valid() && values == None
      ensures contents == old(contents) + items
      ensures version == old(version) + |contents| - old(|contents|)
    {
      var rest := items;
      while rest != {}
        invariant rest <= items
        invariant Valid() && values == None
        invariant contents == old(contents) + (items - rest)
        invariant version == old(version) + |contents| - old(|contents|)
        decreases |rest|
      {
        var v :| v in rest;
        Add(v);
        rest := rest - {v};
      }
    }

    /** Adds the values of a slice in order; each value not yet present adds one version. */
    method AddSlice(vs: seq<V>)
      requires Valid() && values == None
      modifies this
      ensures Valid() && values == None
      ensures contents == old(contents) + Elems(vs)
      ensures version == old(version) + |contents| - old(|contents|)
    {
      for i := 0 to |vs|
        invariant Valid() && values == None
        invariant contents == old(contents) + Elems(vs[..i])
        invariant version == old(version) + |contents| - old(|contents|)
      {
        assert vs[..i + 1] == vs[..i] + [vs[i]];
        ElemsSnoc(vs[..i], vs[i]);
        Add(vs[i]);
      }
      assert vs[..|vs|] == vs;
    }

    /** Intersection: a new set of the values in both sets; neither set changes. */
    method Intersection(other: Set<V>) returns (r: Set<V>)
      requires Valid() && other.Valid()
      ensures fresh(r) && r.Valid() && r.values == None
      ensures r.contents == contents * other.contents && r.version == |r.contents|
    {
      r := new Set.New(Count());
      ghost var mine, theirs := contents, other.contents;
      var rest := contents;
      ghost var done: set<V> := {};
      while rest != {}
        invariant rest + done == mine && rest !! done
        invariant r.Valid() && r.values == None
        invariant r.contents == done * theirs
        invariant r.version == |r.contents|
        decreases |rest|
      {
        var v :| v in rest;
        if other.Contains(v) {
          r.Add(v);
        }
        rest := rest - {v};
        done := done + {v};
      }
    }

    /** Complement: a new set of the values in this set but not in the other; neither set changes. */
    method Complement(other: Set<V>) returns (r: Set<V>)
      requires Valid() && other.Valid()
      ensures fresh(r) && r.Valid() && r.values == None
      ensures r.contents == contents - other.contents && r.version == |r.contents|
    {
      r := new Set.New(Count());
      ghost var mine, theirs := contents, other.contents;
      var rest := contents;
      ghost var done: set<V> := {};
      while rest != {}
        invariant rest + done == mine && rest !! done
        invariant r.Valid() && r.values == None
        invariant r.contents == done - theirs
        invariant r.version == |r.contents|
        decreases |rest|
      {
        var v :| v in rest;
        if !other.Contains(v) {
          r.Add(v);
        }
        rest := rest - {v};
        done := done + {v};
      }
    }

    /** RelativeComplement: the values of the other set that are not in this one. */
    method RelativeComplement(other: Set<V>) returns (r: Set<V>)
      requires Valid() && other.Valid()
      ensures fresh(r) && r.Valid() && r.values == None
      ensures r.contents == other.contents - contents && r.version == |r.contents|
    {
      r := other.Complement(this);
    }

    /**
     * SymmetricDifference: the union less the intersection, which is the
     * values in exactly one of the two sets.
     */
    method SymmetricDifference(other: Set<V>) returns (r: Set<V>)
      requires Valid() && other.Valid()
      modifies other`values
      ensures fresh(r) && r.Valid() && r.values == None && r.version == |r.contents|
      ensures r.contents == (old(contents) + old(other.contents)) - (old(contents) * old(other.contents))
      ensures r.contents == (old(contents) - old(other.contents)) + (old(other.contents) - old(contents))
      ensures contents == old(contents) && other.contents == old(other.contents)
      ensures other.values.Some? && (old(other.values).Some? ==> other.values == old(other.values))
    {
      var union := Union(other);
      var intersection := Intersection(other);
      r := union.Complement(intersection);
    }

    /** SubsetOf holds iff every value of this set is in the other. */
    method SubsetOf(other: Set<V>) returns (b: bool)
      requires Valid() && other.Valid()
      ensures b <==> contents <= other.contents
    {
      if Count() > other.Count() {
        if contents <= other.contents {
          SubsetCard(contents, other.contents);
        }
        return false;
      }
      var rest := contents;
      while rest != {}
        invariant rest <= contents
        invariant contents - rest <= other.contents
        decreases |rest|
      {
        var v :| v in rest;
        if !other.Contains(v) {
          return false;
        }
        rest := rest - {v};
      }
      return true;
    }

    /** SupersetOf(o) is o.SubsetOf(this). */
    method SupersetOf(other: Set<V>) returns (b: bool)
      requires Valid() && other.Valid()
      ensures b <==> other.contents <= contents
    {
      b := other.SubsetOf(this);
    }

    /**
     * The step of UnmarshalJSON after decoding: the set becomes
     * NewFromSlice(decoded), and the result is an error exactly when the
     * count differs from the slice length, which is when the slice held
     * duplicates.
     */
    method UnmarshalJSON(decoded: seq<V>) returns (err: Option<string>)
      modifies this
      ensures Valid() && contents == Elems(decoded) && values == None && version == |contents|
      ensures err.Some? <==> !Distinct(decoded)
      ensures err.Some? ==> err.value == "duplicates were present"
    {
      var s := NewFromSlice(decoded);
      contents, values, version := s.contents, s.values, s.version;
      DistinctIffCard(decoded);
      if Count() != |decoded| {
        return Some("duplicates were present");
      }
      return None;
    }
  }

  /** NewFromSlice: a set of the slice's values, duplicates dropped, one version step per distinct value. */
  method NewFromSlice<V(==)>(slice: seq<V>) returns (s: Set<V>)
    ensures fresh(s) && s.Valid() && s.values == None
    ensures s.contents == Elems(slice) && s.version == |s.contents|
    ensures |s.contents| <= |slice|
  {
    s := new Set.New(|slice|);
    s.AddSlice(slice);
    DistinctIffCard(slice);
  }
}
