/**
 * The sequential operators. Each one takes a fresh cursor from the
 * enumerable and drives it with `Next` until it returns false, exactly as
 * the Go code's `for enum.Next()` loops do; each is proved against a pure
 * specification function over the enumerable's values.
 */
module Sequential {
  import opened Enumerator

  /** Number of elements satisfying f. */
  function CountOf<V>(s: seq<V>, f: V -> bool): nat
  {
    if s == [] then 0 else CountOf(s[..|s| - 1], f) + (if f(s[|s| - 1]) then 1 else 0)
  }

  /** The elements satisfying f, in their original order. */
  function FilterOf<V>(s: seq<V>, f: V -> bool): seq<V>
  {
    if s == [] then [] else FilterOf(s[..|s| - 1], f) + (if f(s[|s| - 1]) then [s[|s| - 1]] else [])
  }

  /** Left fold: result_0 = initial, result_i = f(result_(i-1), s[i-1]). */
  function FoldLeft<V, R>(f: (R, V) -> R, initial: R, s: seq<V>): R
  {
    if s == [] then initial else f(FoldLeft(f, initial, s[..|s| - 1]), s[|s| - 1])
  }

  /** Additive fold from 0. */
  function SumOf(s: seq<int>): int
  {
    if s == [] then 0 else SumOf(s[..|s| - 1]) + s[|s| - 1]
  }

  lemma {:induction false} CountOfBound<V>(s: seq<V>, f: V -> bool)
    ensures CountOf(s, f) <= |s|
    ensures CountOf(s, f) == |FilterOf(s, f)|
  {
    if s != [] {
      CountOfBound(s[..|s| - 1], f);
    }
  }

  /** Every element of the filtered sequence satisfies f, and each value keeps its multiplicity. */
  lemma {:induction false} FilterOfContents<V>(s: seq<V>, f: V -> bool)
    ensures forall i :: 0 <= i < |FilterOf(s, f)| ==> f(FilterOf(s, f)[i])
    ensures forall x :: multiset(FilterOf(s, f))[x] == if f(x) then multiset(s)[x] else 0
  {
    if s != [] {
      var init, last := s[..|s| - 1], s[|s| - 1];
      FilterOfContents(init, f);
      assert s == init + [last];
      assert multiset(s) == multiset(init) + multiset{last};
    }
  }

  lemma {:induction false} CountOfConcat<V>(a: seq<V>, b: seq<V>, f: V -> bool)
    ensures CountOf(a + b, f) == CountOf(a, f) + CountOf(b, f)
  {
    if b == [] {
      assert a + b == a;
    } else {
      assert (a + b)[..|a + b| - 1] == a + b[..|b| - 1];
      CountOfConcat(a, b[..|b| - 1], f);
    }
  }

  lemma {:induction false} FilterOfConcat<V>(a: seq<V>, b: seq<V>, f: V -> bool)
    ensures FilterOf(a + b, f) == FilterOf(a, f) + FilterOf(b, f)
  {
    if b == [] {
      assert a + b == a;
    } else {
      assert (a + b)[..|a + b| - 1] == a + b[..|b| - 1];
      FilterOfConcat(a, b[..|b| - 1], f);
    }
  }

  lemma {:induction false} FoldLeftConcat<V, R>(f: (R, V) -> R, initial: R, a: seq<V>, b: seq<V>)
    ensures FoldLeft(f, initial, a + b) == FoldLeft(f, FoldLeft(f, initial, a), b)
  {
    if b == [] {
      assert a + b == a;
    } else {
      assert (a + b)[..|a + b| - 1] == a + b[..|b| - 1];
      FoldLeftConcat(f, initial, a, b[..|b| - 1]);
    }
  }

  lemma {:induction false} SumOfConcat(a: seq<int>, b: seq<int>)
    ensures SumOf(a + b) == SumOf(a) + SumOf(b)
  {
    if b == [] {
      assert a + b == a;
    } else {
      assert (a + b)[..|a + b| - 1] == a + b[..|b| - 1];
      SumOfConcat(a, b[..|b| - 1]);
    }
  }

  /** Sum is Reduce with + from 0. */
  lemma {:induction false} SumIsFold(s: seq<int>)
    ensures SumOf(s) == FoldLeft((acc: int, v: int) => acc + v, 0, s)
  {
    if s != [] {
      SumIsFold(s[..|s| - 1]);
    }
  }

  /** A fold of + from `initial` is `initial` plus the sum. */
  lemma {:induction false} FoldAddShift(s: seq<int>, initial: int)
    ensures FoldLeft((acc: int, v: int) => acc + v, initial, s) == initial + SumOf(s)
  {
    if s != [] {
      FoldAddShift(s[..|s| - 1], initial);
    }
  }

  /**
   * Each: `f` is called once per element, in order. The effect of `f` is
   * modelled by the log of the arguments it received.
   */
  method Each<V(0)>(e: Enumerable<V>) returns (calls: seq<V>)
    ensures calls == e.Values()
  {
    var zero: V := *;
    var en := e.GetEnumerator(zero);
    calls := [];
    var more := en.Next();
    while more
      invariant en.Valid() && en.elements == e.elements
      invariant |calls| <= |e.elements| && calls == e.elements[..|calls|]
      invariant more ==> |calls| < |e.elements| && en.position == |calls| && en.current == e.elements[|calls|]
      invariant !more ==> |calls| == |e.elements|
      decreases |e.elements| - |calls|
    {
      calls := calls + [en.Current()];
      more := en.Next();
    }
  }

  /**
   * All: true iff every element satisfies f. It stops at the first element
   * that fails; `evaluated` is the number of calls of f.
   */
  method All<V(0)>(e: Enumerable<V>, f: V -> bool) returns (r: bool, ghost evaluated: nat)
    ensures r <==> forall i :: 0 <= i < |e.Values()| ==> f(e.Values()[i])
    ensures r ==> evaluated == |e.Values()|
    ensures !r ==> 1 <= evaluated <= |e.Values()| && !f(e.Values()[evaluated - 1])
    ensures forall i :: 0 <= i < evaluated - 1 ==> f(e.Values()[i])
  {
    var zero: V := *;
    var en := e.GetEnumerator(zero);
    var s := e.elements;
    evaluated := 0;
    var more := en.Next();
    while more
      invariant en.Valid() && en.elements == s
      invariant evaluated <= |s|
      invariant forall i :: 0 <= i < evaluated ==> f(s[i])
      invariant more ==> evaluated < |s| && en.position == evaluated && en.current == s[evaluated]
      invariant !more ==> evaluated == |s|
      decreases |s| - evaluated
    {
      evaluated := evaluated + 1;
      if !f(en.Current()) {
        assert !f(e.Values()[evaluated - 1]);
        return false, evaluated;
      }
      more := en.Next();
    }
    return true, evaluated;
  }

  /**
   * Any: true iff some element satisfies f. It stops at the first element
   * that passes; `evaluated` is the number of calls of f.
   */
  method Any<V(0)>(e: Enumerable<V>, f: V -> bool) returns (r: bool, ghost evaluated: nat)
    ensures r <==> exists i :: 0 <= i < |e.Values()| && f(e.Values()[i])
    ensures !r ==> evaluated == |e.Values()|
    ensures r ==> 1 <= evaluated <= |e.Values()| && f(e.Values()[evaluated - 1])
    ensures forall i :: 0 <= i < evaluated - 1 ==> !f(e.Values()[i])
  {
    var zero: V := *;
    var en := e.GetEnumerator(zero);
    var s := e.elements;
    evaluated := 0;
    var more := en.Next();
    while more
      invariant en.Valid() && en.elements == s
      invariant evaluated <= |s|
      invariant forall i :: 0 <= i < evaluated ==> !f(s[i])
      invariant more ==> evaluated < |s| && en.position == evaluated && en.current == s[evaluated]
      invariant !more ==> evaluated == |s|
      decreases |s| - evaluated
    {
      evaluated := evaluated + 1;
      if f(en.Current()) {
        assert f(e.Values()[evaluated - 1]);
        return true, evaluated;
      }
      more := en.Next();
    }
    return false, evaluated;
  }

  /** Count: the number of elements satisfying f (at most the length). */
  method Count<V(0)>(e: Enumerable<V>, f: V -> bool) returns (count: nat)
    ensures count == CountOf(e.Values(), f)
    ensures count <= |e.Values()|
  {
    var zero: V := *;
    var en := e.GetEnumerator(zero);
    var s := e.elements;
    ghost var i := 0;
    count := 0;
    var more := en.Next();
    while more
      invariant en.Valid() && en.elements == s
      invariant i <= |s| && count == CountOf(s[..i], f)
      invariant more ==> i < |s| && en.position == i && en.current == s[i]
      invariant !more ==> i == |s|
      decreases |s| - i
    {
      assert s[..i + 1][..i] == s[..i];
      if f(en.Current()) {
        count := count + 1;
      }
      i := i + 1;
      more := en.Next();
    }
    assert s[..i] == s;
    CountOfBound(s, f);
  }

  /** Map: same length, and element i of the result is f of element i of the input. */
  method Map<V(0), R>(e: Enumerable<V>, f: V -> R) returns (m: Enumerable<R>)
    ensures |m.Values()| == |e.Values()|
    ensures forall i :: 0 <= i < |e.Values()| ==> m.Values()[i] == f(e.Values()[i])
  {
    var zero: V := *;
    var en := e.GetEnumerator(zero);
    var s := e.elements;
    var results: seq<R> := [];
    var more := en.Next();
    while more
      invariant en.Valid() && en.elements == s
      invariant |results| <= |s|
      invariant forall j :: 0 <= j < |results| ==> results[j] == f(s[j])
      invariant more ==> |results| < |s| && en.position == |results| && en.current == s[|results|]
      invariant !more ==> |results| == |s|
      decreases |s| - |results|
    {
      results := results + [f(en.Current())];
      more := en.Next();
    }
    m := GetSliceEnumerable(results);
  }

  /** Filter: the order-preserving subsequence of elements satisfying f. */
  method Filter<V(0)>(e: Enumerable<V>, f: V -> bool) returns (r: Enumerable<V>)
    ensures r.Values() == FilterOf(e.Values(), f)
  {
    var zero: V := *;
    var en := e.GetEnumerator(zero);
    var s := e.elements;
    ghost var i := 0;
    var results: seq<V> := [];
    var more := en.Next();
    while more
      invariant en.Valid() && en.elements == s
      invariant i <= |s| && results == FilterOf(s[..i], f)
      invariant more ==> i < |s| && en.position == i && en.current == s[i]
      invariant !more ==> i == |s|
      decreases |s| - i
    {
      assert s[..i + 1][..i] == s[..i];
      if f(en.Current()) {
        results := results + [en.Current()];
      }
      i := i + 1;
      more := en.Next();
    }
    assert s[..i] == s;
    r := GetSliceEnumerable(results);
  }

  /** Reduce: the left fold of f over the elements, starting from `initial`. */
  method Reduce<V(0), R>(e: Enumerable<V>, f: (R, V) -> R, initial: R) returns (result: R)
    ensures result == FoldLeft(f, initial, e.Values())
  {
    var zero: V := *;
    var en := e.GetEnumerator(zero);
    var s := e.elements;
    ghost var i := 0;
    result := initial;
    var more := en.Next();
    while more
      invariant en.Valid() && en.elements == s
      invariant i <= |s| && result == FoldLeft(f, initial, s[..i])
      invariant more ==> i < |s| && en.position == i && en.current == s[i]
      invariant !more ==> i == |s|
      decreases |s| - i
    {
      assert s[..i + 1][..i] == s[..i];
      result := f(result, en.Current());
      i := i + 1;
      more := en.Next();
    }
    assert s[..i] == s;
  }

  /**
   * Range: start, start+1, ..., end-1 when start < end; start, start-1, ...,
   * end+1 when start > end; the single value start when they are equal.
   */
  method Range(start: int, end: int) returns (r: Enumerable<int>)
    ensures start < end ==> |r.Values()| == end - start
    ensures start < end ==> forall j :: 0 <= j < end - start ==> r.Values()[j] == start + j
    ensures start > end ==> |r.Values()| == start - end
    ensures start > end ==> forall j :: 0 <= j < start - end ==> r.Values()[j] == start - j
    ensures start == end ==> r.Values() == [start]
  {
    var step: int;
    if end < start {
      step := -1;
    } else if end > start {
      step := 1;
    } else {
      return GetSliceEnumerable([start]);
    }
    var out: seq<int> := [];
    var i := start;
    while i != end
      invariant |out| == (i - start) * step
      invariant step == 1 ==> start <= i <= end
      invariant step == -1 ==> end <= i <= start
      invariant forall j :: 0 <= j < |out| ==> out[j] == start + j * step
      decreases (end - i) * step
    {
      out := out + [i];
      i := i + step;
    }
    r := GetSliceEnumerable(out);
  }

  /** Sum: the additive fold from 0, so an empty input gives 0. */
  method Sum(e: Enumerable<int>) returns (result: int)
    ensures result == SumOf(e.Values())
  {
    var en := e.GetEnumerator(0);
    var s := e.elements;
    ghost var i := 0;
    result := 0;
    var more := en.Next();
    while more
      invariant en.Valid() && en.elements == s
      invariant i <= |s| && result == SumOf(s[..i])
      invariant more ==> i < |s| && en.position == i && en.current == s[i]
      invariant !more ==> i == |s|
      decreases |s| - i
    {
      assert s[..i + 1][..i] == s[..i];
      result := result + en.Current();
      i := i + 1;
      more := en.Next();
    }
    assert s[..i] == s;
  }
}
