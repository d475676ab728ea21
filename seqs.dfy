/** Facts about sequences used as duplicate-free enumerations of a set. */
module Seqs {

  /** No element occurs twice. */
  ghost predicate Distinct<T>(s: seq<T>)
  {
    forall i, j :: 0 <= i < j < |s| ==> s[i] != s[j]
  }

  /** The set of elements of a sequence. */
  ghost function Elems<T>(s: seq<T>): set<T>
  {
    set x | x in s
  }

  /** `s` lists every element of `c` exactly once and nothing else. */
  ghost predicate Enumerates<T>(s: seq<T>, c: set<T>)
  {
    Distinct(s) && Elems(s) == c
  }

  lemma ElemsSnoc<T>(s: seq<T>, x: T)
    ensures Elems(s + [x]) == Elems(s) + {x}
  {
    assert forall y :: y in s + [x] <==> y in s || y == x;
  }

  /** A sequence has as many distinct elements as entries exactly when it has no duplicates. */
  lemma {:induction false} DistinctIffCard<T>(s: seq<T>)
    ensures Distinct(s) <==> |Elems(s)| == |s|
    ensures |Elems(s)| <= |s|
  {
    if s == [] {
      assert Elems(s) == {};
    } else {
      var init, x := s[..|s| - 1], s[|s| - 1];
      assert s == init + [x];
      ElemsSnoc(init, x);
      DistinctIffCard(init);
      if x in init {
        assert Elems(s) == Elems(init);
        var j :| 0 <= j < |init| && init[j] == x;
        assert s[j] == s[|s| - 1];
        assert !Distinct(s);
      } else {
        assert |Elems(s)| == |Elems(init)| + 1;
        if Distinct(init) {
          forall i, j | 0 <= i < j < |s| ensures s[i] != s[j] {
            if j == |s| - 1 {
              assert s[i] == init[i];
            } else {
              assert s[i] == init[i] && s[j] == init[j];
            }
          }
        } else {
          var i, j :| 0 <= i < j < |init| && init[i] == init[j];
          assert s[i] == s[j];
        }
      }
    }
  }

  /** An enumeration of a set has exactly the set's cardinality. */
  lemma EnumeratesCard<T>(s: seq<T>, c: set<T>)
    requires Enumerates(s, c)
    ensures |s| == |c|
  {
    DistinctIffCard(s);
  }

  /** Appending a fresh element to an enumeration enumerates the enlarged set. */
  lemma EnumeratesSnoc<T>(s: seq<T>, c: set<T>, x: T)
    requires Enumerates(s, c) && x !in c
    ensures Enumerates(s + [x], c + {x})
  {
    ElemsSnoc(s, x);
    var t := s + [x];
    forall i, j | 0 <= i < j < |t| ensures t[i] != t[j] {
      if j == |s| {
        assert t[i] == s[i] && s[i] in Elems(s);
      } else {
        assert t[i] == s[i] && t[j] == s[j];
      }
    }
  }

  /** A subset is no larger than its superset, and equally large only when equal. */
  lemma SubsetCard<T>(a: set<T>, b: set<T>)
    requires a <= b
    ensures |a| <= |b|
    ensures |a| == |b| ==> a == b
  {
    assert b == a + (b - a);
    if |a| == |b| {
      assert |b - a| == 0;
    }
  }

  /** Index of the first occurrence of `x` in `s`, or `|s|` when `x` does not occur. */
  function FirstIndex<T(==)>(s: seq<T>, x: T): (i: nat)
    ensures i <= |s|
    ensures i < |s| <==> x in s
    ensures i < |s| ==> s[i] == x
    ensures x !in s[..i]
  {
    if s == [] then 0
    else if s[0] == x then 0
    else
      var r := FirstIndex(s[1..], x);
      assert s[1..][..r] == s[1..r + 1];
      assert s[..r + 1] == [s[0]] + s[1..r + 1];
      r + 1
  }

  /** `s` with the entry at index `i` taken out. */
  function RemoveIndex<T>(s: seq<T>, i: nat): (r: seq<T>)
    requires i < |s|
    ensures |r| == |s| - 1
    ensures forall j :: 0 <= j < i ==> r[j] == s[j]
    ensures forall j :: i <= j < |r| ==> r[j] == s[j + 1]
  {
    s[..i] + s[i + 1..]
  }

  /** `s` with `x` put at index `i` and the entries from `i` on shifted right by one. */
  function InsertIndex<T>(s: seq<T>, i: nat, x: T): (r: seq<T>)
    requires i <= |s|
    ensures |r| == |s| + 1 && r[i] == x
    ensures forall j :: 0 <= j < i ==> r[j] == s[j]
    ensures forall j :: i < j < |r| ==> r[j] == s[j - 1]
  {
    s[..i] + [x] + s[i..]
  }

  /** Taking out what was just put in gives back the original sequence. */
  lemma RemoveInsert<T>(s: seq<T>, i: nat, x: T)
    requires i <= |s|
    ensures RemoveIndex(InsertIndex(s, i, x), i) == s
  {
  }

  /** Taking out index i removes one copy of s[i] and nothing else. */
  lemma RemoveIndexMultiset<T>(s: seq<T>, i: nat)
    requires i < |s|
    ensures multiset(RemoveIndex(s, i)) == multiset(s) - multiset{s[i]}
  {
    assert s == s[..i] + [s[i]] + s[i + 1..];
  }

  /** Taking an entry out of a duplicate-free sequence keeps it duplicate-free and loses exactly that entry. */
  lemma DistinctRemoveIndex<T>(s: seq<T>, i: nat)
    requires Distinct(s) && i < |s|
    ensures Distinct(RemoveIndex(s, i))
    ensures Elems(RemoveIndex(s, i)) == Elems(s) - {s[i]}
  {
    var r := RemoveIndex(s, i);
    forall x | x in Elems(s) - {s[i]} ensures x in Elems(r) {
      var j :| 0 <= j < |s| && s[j] == x;
      if j < i {
        assert r[j] == x;
      } else {
        assert r[j - 1] == x;
      }
    }
  }
}
