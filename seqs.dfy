/** Sequence helpers shared by the models: pandas' `Series.unique()`
    (distinct values in order of first appearance) and duplicate-freedom. */
module Seqs {

  predicate NoDup<T(==)>(s: seq<T>) {
    forall i, j :: 0 <= i < j < |s| ==> s[i] != s[j]
  }

  /** `Series.unique()`: the distinct elements of `s`, in order of first appearance. */
  function Unique<T(==,!new)>(s: seq<T>): (r: seq<T>)
    ensures NoDup(r)
    ensures forall x :: x in r <==> x in s
    ensures |r| <= |s|
  {
    if s == [] then []
    else
      var u := Unique(s[..|s| - 1]);
      var x := s[|s| - 1];
      assert forall y :: y in s <==> y in s[..|s| - 1] || y == x;
      if x in u then u else u + [x]
  }

  /** A duplicate-free sequence has as many elements as its set of elements. */
  lemma {:induction false} NoDupCardinality<T>(s: seq<T>)
    requires NoDup(s)
    ensures |set x | x in s| == |s|
  {
    if s != [] {
      var init := s[..|s| - 1];
      assert (set x | x in s) == (set x | x in init) + {s[|s| - 1]};
      assert s[|s| - 1] !in init;
      NoDupCardinality(init);
    }
  }

  /** Two duplicate-free sequences with the same elements have the same length. */
  lemma NoDupSameElements<T>(a: seq<T>, b: seq<T>)
    requires NoDup(a) && NoDup(b)
    requires forall x :: x in a <==> x in b
    ensures |a| == |b|
  {
    assert (set x | x in a) == (set x | x in b);
    NoDupCardinality(a);
    NoDupCardinality(b);
  }

  /** A sequence has exactly one distinct element iff all its elements equal one value. */
  lemma UniqueSingleton<T(!new)>(s: seq<T>, u: T)
    ensures |Unique(s)| == 1 && Unique(s)[0] == u <==> s != [] && forall x :: x in s ==> x == u
  {
    var r := Unique(s);
    if s != [] && forall x :: x in s ==> x == u {
      assert s[0] in s;
      NoDupSameElements(r, [u]);
      assert r[0] in r;
    }
    if |r| == 1 && r[0] == u {
      assert r[0] in r;
      forall x | x in s ensures x == u {
        assert x in r;
      }
    }
  }
}
