/** Lists without repeats and the finite sets they enumerate. */
module Cardinality {
  ghost predicate NoDuplicates<T>(s: seq<T>) {
    forall i, j :: 0 <= i < j < |s| ==> s[i] != s[j]
  }

  /** A list without repeats is as long as its set of elements. */
  lemma DistinctSize<T>(s: seq<T>, elems: set<T>)
    requires NoDuplicates(s) && forall x :: x in s <==> x in elems
    ensures |s| == |elems|
  {
    if s != [] {
      var front, last := s[..|s| - 1], s[|s| - 1];
      forall x
        ensures x in front <==> x in elems - {last}
      {
        if x in front {
          assert x in s;
        }
      }
      DistinctSize(front, elems - {last});
    }
  }

  lemma SubsetSize<T>(a: set<T>, b: set<T>)
    requires a <= b
    ensures |a| <= |b| && (|a| == |b| ==> a == b)
  {
    if a != {} {
      var x :| x in a;
      SubsetSize(a - {x}, b - {x});
    }
  }
}
