/** Sequences whose elements all differ. */
module Sequences {

  ghost predicate NoDuplicates<T>(s: seq<T>) {
    forall i, j :: 0 <= i < j < |s| ==> s[i] != s[j]
  }

  lemma DistinctFrom<T>(s: seq<T>, u: nat)
    requires NoDuplicates(s) && u < |s|
    ensures forall k :: 0 <= k < |s| && k != u ==> s[k] != s[u]
  {
  }
}
