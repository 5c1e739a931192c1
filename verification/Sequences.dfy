/** Sequences without duplicates, and a law that the solver applies faster when told. */
module Sequences {

  ghost predicate NoDuplicates<T>(q: seq<T>) {
    forall i, j :: 0 <= i < j < |q| ==> q[i] != q[j]
  }

  lemma Assoc<T>(a: seq<T>, b: seq<T>, c: seq<T>)
    ensures a + (b + c) == a + b + c
  {
  }
}
