/** What every module shares. */
module Basics {

  datatype Option<+T> = None | Some(value: T)

  ghost predicate Ascending(index: seq<int>) {
    forall i, j :: 0 <= i < j < |index| ==> index[i] < index[j]
  }

  lemma AppendedIndex(init: seq<int>, n: int)
    requires Ascending(init) && forall i :: 0 <= i < |init| ==> init[i] < n
    ensures Ascending(init + [n])
    ensures forall i :: i in init + [n] <==> i in init || i == n
  {
  }
}
