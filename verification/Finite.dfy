/** Counting: lists without repetition, ranges and subsets. */
module Finite {

  ghost predicate Distinct(list: seq<int>) {
    forall i, j | 0 <= i < j < |list| :: list[i] != list[j]
  }

  ghost function Range(lo: int, hi: int): (r: set<int>)
    ensures forall x :: x in r <==> lo <= x < hi
    ensures lo <= hi ==> |r| == hi - lo
    decreases hi - lo
  {
    if lo >= hi then {} else Range(lo, hi - 1) + {hi - 1}
  }

  ghost function Elements(list: seq<int>): (r: set<int>)
    ensures forall x :: x in r <==> x in list
    ensures Distinct(list) ==> |r| == |list|
  {
    if list == [] then {}
    else
      var n := |list| - 1;
      assert list == list[..n] + [list[n]];
      Elements(list[..n]) + {list[n]}
  }

  lemma {:induction false} SubsetSize<T>(a: set<T>, b: set<T>)
    requires a <= b
    ensures |a| <= |b|
    decreases a
  {
    if a == {} {
    } else {
      var x :| x in a;
      SubsetSize(a - {x}, b - {x});
    }
  }

  /** Distinct numbers of a range are no more than the range holds. */
  lemma PigeonHole(list: seq<int>, lo: int, hi: int)
    requires Distinct(list) && lo <= hi && forall i | 0 <= i < |list| :: lo <= list[i] < hi
    ensures |list| <= hi - lo
  {
    SubsetSize(Elements(list), Range(lo, hi));
  }
}
