/** Counting the elements of a sequence without repetitions. */
module Sequences {
  lemma {:induction false} DistinctSize<T>(s: seq<T>)
    requires forall i, j :: 0 <= i < j < |s| ==> s[i] != s[j]
    ensures |set x | x in s| == |s|
  {
    if s == [] {
      assert (set x | x in s) == {};
    } else {
      DistinctSize(s[1..]);
      var rest := set x | x in s[1..];
      assert s[0] !in rest;
      assert (set x | x in s) == {s[0]} + rest;
    }
  }
}
