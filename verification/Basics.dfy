// Powers, sums and sizes of sets.

module Basics {

  function Pow(base: real, e: nat): real {
    if e == 0 then 1.0 else base * Pow(base, e - 1)
  }

  function Sum(xs: seq<int>): (total: int)
    ensures (forall i :: 0 <= i < |xs| ==> xs[i] >= 0) ==> total >= 0
  {
    if xs == [] then 0 else Sum(xs[..|xs| - 1]) + xs[|xs| - 1]
  }

  lemma {:induction false} SmallerSubset(x: set<nat>, y: set<nat>)
    requires x <= y
    ensures |x| <= |y|
  {
    if x != {} {
      var e :| e in x;
      SmallerSubset(x - {e}, y - {e});
    }
  }

  lemma SmallerSet(x: set<nat>, y: set<nat>)
    requires x < y
    ensures |x| < |y|
  {
    var e :| e in y && e !in x;
    SmallerSubset(x, y - {e});
  }

  lemma SameSizeSubset(x: set<nat>, y: set<nat>)
    requires x <= y && |x| == |y|
    ensures x == y
  {
    SmallerSubset({}, y - x);
    assert y == x + (y - x);
  }
}
