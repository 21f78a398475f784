// membershipchainservice/locarnotreaties.go: the lottery that sets the levels.

module Lottery {
  import opened Basics
  import opened LocalityGraph

  const NR_LEVELS := 3

  // One exchange, and a sequence of them.
  function Swapped<T>(s: seq<T>, i: nat, j: nat): seq<T>
    requires i < |s| && j < |s|
  {
    s[i := s[j]][j := s[i]]
  }

  ghost predicate InRange(swaps: seq<(nat, nat)>, n: nat) {
    forall k :: 0 <= k < |swaps| ==> swaps[k].0 < n && swaps[k].1 < n
  }

  ghost function Applied<T>(s: seq<T>, swaps: seq<(nat, nat)>): (t: seq<T>)
    requires InRange(swaps, |s|)
    ensures |t| == |s|
  {
    if swaps == [] then s
    else
      var last := swaps[|swaps| - 1];
      Swapped(Applied(s, swaps[..|swaps| - 1]), last.0, last.1)
  }

  ghost predicate Sorted(values: seq<real>) {
    forall i, j :: 0 <= i < j < |values| ==> values[i] <= values[j]
  }

  ghost predicate IsPermutation(indexes: seq<nat>) {
    && (forall i :: 0 <= i < |indexes| ==> indexes[i] < |indexes|)
    && forall i, j :: 0 <= i < j < |indexes| ==> indexes[i] != indexes[j]
  }

  ghost function Identity(n: nat): seq<nat> {
    seq(n, i => i)
  }

  class IndexValue {
    const Indexes: array<nat>
    const Values: array<real>

    constructor (indexes: array<nat>, values: array<real>)
      ensures Indexes == indexes && Values == values
    {
      Indexes, Values := indexes, values;
    }

    method Swap(i: nat, j: nat)
      requires Indexes.Length == Values.Length && i < Indexes.Length && j < Indexes.Length
      modifies Indexes, Values
      ensures Indexes[..] == Swapped(old(Indexes[..]), i, j)
      ensures Values[..] == Swapped(old(Values[..]), i, j)
    {
      Indexes[i], Indexes[j] := Indexes[j], Indexes[i];
      Values[i], Values[j] := Values[j], Values[i];
    }
  }

  // The library sort is any sequence of calls of Swap that leaves the values in
  // order.
  method IndexesOfSortedValues(list: seq<real>, swaps: seq<(nat, nat)>) returns (indexes: array<nat>)
    requires InRange(swaps, |list|) && Sorted(Applied(list, swaps))
    ensures fresh(indexes) && indexes.Length == |list|
    ensures indexes[..] == Applied(Identity(|list|), swaps)
  {
    indexes := new nat[|list|];
    var copyList := new real[|list|];
    for i := 0 to |list|
      invariant forall j :: 0 <= j < i ==> indexes[j] == j && copyList[j] == list[j]
    {
      indexes[i] := i;
      copyList[i] := list[i];
    }
    assert indexes[..] == Identity(|list|) && copyList[..] == list;
    var iv := new IndexValue(indexes, copyList);
    for k := 0 to |swaps|
      invariant indexes[..] == Applied(Identity(|list|), swaps[..k])
      invariant copyList[..] == Applied(list, swaps[..k])
    {
      assert swaps[..k + 1][..k] == swaps[..k];
      iv.Swap(swaps[k].0, swaps[k].1);
    }
    assert swaps[..|swaps|] == swaps;
  }

  // However the swaps go, Indexes stays a permutation and tracks the values.
  lemma {:induction false} SwapsTrack(list: seq<real>, swaps: seq<(nat, nat)>)
    requires InRange(swaps, |list|)
    ensures var indexes := Applied(Identity(|list|), swaps);
            && IsPermutation(indexes)
            && forall i :: 0 <= i < |list| ==> Applied(list, swaps)[i] == list[indexes[i]]
  {
    if swaps != [] {
      SwapsTrack(list, swaps[..|swaps| - 1]);
    }
  }

  // math.Round of a number that is not negative.
  function Round(x: real): int
    requires x >= 0.0
  {
    (x + 0.5).Floor
  }

  // The share of n nodes that level l gets, for a probability of promotion p.
  function Share(n: nat, p: real, l: nat): real {
    (1.0 - p) * Pow(p, l) * n as real
  }

  lemma SharesAre(n: nat, root: real, p: real)
    requires root > 0.0 && root * root == n as real && p == 1.0 / root
    ensures Share(n, p, 0) == n as real - root
    ensures Share(n, p, 1) == root - 1.0
    ensures Share(n, p, 2) == 1.0 - p
  {
    assert p * root == 1.0;
    assert p * n as real == root by {
      assert p * (root * root) == (p * root) * root;
    }
    assert Pow(p, 1) == p * Pow(p, 0) == p;
    assert Pow(p, 2) == p * p;
    calc {
      Share(n, p, 1);
      (1.0 - p) * p * n as real;
      (1.0 - p) * (p * n as real);
      (1.0 - p) * root;
      root - p * root;
      root - 1.0;
    }
    calc {
      Share(n, p, 2);
      (1.0 - p) * (p * p) * n as real;
      (1.0 - p) * (p * (p * n as real));
      (1.0 - p) * (p * root);
      1.0 - p;
    }
  }

  // The integer nearest to the square root of n.
  ghost predicate NearestRoot(n: nat, r: nat) {
    r * r - r < n <= r * r + r
  }

  // The rounded counts, over exact reals: they add up to n from four nodes on,
  // and to n - 1 below.
  lemma RoundedCounts(n: nat, root: real, p: real) returns (r: nat)
    requires n >= 1 && root > 0.0 && root * root == n as real && p == 1.0 / root
    ensures 1 <= r <= n && NearestRoot(n, r)
    ensures SharesRound(n, p, r)
    ensures StartOf(n, r, 3) == if n >= 4 then n else n - 1
  {
    SharesAre(n, root, p);
    RootBounds(n, root);
    r := (root + 0.5).Floor;
    NearestIs(n, root, r);
    Reciprocal(n, root, p);
    assert r as real < n as real + 0.5;
    assert Round(Share(n, p, 0)) == n - r;
    assert Round(Share(n, p, 1)) == r - 1;
    assert Round(Share(n, p, 2)) == if n >= 4 then 1 else 0;
    forall l: nat | l < 3
      ensures Share(n, p, l) >= 0.0 && Round(Share(n, p, l)) == StartOf(n, r, l + 1) - StartOf(n, r, l)
    {
      assert l == 0 || l == 1 || l == 2;
    }
  }

  // Every share rounds to the size of its block of positions.
  ghost predicate SharesRound(n: nat, p: real, r: nat)
    requires 1 <= r <= n
  {
    forall l: nat :: l < 3 ==>
      Share(n, p, l) >= 0.0 && Round(Share(n, p, l)) == StartOf(n, r, l + 1) - StartOf(n, r, l)
  }

  // The position from which level l is given out.
  function StartOf(n: nat, r: nat, l: nat): nat
    requires 1 <= r <= n
  {
    if l == 0 then 0 else if l == 1 then n - r else if l == 2 then n - 1 else AssignedOf(n)
  }

  lemma SquaresGrow(a: real, b: real)
    requires 0.0 <= a < b
    ensures a * a < b * b
  {
    var ab := a * b;
    assert a * a <= ab;
    assert ab < b * b;
  }

  lemma RootBounds(n: nat, root: real)
    requires n >= 1 && root > 0.0 && root * root == n as real
    ensures 1.0 <= root <= n as real
  {
    if root < 1.0 {
      SquaresGrow(root, 1.0);
    }
    assert root * root >= root * 1.0;
  }

  lemma NearestIs(n: nat, root: real, r: int)
    requires n >= 1 && root >= 1.0 && root * root == n as real && r == (root + 0.5).Floor
    ensures r >= 1 && NearestRoot(n, r)
    ensures r as real - 0.5 < root < r as real + 0.5
  {
    var x := r as real;
    assert x >= 1.0 && x - 0.5 <= root < x + 0.5;
    SquaresGrow(root, x + 0.5);
    if x - 0.5 < root {
      SquaresGrow(x - 0.5, root);
    }
    assert (x - 0.5) * (x - 0.5) == (r * r - r) as real + 0.25;
    assert (x + 0.5) * (x + 0.5) == (r * r + r) as real + 0.25;
  }

  lemma Reciprocal(n: nat, root: real, p: real)
    requires n >= 1 && root >= 1.0 && root * root == n as real && p == 1.0 / root
    ensures 0.0 <= 1.0 - p < 1.0
    ensures 1.0 - p >= 0.5 <==> n >= 4
  {
    assert p * root == 1.0;
    if root >= 2.0 {
      assert root * root >= 4.0;
      assert p <= 0.5;
    } else {
      assert root * root < 4.0;
      assert p > 0.5;
    }
  }

  // The level that the position in the sorted order brings.
  function LevelAt(n: nat, r: nat, position: nat): nat {
    if position < n - r then 0 else if position < n - 1 then 1 else 2
  }

  // How many positions receive a level.
  function AssignedOf(n: nat): nat {
    if n >= 4 || n == 0 then n else n - 1
  }

  // The levels after the draw: position by position for those that receive one.
  ghost predicate Drawn(before: seq<nat>, after: seq<nat>, indexes: seq<nat>, r: nat) {
    && |before| == |after| == |indexes| && IsPermutation(indexes)
    && (forall i :: 0 <= i < AssignedOf(|indexes|) ==> after[indexes[i]] == LevelAt(|indexes|, r, i))
    && forall i :: AssignedOf(|indexes|) <= i < |indexes| ==> after[indexes[i]] == before[indexes[i]]
  }

  ghost function LevelsOf(all: LocalityNodes): (levels: seq<nat>)
    reads all.Nodes()
    ensures |levels| == |all.All| && forall v :: 0 <= v < |levels| ==> levels[v] == all.All[v].Level
  {
    seq(|all.All|, v requires 0 <= v < |all.All| reads all.Nodes() =>
          assert all.All[v] in all.Nodes();
          all.All[v].Level)
  }

  // The first k positions have their levels, the others are as before.
  ghost predicate DrawnUpTo(all: LocalityNodes, before: seq<nat>, indexes: seq<nat>, r: nat, k: nat)
    requires IsPermutation(indexes) && |indexes| == |all.All| == |before|
    reads all.Nodes()
  {
    && k <= |indexes|
    && (forall i :: 0 <= i < k ==> all.All[indexes[i]].Level == LevelAt(|indexes|, r, i))
    && forall i :: k <= i < |indexes| ==> all.All[indexes[i]].Level == before[indexes[i]]
  }

  // The inner loop: the next nSelected positions get level l.
  method Promote(all: LocalityNodes, order: array<nat>, first: nat, nSelected: int, l: nat, ghost before: seq<nat>,
          ghost r: nat)
    returns (k: nat)
    requires all.Ordered() && order.Length == |all.All| == |before| && IsPermutation(order[..])
    requires nSelected >= 0 && first + nSelected <= order.Length
    requires forall i :: first <= i < first + nSelected ==> LevelAt(order.Length, r, i) == l
    requires DrawnUpTo(all, before, order[..], r, first)
    modifies all.Nodes()`Level
    ensures k == first + nSelected && DrawnUpTo(all, before, order[..], r, k)
  {
    k := first;
    for i := 0 to nSelected
      invariant k == first + i && DrawnUpTo(all, before, order[..], r, k)
    {
      assert order[..][k] == order[k];
      all.All[order[k]].Level := l;
      k := k + 1;
    }
  }

  // The number of nodes selected for level l.
  method Selected(n: nat, probability: real, l: nat) returns (nSelected: int)
    requires l < NR_LEVELS && Share(n, probability, l) >= 0.0
    ensures nSelected == Round(Share(n, probability, l))
  {
    var reduceFactor := 1.0;
    if l != NR_LEVELS {
      reduceFactor := 1.0 - probability;
    }
    nSelected := Round(reduceFactor * Pow(probability, l) * n as real);
  }

  lemma BlockLevel(n: nat, r: nat, l: nat)
    requires 1 <= r <= n && l < 3
    ensures StartOf(n, r, l) <= StartOf(n, r, l + 1) <= n
    ensures forall i :: StartOf(n, r, l) <= i < StartOf(n, r, l + 1) ==> LevelAt(n, r, i) == l
  {
  }

  // The outer loop, for shares known to round to whole blocks of positions.
  method DrawLevels(all: LocalityNodes, order: array<nat>, probability: real, ghost before: seq<nat>, ghost r: nat)
    requires all.Ordered() && order.Length == |all.All| == |before| && IsPermutation(order[..])
    requires 1 <= r <= order.Length && DrawnUpTo(all, before, order[..], r, 0)
    requires SharesRound(order.Length, probability, r)
    modifies all.Nodes()`Level
    ensures DrawnUpTo(all, before, order[..], r, AssignedOf(order.Length))
  {
    var n := order.Length;
    var k := 0;
    for l := 0 to NR_LEVELS
      invariant k == StartOf(n, r, l) && DrawnUpTo(all, before, order[..], r, k)
    {
      var nSelected := Selected(n, probability, l);
      BlockLevel(n, r, l);
      k := Promote(all, order, k, nSelected, l, before, r);
    }
  }

  // root stands for the square root that math.Pow returns.
  method SetLevels(all: LocalityNodes, lotteryResults: seq<real>, swaps: seq<(nat, nat)>, root: real)
    returns (ghost indexes: seq<nat>, ghost r: nat)
    requires all.Ordered() && |lotteryResults| == |all.All| >= 1
    requires InRange(swaps, |all.All|) && Sorted(Applied(lotteryResults, swaps))
    requires root > 0.0 && root * root == |all.All| as real
    modifies all.Nodes()`Level
    ensures indexes == Applied(Identity(|all.All|), swaps) && NearestRoot(|all.All|, r) && 1 <= r <= |all.All|
    ensures Drawn(old(LevelsOf(all)), LevelsOf(all), indexes, r)
  {
    var probability := 1.0 / root;
    var order := IndexesOfSortedValues(lotteryResults, swaps);
    SwapsTrack(lotteryResults, swaps);
    r := RoundedCounts(|all.All|, root, probability);
    indexes := order[..];
    DrawLevels(all, order, probability, LevelsOf(all), r);
  }

  // Every node has a position in the sorted order.
  lemma {:induction false} PositionOf(n: nat, swaps: seq<(nat, nat)>, a: nat) returns (i: nat)
    requires InRange(swaps, n) && a < n
    ensures i < n && Applied(Identity(n), swaps)[i] == a
  {
    if swaps == [] {
      i := a;
    } else {
      var last := swaps[|swaps| - 1];
      i := PositionOf(n, swaps[..|swaps| - 1], a);
      i := if i == last.0 then last.1 else if i == last.1 then last.0 else i;
    }
  }

  // A strictly larger draw never brings a smaller level.
  ghost predicate FollowsDraws(draws: seq<real>, levels: seq<nat>)
    requires |draws| == |levels|
  {
    forall a, b :: 0 <= a < |draws| && 0 <= b < |draws| && draws[a] < draws[b] ==> levels[a] <= levels[b]
  }

  ghost predicate Draw(draws: seq<real>, swaps: seq<(nat, nat)>, before: seq<nat>, after: seq<nat>, r: nat) {
    && |draws| >= 1 && |before| == |after| == |draws|
    && InRange(swaps, |draws|) && Sorted(Applied(draws, swaps)) && NearestRoot(|draws|, r) && r >= 1
    && Drawn(before, after, Applied(Identity(|draws|), swaps), r)
  }

  lemma LargerDrawComesLater(draws: seq<real>, swaps: seq<(nat, nat)>, a: nat, b: nat) returns (i: nat, j: nat)
    requires InRange(swaps, |draws|) && Sorted(Applied(draws, swaps))
    requires a < |draws| && b < |draws| && draws[a] < draws[b]
    ensures i < j < |draws| && Applied(Identity(|draws|), swaps)[i] == a && Applied(Identity(|draws|), swaps)[j] == b
  {
    SwapsTrack(draws, swaps);
    i := PositionOf(|draws|, swaps, a);
    j := PositionOf(|draws|, swaps, b);
  }

  lemma LevelsFollowDraws(draws: seq<real>, swaps: seq<(nat, nat)>, before: seq<nat>, after: seq<nat>, r: nat)
    requires Draw(draws, swaps, before, after, r) && |draws| >= 4
    ensures FollowsDraws(draws, after)
  {
    forall a, b | 0 <= a < |draws| && 0 <= b < |draws| && draws[a] < draws[b]
      ensures after[a] <= after[b]
    {
      var i, j := LargerDrawComesLater(draws, swaps, a, b);
    }
  }

  // Whatever the levels before, those after follow the draws for every number of
  // nodes but three. For three they do exactly when the two largest draws are equal
  // or the node with the largest, which keeps its level, was above level 0 already.
  lemma LevelsFollowDrawsExactly(draws: seq<real>, swaps: seq<(nat, nat)>, before: seq<nat>, after: seq<nat>, r: nat)
    requires Draw(draws, swaps, before, after, r)
    ensures FollowsDraws(draws, after) <==> |draws| != 3 || LargestKeepsUp(draws, swaps, before)
  {
    var n := |draws|;
    if n >= 4 {
      LevelsFollowDraws(draws, swaps, before, after, r);
    } else if n == 3 {
      ThreeNodes(draws, swaps, before, after, r);
    } else if n == 2 {
      TwoNodes(draws, swaps, before, after, r);
    }
  }

  // Of three draws.
  ghost predicate LargestKeepsUp(draws: seq<real>, swaps: seq<(nat, nat)>, before: seq<nat>)
    requires |draws| == |before| == 3 && InRange(swaps, 3) && IsPermutation(Applied(Identity(3), swaps))
  {
    Applied(draws, swaps)[1] == Applied(draws, swaps)[2] || before[Applied(Identity(3), swaps)[2]] >= 1
  }

  lemma TwoNodes(draws: seq<real>, swaps: seq<(nat, nat)>, before: seq<nat>, after: seq<nat>, r: nat)
    requires Draw(draws, swaps, before, after, r) && |draws| == 2
    ensures FollowsDraws(draws, after)
  {
    SmallRoot(2, r);
    forall a, b | 0 <= a < 2 && 0 <= b < 2 && draws[a] < draws[b]
      ensures after[a] <= after[b]
    {
      var i, j := LargerDrawComesLater(draws, swaps, a, b);
    }
  }

  lemma ThreeNodes(draws: seq<real>, swaps: seq<(nat, nat)>, before: seq<nat>, after: seq<nat>, r: nat)
    requires Draw(draws, swaps, before, after, r) && |draws| == 3
    ensures FollowsDraws(draws, after) <==> LargestKeepsUp(draws, swaps, before)
  {
    var indexes := Applied(Identity(3), swaps);
    SmallRoot(3, r);
    SwapsTrack(draws, swaps);
    assert after[indexes[0]] == 0 && after[indexes[1]] == 1 && after[indexes[2]] == before[indexes[2]];
    assert Applied(draws, swaps)[1] <= Applied(draws, swaps)[2];
    forall a, b | 0 <= a < 3 && 0 <= b < 3 && draws[a] < draws[b] && after[a] > after[b]
      ensures !LargestKeepsUp(draws, swaps, before)
    {
      var i, j := LargerDrawComesLater(draws, swaps, a, b);
    }
  }

  lemma SmallRoot(n: nat, r: nat)
    requires NearestRoot(n, r) && r >= 1 && 2 <= n <= 3
    ensures r == n - 1
  {
  }

  // The numbers at the positions lo to hi.
  ghost function Between(s: seq<nat>, lo: nat, hi: nat): set<nat>
    requires lo <= hi <= |s|
  {
    set i | lo <= i < hi :: s[i]
  }

  // A slice without repetitions holds as many numbers as it is long.
  lemma {:induction false} SliceSize(s: seq<nat>, lo: nat, hi: nat)
    requires lo <= hi <= |s|
    requires forall i, j :: 0 <= i < j < |s| ==> s[i] != s[j]
    ensures |Between(s, lo, hi)| == hi - lo
  {
    if lo < hi {
      SliceSize(s, lo, hi - 1);
      assert Between(s, lo, hi) == Between(s, lo, hi - 1) + {s[hi - 1]};
      assert s[hi - 1] !in Between(s, lo, hi - 1);
    }
  }

  // The positions lo to hi hold exactly the nodes of level l.
  lemma LevelSlice(draws: seq<real>, swaps: seq<(nat, nat)>, before: seq<nat>, after: seq<nat>, r: nat, l: nat,
          lo: nat, hi: nat)
    requires Draw(draws, swaps, before, after, r) && |draws| >= 4 && lo <= hi <= |draws|
    requires forall i :: 0 <= i < |draws| ==> (LevelAt(|draws|, r, i) == l <==> lo <= i < hi)
    ensures |set v: nat | v < |draws| && after[v] == l| == hi - lo
  {
    var n, indexes := |draws|, Applied(Identity(|draws|), swaps);
    SliceSize(indexes, lo, hi);
    var chosen := Between(indexes, lo, hi);
    forall v: nat
      ensures v < n && after[v] == l <==> v in chosen
    {
      if v < n {
        var i := PositionOf(n, swaps, v);
      }
    }
    assert (set v: nat | v < n && after[v] == l) == chosen;
  }

  lemma RootIsSmaller(n: nat, r: nat)
    requires NearestRoot(n, r) && n >= 4
    ensures r < n
  {
  }

  // The number of nodes at each level, r being the nearest integer to the root.
  lemma LevelCounts(draws: seq<real>, swaps: seq<(nat, nat)>, before: seq<nat>, after: seq<nat>, r: nat)
    requires Draw(draws, swaps, before, after, r) && |draws| >= 4
    ensures r < |draws|
    ensures |set v: nat | v < |draws| && after[v] == 0| == |draws| - r
    ensures |set v: nat | v < |draws| && after[v] == 1| == r - 1
    ensures |set v: nat | v < |draws| && after[v] == 2| == 1
  {
    var n := |draws|;
    RootIsSmaller(n, r);
    LevelSlice(draws, swaps, before, after, r, 0, 0, n - r);
    LevelSlice(draws, swaps, before, after, r, 1, n - r, n - 1);
    LevelSlice(draws, swaps, before, after, r, 2, n - 1, n);
  }
}
