// membershipchainservice/treeservice.go: floydWarshall.

module FloydWarshall {
  import opened Spaces

  // A nested map of distances; a Go map reads 0 for a missing entry.
  type Distances = map<(nat, nat), real>

  function At(m: Distances, i: nat, j: nat): real {
    if (i, j) in m then m[(i, j)] else 0.0
  }

  ghost predicate NonNegative(m: Distances) {
    forall e :: e in m ==> m[e] >= 0.0
  }

  // A walk of at least one step, and its length.
  ghost predicate IsWalk(n: nat, i: nat, j: nat, p: seq<nat>) {
    |p| >= 2 && p[0] == i && p[|p| - 1] == j && forall t :: 0 <= t < |p| ==> p[t] < n
  }

  ghost function WalkLength(m: Distances, p: seq<nat>): real {
    if |p| < 2 then 0.0 else At(m, p[0], p[1]) + WalkLength(m, p[1..])
  }

  // d is the length of some walk from i to j, and of no walk more than that.
  ghost predicate IsShortest(n: nat, m: Distances, i: nat, j: nat, d: real) {
    && (exists p :: IsWalk(n, i, j, p) && WalkLength(m, p) == d)
    && forall p :: IsWalk(n, i, j, p) ==> d <= WalkLength(m, p)
  }

  // The value for i and j once the nodes below k may lie on the way.
  ghost function Via(m: Distances, k: nat, i: nat, j: nat): real
    decreases k
  {
    if k == 0 then At(m, i, j)
    else
      var direct, detour := Via(m, k - 1, i, j), Via(m, k - 1, i, k - 1) + Via(m, k - 1, k - 1, j);
      if direct > detour then detour else direct
  }

  lemma {:induction false} ViaNonNegative(m: Distances, k: nat, i: nat, j: nat)
    requires NonNegative(m)
    ensures Via(m, k, i, j) >= 0.0
    decreases k
  {
    if k > 0 {
      ViaNonNegative(m, k - 1, i, j);
      ViaNonNegative(m, k - 1, i, k - 1);
      ViaNonNegative(m, k - 1, k - 1, j);
    }
  }

  // Round k leaves the entries of row k and column k alone, which is why the
  // relaxation can be done in place.
  lemma RoundKeepsOwnEntries(m: Distances, k: nat, i: nat)
    requires NonNegative(m)
    ensures Via(m, k + 1, i, k) == Via(m, k, i, k)
    ensures Via(m, k + 1, k, i) == Via(m, k, k, i)
  {
    ViaNonNegative(m, k, k, k);
  }

  method FloydWarshall(n: nat, pingDistances: Distances) returns (shortest: Distances)
    requires NonNegative(pingDistances)
    ensures forall i, j :: 0 <= i < n && 0 <= j < n ==> At(shortest, i, j) == Via(pingDistances, n, i, j)
    ensures forall i, j :: 0 <= i < n && 0 <= j < n ==> IsShortest(n, pingDistances, i, j, At(shortest, i, j))
  {
    shortest := pingDistances;
    for k := 0 to n
      invariant forall a, b :: 0 <= a < n && 0 <= b < n ==> At(shortest, a, b) == Via(pingDistances, k, a, b)
    {
      ghost var next := k + 1;
      for i := 0 to n
        invariant forall a, b :: 0 <= a < n && 0 <= b < n ==>
          At(shortest, a, b) == Via(pingDistances, if a < i then next else k, a, b)
      {
        for j := 0 to n
          invariant forall a, b :: 0 <= a < n && 0 <= b < n ==>
            At(shortest, a, b) == Via(pingDistances, if a < i || (a == i && b < j) then next else k, a, b)
        {
          RoundKeepsOwnEntries(pingDistances, k, i);
          RoundKeepsOwnEntries(pingDistances, k, j);
          assert At(shortest, i, j) == Via(pingDistances, k, i, j);
          assert At(shortest, i, k) == Via(pingDistances, k, i, k);
          assert At(shortest, k, j) == Via(pingDistances, k, k, j);
          ghost var before := shortest;
          if At(shortest, i, j) > At(shortest, i, k) + At(shortest, k, j) {
            shortest := shortest[(i, j) := At(shortest, i, k) + At(shortest, k, j)];
          }
          assert At(shortest, i, j) == Via(pingDistances, next, i, j);
          assert forall a, b :: 0 <= a < n && 0 <= b < n && !(a == i && b == j) ==>
            At(shortest, a, b) == At(before, a, b);
        }
      }
    }
    forall i, j | 0 <= i < n && 0 <= j < n
      ensures IsShortest(n, pingDistances, i, j, At(shortest, i, j))
    {
      ViaIsShortest(n, pingDistances, i, j);
    }
  }

  // Two walks that meet, end to start.
  function Joined(p: seq<nat>, q: seq<nat>): seq<nat>
    requires q != []
  {
    p + q[1..]
  }

  lemma {:induction false} JoinedLength(m: Distances, p: seq<nat>, q: seq<nat>)
    requires p != [] && q != [] && p[|p| - 1] == q[0]
    ensures WalkLength(m, Joined(p, q)) == WalkLength(m, p) + WalkLength(m, q)
  {
    if |p| == 1 {
      assert Joined(p, q) == q;
    } else {
      assert Joined(p, q)[1..] == Joined(p[1..], q);
      assert Joined(p, q)[0] == p[0] && Joined(p, q)[1] == p[1];
      JoinedLength(m, p[1..], q);
    }
  }

  lemma JoinedIsWalk(n: nat, i: nat, l: nat, j: nat, p: seq<nat>, q: seq<nat>)
    requires IsWalk(n, i, l, p) && IsWalk(n, l, j, q)
    ensures IsWalk(n, i, j, Joined(p, q))
  {
  }

  // Every value is attained by a walk.
  lemma {:induction false} ViaAttained(n: nat, m: Distances, k: nat, i: nat, j: nat) returns (p: seq<nat>)
    requires k <= n && i < n && j < n
    ensures IsWalk(n, i, j, p) && WalkLength(m, p) == Via(m, k, i, j)
    decreases k
  {
    if k == 0 {
      p := [i, j];
      assert WalkLength(m, p[1..]) == 0.0;
    } else if Via(m, k - 1, i, j) > Via(m, k - 1, i, k - 1) + Via(m, k - 1, k - 1, j) {
      var head := ViaAttained(n, m, k - 1, i, k - 1);
      var tail := ViaAttained(n, m, k - 1, k - 1, j);
      p := Joined(head, tail);
      JoinedIsWalk(n, i, k - 1, j, head, tail);
      JoinedLength(m, head, tail);
    } else {
      p := ViaAttained(n, m, k - 1, i, j);
    }
  }

  ghost predicate InnerBelow(p: seq<nat>, k: nat) {
    forall t :: 0 < t < |p| - 1 ==> p[t] < k
  }

  // No walk whose inner nodes lie below k is shorter: it is cut where it first
  // meets node k - 1.
  lemma {:induction false} ViaIsLowerBound(n: nat, m: Distances, k: nat, i: nat, j: nat, p: seq<nat>)
    requires NonNegative(m) && IsWalk(n, i, j, p) && InnerBelow(p, k)
    ensures Via(m, k, i, j) <= WalkLength(m, p)
    decreases k, |p|
  {
    if k == 0 {
      NothingBelowFirst(p);
      assert p == [i, j];
      assert WalkLength(m, p[1..]) == 0.0;
    } else if InnerBelow(p, k - 1) {
      ViaIsLowerBound(n, m, k - 1, i, j, p);
    } else {
      var head, tail := CutAtFirstMeeting(n, m, k, i, j, p);
      ViaIsLowerBound(n, m, k - 1, i, k - 1, head);
      ViaIsLowerBound(n, m, k, k - 1, j, tail);
      RoundKeepsOwnEntries(m, k - 1, j);
    }
  }

  lemma NothingBelowFirst(p: seq<nat>)
    requires |p| >= 2
    ensures |p| == 2 || !InnerBelow(p, 0)
  {
    if |p| > 2 {
      assert p[1] >= 0;
    }
  }

  lemma CutAtFirstMeeting(n: nat, m: Distances, k: nat, i: nat, j: nat, p: seq<nat>)
      returns (head: seq<nat>, tail: seq<nat>)
    requires k > 0 && IsWalk(n, i, j, p) && InnerBelow(p, k) && !InnerBelow(p, k - 1)
    ensures IsWalk(n, i, k - 1, head) && InnerBelow(head, k - 1)
    ensures IsWalk(n, k - 1, j, tail) && InnerBelow(tail, k) && |tail| < |p|
    ensures WalkLength(m, p) == WalkLength(m, head) + WalkLength(m, tail)
  {
    var t := FirstMeeting(p, k);
    head, tail := p[..t + 1], p[t..];
    assert Joined(head, tail) == p;
    JoinedLength(m, head, tail);
  }

  lemma FirstMeeting(p: seq<nat>, k: nat) returns (t: nat)
    requires k > 0 && InnerBelow(p, k) && !InnerBelow(p, k - 1)
    ensures 0 < t < |p| - 1 && p[t] == k - 1 && InnerBelow(p[..t + 1], k - 1)
  {
    t := 1;
    while p[t] != k - 1
      invariant 0 < t < |p| - 1
      invariant forall r :: 0 < r < t ==> p[r] < k - 1
      invariant exists r :: t <= r < |p| - 1 && p[r] == k - 1
      decreases |p| - t
    {
      t := t + 1;
    }
  }

  lemma ViaIsShortest(n: nat, m: Distances, i: nat, j: nat)
    requires NonNegative(m) && i < n && j < n
    ensures IsShortest(n, m, i, j, Via(m, n, i, j))
  {
    var p := ViaAttained(n, m, n, i, j);
    forall q | IsWalk(n, i, j, q)
      ensures Via(m, n, i, j) <= WalkLength(m, q)
    {
      ViaIsLowerBound(n, m, n, i, j, q);
    }
  }

  // Pings of a network: symmetric, zero to oneself, positive to the others.
  ghost predicate Pings(n: nat, m: Distances) {
    && NonNegative(m)
    && forall i, j :: 0 <= i < n && 0 <= j < n ==>
      At(m, i, j) == At(m, j, i) && (if i == j then At(m, i, j) == 0.0 else At(m, i, j) > 0.0)
  }

  function Reversed(p: seq<nat>): seq<nat> {
    if p == [] then [] else Reversed(p[1..]) + [p[0]]
  }

  lemma {:induction false} ReversedWalk(n: nat, m: Distances, p: seq<nat>)
    requires Pings(n, m) && p != [] && forall t :: 0 <= t < |p| ==> p[t] < n
    ensures var q := Reversed(p);
            |q| == |p| && q[0] == p[|p| - 1] && q[|q| - 1] == p[0] && (forall t :: 0 <= t < |q| ==> q[t] < n)
            && WalkLength(m, q) == WalkLength(m, p)
  {
    if |p| > 1 {
      ReversedWalk(n, m, p[1..]);
      var q := Reversed(p[1..]);
      var step := [p[1], p[0]];
      assert q[|q| - 1] == step[0];
      JoinedLength(m, q, step);
      assert Joined(q, step) == Reversed(p);
      assert WalkLength(m, step[1..]) == 0.0;
    }
  }

  lemma {:induction false} WalkPositive(n: nat, m: Distances, i: nat, j: nat, p: seq<nat>)
    requires Pings(n, m) && i != j && IsWalk(n, i, j, p)
    ensures WalkLength(m, p) > 0.0
    decreases |p|
  {
    if p[1] == j {
      WalkNonNegative(m, p[1..]);
    } else {
      assert IsWalk(n, p[1], j, p[1..]);
      WalkPositive(n, m, p[1], j, p[1..]);
    }
  }

  lemma {:induction false} WalkNonNegative(m: Distances, p: seq<nat>)
    requires NonNegative(m)
    ensures WalkLength(m, p) >= 0.0
  {
    if |p| >= 2 {
      WalkNonNegative(m, p[1..]);
    }
  }

  ghost function ShortestMatrix(n: nat, m: Distances): seq<seq<real>> {
    seq(n, i requires 0 <= i < n => seq(n, j requires 0 <= j < n => Via(m, n, i, j)))
  }

  lemma ShortestSeparates(n: nat, m: Distances, u: nat, v: nat)
    requires Pings(n, m) && u < n && v < n
    ensures if u == v then Via(m, n, u, v) == 0.0 else Via(m, n, u, v) > 0.0
  {
    if u != v {
      var p := ViaAttained(n, m, n, u, v);
      WalkPositive(n, m, u, v, p);
    } else {
      ViaNonNegative(m, n, u, u);
      ViaIsLowerBound(n, m, n, u, u, [u, u]);
      assert WalkLength(m, [u, u][1..]) == 0.0;
    }
  }

  lemma ShortestNotLonger(n: nat, m: Distances, u: nat, v: nat)
    requires Pings(n, m) && u < n && v < n
    ensures Via(m, n, u, v) <= Via(m, n, v, u)
  {
    var q := ViaAttained(n, m, n, v, u);
    ReversedWalk(n, m, q);
    ViaIsLowerBound(n, m, n, u, v, Reversed(q));
  }

  lemma ShortestTriangle(n: nat, m: Distances, u: nat, v: nat, w: nat)
    requires Pings(n, m) && u < n && v < n && w < n
    ensures Via(m, n, u, w) <= Via(m, n, u, v) + Via(m, n, v, w)
  {
    var p := ViaAttained(n, m, n, u, v);
    var q := ViaAttained(n, m, n, v, w);
    JoinedLength(m, p, q);
    JoinedIsWalk(n, u, v, w, p, q);
    ViaIsLowerBound(n, m, n, u, w, Joined(p, q));
  }

  // Shortest distances over pings satisfy the triangle inequality even where the
  // pings do not: they are what the bounds on the oracle and the regions ask for.
  // The source builds its regions from the pings themselves.
  lemma ShortestIsMetric(n: nat, m: Distances, levels: seq<nat>)
    requires Pings(n, m) && |levels| == n
    ensures var s := Space(levels, ShortestMatrix(n, m)); s.Valid() && s.Metric() && s.Separated()
  {
    var s := Space(levels, ShortestMatrix(n, m));
    forall u, v | 0 <= u < n && 0 <= v < n
      ensures (if u == v then s.D(u, v) == 0.0 else s.D(u, v) > 0.0) && s.D(u, v) <= s.D(v, u)
    {
      ShortestSeparates(n, m, u, v);
      ShortestNotLonger(n, m, u, v);
    }
    forall u, v, w | 0 <= u < n && 0 <= v < n && 0 <= w < n
      ensures s.D(u, w) <= s.D(u, v) + s.D(v, w)
    {
      ShortestTriangle(n, m, u, v, w);
    }
  }
}
