// The input of the region builder and the reference definitions its output is
// measured against: levels, pairwise distances, pivots, bunches and clusters.

module Values {

  datatype Option<+T> = None | Some(value: T)

  // A float64 that is either an ordinary number or math.MaxFloat64.
  datatype Length = Finite(value: real) | Max {

    predicate Below(other: Length) {
      Finite? && (other.Max? || value < other.value)
    }

    predicate AtMost(other: Length) {
      other.Max? || (Finite? && value <= other.value)
    }

    function Plus(other: Length): Length {
      if Finite? && other.Finite? then Finite(value + other.value) else Max
    }
  }
}

module Spaces {
  import opened Values

  // Nodes are "node_0" .. "node_<n-1>" and stand at the index of their name,
  // so a name is its number. dist[u][v] is ComputeDist(u, v).
  datatype Space = Space(levels: seq<nat>, dist: seq<seq<real>>) {

    function Size(): nat {
      |levels|
    }

    ghost predicate Valid() {
      |dist| == |levels| && forall u :: 0 <= u < |dist| ==> |dist[u]| == |levels|
    }

    function D(u: nat, v: nat): real
      requires Valid() && u < Size() && v < Size()
    {
      dist[u][v]
    }

    // Distances that separate nodes: zero to oneself, positive to the others.
    ghost predicate Separated()
      requires Valid()
    {
      forall u, v :: 0 <= u < Size() && 0 <= v < Size() ==> if u == v then D(u, v) == 0.0 else D(u, v) > 0.0
    }

    ghost predicate ZeroToOneself()
      requires Valid()
    {
      forall u :: 0 <= u < Size() ==> D(u, u) == 0.0
    }

    ghost predicate Symmetric()
      requires Valid()
    {
      forall u, v :: 0 <= u < Size() && 0 <= v < Size() ==> D(u, v) == D(v, u)
    }

    // Distinct nodes may be at distance zero.
    ghost predicate Metric()
      requires Valid()
    {
      && ZeroToOneself()
      && Symmetric()
      && forall u, v, w {:trigger D(u, w), D(u, v), D(v, w)} ::
        0 <= u < Size() && 0 <= v < Size() && 0 <= w < Size() ==>
        D(u, w) <= D(u, v) + D(v, w)
    }

    // The bunch as the report defines it: walking away from v, keep every node
    // whose level is not smaller than any level met strictly nearer to v.
    ghost predicate InBunch(v: nat, x: nat)
      requires Valid() && v < Size() && x < Size()
    {
      x != v && forall y :: 0 <= y < Size() && levels[y] > levels[x] ==> D(v, x) <= D(v, y)
    }

    ghost function Bunch(v: nat): set<nat>
      requires Valid() && v < Size()
    {
      set x: nat | x < Size() && InBunch(v, x)
    }

    ghost function Cluster(w: nat): set<nat>
      requires Valid() && w < Size()
    {
      set x: nat | x < Size() && InBunch(x, w)
    }

    // p is the first of the nodes of level at least i that are nearest to v.
    ghost predicate IsPivot(v: nat, i: nat, p: nat)
      requires Valid() && v < Size()
    {
      && p < Size() && levels[p] >= i
      && (forall y :: 0 <= y < Size() && levels[y] >= i ==> D(v, p) <= D(v, y))
      && (forall y :: 0 <= y < p && levels[y] >= i ==> D(v, p) < D(v, y))
    }

    // Every node of level two or more is its own pivot at level one: no other node
    // of level one or more is nearer to it, nor as near and before it.
    ghost predicate OwnPivots()
      requires Valid()
    {
      forall v :: 0 <= v < Size() && levels[v] >= 2 ==> IsPivot(v, 1, v)
    }

    // Distances over which no query runs out of rows, whatever the number of rows.
    ghost predicate Answerable()
      requires Valid()
    {
      Metric() || OwnPivots()
    }

    // Entry i of PDist and ADist at node v.
    ghost predicate PivotEntry(v: nat, i: nat, p: Option<nat>, a: Length)
      requires Valid() && v < Size()
    {
      match p
      case None => a == Max && forall y :: 0 <= y < Size() ==> levels[y] < i
      case Some(w) => IsPivot(v, i, w) && a == Finite(D(v, w))
    }

    ghost predicate PivotRow(v: nat, p: seq<Option<nat>>, a: seq<Length>)
      requires Valid() && v < Size()
    {
      |p| == |a| && forall i :: 0 <= i < |p| ==> PivotEntry(v, i, p[i], a[i])
    }

    // The highest occupied level.
    ghost predicate TopLevel(m: nat) {
      (forall y :: 0 <= y < Size() ==> levels[y] <= m) && exists y :: 0 <= y < Size() && levels[y] == m
    }
  }

  // No node is at level k or above.
  ghost predicate Below(s: Space, k: nat) {
    forall y :: 0 <= y < s.Size() ==> s.levels[y] < k
  }

  // Bunch and cluster are dual, and a node is in neither of its own.
  lemma BunchClusterDual(s: Space, v: nat, w: nat)
    requires s.Valid() && v < s.Size() && w < s.Size()
    ensures w in s.Bunch(v) <==> v in s.Cluster(w)
    ensures v !in s.Bunch(v) && v !in s.Cluster(v)
  {
  }

  // Every pivot other than the node itself lies in the bunch.
  lemma PivotInBunch(s: Space, v: nat, i: nat, p: nat)
    requires s.Valid() && v < s.Size() && s.IsPivot(v, i, p)
    ensures p == v || s.InBunch(v, p)
  {
  }

  // A node that has risen above a level from one on is its own pivot there.
  lemma OwnPivot(s: Space, v: nat, i: nat, p: nat)
    requires s.Valid() && s.OwnPivots() && v < s.Size() && 1 <= i < s.levels[v] && s.IsPivot(v, i, p)
    ensures p == v
  {
    assert s.IsPivot(v, 1, v);
  }

  // Distinct nodes at positive distance are enough, whatever the distances.
  lemma SeparatedIsAnswerable(s: Space)
    requires s.Valid() && s.Separated()
    ensures s.Answerable()
  {
    assert forall v, y :: 0 <= v < s.Size() && 0 <= y < s.Size() ==>
      if v == y then s.D(v, y) == 0.0 else s.D(v, y) > 0.0;
  }

  lemma TopLevelExists(s: Space) returns (m: nat)
    requires s.Size() > 0
    ensures s.TopLevel(m)
  {
    m := s.levels[0];
    for j := 1 to s.Size()
      invariant forall y :: 0 <= y < j ==> s.levels[y] <= m
      invariant exists y :: 0 <= y < j && s.levels[y] == m
    {
      if s.levels[j] > m {
        m := s.levels[j];
      }
    }
  }

  lemma DistanceNotNegative(s: Space, u: nat, v: nat)
    requires s.Valid() && s.Metric() && u < s.Size() && v < s.Size()
    ensures s.D(u, v) >= 0.0
  {
    assert s.D(u, u) <= s.D(u, v) + s.D(v, u) && s.D(u, v) == s.D(v, u);
  }

  // n times x, by repeated addition.
  ghost function Times(n: nat, x: real): real {
    if n == 0 then 0.0 else Times(n - 1, x) + x
  }

  lemma {:induction false} TimesIsProduct(n: nat, x: real)
    ensures Times(n, x) == n as real * x
  {
    if n > 0 {
      TimesIsProduct(n - 1, x);
    }
  }

  lemma {:induction false} TimesMonotone(m: nat, n: nat, x: real)
    requires m <= n && x >= 0.0
    ensures Times(m, x) <= Times(n, x)
  {
    if m < n {
      TimesMonotone(m, n - 1, x);
    }
  }

  lemma {:induction false} TimesTwice(m: nat, x: real)
    ensures Times(2 * m + 1, x) == Times(m, x) + Times(m, x) + x
  {
    if m > 0 {
      TimesTwice(m - 1, x);
      assert Times(2 * m + 1, x) == Times(2 * (m - 1) + 1, x) + x + x;
    }
  }

  // A node of the highest occupied level is in the bunch of every other node.
  lemma TopLevelInEveryBunch(s: Space, m: nat, t: nat, v: nat)
    requires s.Valid() && s.TopLevel(m) && t < s.Size() && s.levels[t] == m && v < s.Size() && v != t
    ensures s.InBunch(v, t)
  {
    assert s.InBunch(v, t);
  }
}
