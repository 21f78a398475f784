// Undirected graphs as neighbour sets, and connection after the loss of an edge.

module Connectivity {

  type Neighbours = seq<set<nat>>

  ghost predicate Undirected(g: Neighbours) {
    && (forall x, y :: 0 <= x < |g| && y in g[x] ==> y < |g| && y != x)
    && forall x, y :: 0 <= x < |g| && 0 <= y < |g| && y in g[x] ==> x in g[y]
  }

  ghost predicate Edge(g: Neighbours, x: nat, y: nat) {
    x < |g| && y in g[x]
  }

  // A step along an edge other than {a, b}.
  ghost predicate Step(g: Neighbours, a: nat, b: nat, x: nat, y: nat) {
    Edge(g, x, y) && !(x == a && y == b) && !(x == b && y == a)
  }

  ghost predicate IsPath(g: Neighbours, a: nat, b: nat, p: seq<nat>) {
    p != [] && forall i :: 0 <= i < |p| - 1 ==> Step(g, a, b, p[i], p[i + 1])
  }

  // A path from x to y that does not use the edge {a, b}.
  ghost predicate PathAvoiding(g: Neighbours, a: nat, b: nat, x: nat, y: nat) {
    exists p :: IsPath(g, a, b, p) && p[0] == x && p[|p| - 1] == y
  }

  // A path from x to y. No edge leads from a node to itself, so avoiding {x, x}
  // is no restriction.
  ghost predicate Reachable(g: Neighbours, x: nat, y: nat) {
    PathAvoiding(g, x, x, x, y)
  }

  // A path from r to y that does not pass the node x.
  ghost predicate PathWithout(g: Neighbours, x: nat, p: seq<nat>, r: nat, y: nat) {
    IsPath(g, r, r, p) && x !in p && p[0] == r && p[|p| - 1] == y
  }

  ghost predicate ReachableWithout(g: Neighbours, x: nat, r: nat, y: nat) {
    exists p :: PathWithout(g, x, p, r, y)
  }

  // The removal of x leaves every other node that r reaches within reach.
  ghost predicate Dispensable(g: Neighbours, r: nat, x: nat) {
    forall y :: y != x && Reachable(g, r, y) ==> ReachableWithout(g, x, r, y)
  }

  // The removal of a bridge disconnects its ends.
  ghost predicate IsBridge(g: Neighbours, a: nat, b: nat) {
    Edge(g, a, b) && !PathAvoiding(g, a, b, a, b)
  }

  ghost predicate Closed(g: Neighbours, a: nat, b: nat, s: set<nat>) {
    forall x, y :: x in s && Step(g, a, b, x, y) ==> y in s
  }

  // The same as PathAvoiding, by closed sets instead of paths.
  ghost predicate Connected(g: Neighbours, a: nat, b: nat, x: nat, y: nat) {
    forall s: set<nat> :: x in s && Closed(g, a, b, s) ==> y in s
  }

  lemma {:induction false} PathStaysIn(g: Neighbours, a: nat, b: nat, p: seq<nat>, s: set<nat>)
    requires IsPath(g, a, b, p) && Closed(g, a, b, s) && p[0] in s
    ensures p[|p| - 1] in s
  {
    if |p| > 1 {
      assert Step(g, a, b, p[0], p[1]);
      forall i | 0 <= i < |p| - 2
        ensures Step(g, a, b, p[1..][i], p[1..][i + 1])
      {
        assert Step(g, a, b, p[i + 1], p[i + 2]);
      }
      PathStaysIn(g, a, b, p[1..], s);
    }
  }

  lemma PathExtends(g: Neighbours, a: nat, b: nat, x: nat, y: nat, z: nat)
    requires PathAvoiding(g, a, b, x, y) && Step(g, a, b, y, z)
    ensures PathAvoiding(g, a, b, x, z)
  {
    var p :| IsPath(g, a, b, p) && p[0] == x && p[|p| - 1] == y;
    var q := p + [z];
    forall i | 0 <= i < |q| - 1
      ensures Step(g, a, b, q[i], q[i + 1])
    {
      if i < |p| - 1 {
        assert Step(g, a, b, p[i], p[i + 1]);
      }
    }
    assert IsPath(g, a, b, q) && q[0] == x && q[|q| - 1] == z;
  }

  lemma ConnectedIsPath(g: Neighbours, a: nat, b: nat, x: nat, y: nat)
    requires Undirected(g) && x < |g|
    ensures Connected(g, a, b, x, y) <==> PathAvoiding(g, a, b, x, y)
  {
    if PathAvoiding(g, a, b, x, y) {
      var p :| IsPath(g, a, b, p) && p[0] == x && p[|p| - 1] == y;
      forall s: set<nat> | x in s && Closed(g, a, b, s)
        ensures y in s
      {
        PathStaysIn(g, a, b, p, s);
      }
    }
    if Connected(g, a, b, x, y) {
      var s := set z: nat | z < |g| && PathAvoiding(g, a, b, x, z);
      assert IsPath(g, a, b, [x]);
      forall z, w | z in s && Step(g, a, b, z, w)
        ensures w in s
      {
        PathExtends(g, a, b, x, z, w);
      }
      assert Closed(g, a, b, s);
    }
  }

  lemma ConnectedTransitive(g: Neighbours, a: nat, b: nat, x: nat, y: nat, z: nat)
    requires Connected(g, a, b, x, y) && Connected(g, a, b, y, z)
    ensures Connected(g, a, b, x, z)
  {
  }

  lemma ConnectedSymmetric(g: Neighbours, a: nat, b: nat, x: nat, y: nat)
    requires Undirected(g) && x < |g| && Connected(g, a, b, x, y)
    ensures Connected(g, a, b, y, x)
  {
    forall s: set<nat> | y in s && Closed(g, a, b, s)
      ensures x in s
    {
      var rest := set z: nat | z < |g| && z !in s;
      forall z, w | z in rest && Step(g, a, b, z, w)
        ensures w in rest
      {
        assert Step(g, a, b, w, z);
      }
      assert Closed(g, a, b, rest);
    }
  }

  lemma StepConnects(g: Neighbours, a: nat, b: nat, x: nat, y: nat)
    requires Step(g, a, b, x, y)
    ensures Connected(g, a, b, x, y)
  {
  }

  lemma BridgeByCut(g: Neighbours, a: nat, b: nat)
    requires Undirected(g) && Edge(g, a, b)
    ensures IsBridge(g, a, b) <==> !Connected(g, a, b, a, b)
    ensures IsBridge(g, a, b) <==> IsBridge(g, b, a)
  {
    ConnectedIsPath(g, a, b, a, b);
    ConnectedIsPath(g, b, a, b, a);
    SameCut(g, a, b, a, b);
    if Connected(g, a, b, a, b) {
      ConnectedSymmetric(g, a, b, a, b);
    }
    if Connected(g, a, b, b, a) {
      ConnectedSymmetric(g, a, b, b, a);
    }
    SameCut(g, a, b, b, a);
  }

  lemma SameCut(g: Neighbours, a: nat, b: nat, x: nat, y: nat)
    ensures Connected(g, a, b, x, y) <==> Connected(g, b, a, x, y)
  {
    forall s: set<nat>
      ensures Closed(g, a, b, s) <==> Closed(g, b, a, s)
    {
      assert forall z, w :: Step(g, a, b, z, w) <==> Step(g, b, a, z, w);
    }
  }

  // Every node of t can be reached from r without leaving t.
  ghost predicate Spans(g: Neighbours, t: set<nat>, r: nat) {
    r in t && forall s: set<nat> :: r in s && ClosedWithin(g, t, s) ==> t <= s
  }

  ghost predicate ClosedWithin(g: Neighbours, t: set<nat>, s: set<nat>) {
    forall x, y :: x in s && x in t && y in t && Edge(g, x, y) ==> y in s
  }

  lemma SpansJoin(g: Neighbours, t: set<nat>, r: nat, t': set<nat>, c: nat, a: nat)
    requires Spans(g, t, r) && Spans(g, t', c) && a in t && Edge(g, a, c)
    ensures Spans(g, t + t', r)
  {
    forall s: set<nat> | r in s && ClosedWithin(g, t + t', s)
      ensures t + t' <= s
    {
      assert ClosedWithin(g, t, s) && ClosedWithin(g, t', s);
    }
  }

  // A removed edge that does not lie inside t does not disturb t.
  lemma SpansConnects(g: Neighbours, t: set<nat>, r: nat, a: nat, b: nat, x: nat)
    requires Spans(g, t, r) && x in t && (a !in t || b !in t)
    ensures Connected(g, a, b, r, x)
  {
    forall s: set<nat> | r in s && Closed(g, a, b, s)
      ensures x in s
    {
      forall z, w | z in s && z in t && w in t && Edge(g, z, w)
        ensures w in s
      {
        assert Step(g, a, b, z, w);
      }
      assert ClosedWithin(g, t, s);
    }
  }

  // g' has lost edges of g, and gained none.
  ghost predicate Subgraph(g': Neighbours, g: Neighbours) {
    |g'| == |g| && forall x :: 0 <= x < |g| ==> g'[x] <= g[x]
  }

  // A bridge that is still there stays a bridge when other edges go.
  lemma BridgeSurvives(g: Neighbours, g': Neighbours, a: nat, b: nat)
    requires Subgraph(g', g) && IsBridge(g, a, b) && Edge(g', a, b)
    ensures IsBridge(g', a, b)
  {
    if PathAvoiding(g', a, b, a, b) {
      var p :| IsPath(g', a, b, p) && p[0] == a && p[|p| - 1] == b;
      forall i | 0 <= i < |p| - 1
        ensures Step(g, a, b, p[i], p[i + 1])
      {
        assert Step(g', a, b, p[i], p[i + 1]);
      }
      assert IsPath(g, a, b, p);
    }
  }

  // The nodes of t can be reached from r past any node outside t.
  lemma SpansWithout(g: Neighbours, t: set<nat>, r: nat, x: nat, y: nat)
    requires Undirected(g) && r < |g| && Spans(g, t, r) && x !in t && y in t
    ensures ReachableWithout(g, x, r, y)
  {
    var s := set v: nat | v < |g| && ReachableWithout(g, x, r, v);
    assert PathWithout(g, x, [r], r, r);
    forall v, w | v in s && v in t && w in t && Edge(g, v, w)
      ensures w in s
    {
      var p :| PathWithout(g, x, p, r, v);
      var q := p + [w];
      forall i | 0 <= i < |q| - 1
        ensures Step(g, r, r, q[i], q[i + 1])
      {
        if i < |p| - 1 {
          assert Step(g, r, r, p[i], p[i + 1]);
        }
      }
      assert PathWithout(g, x, q, r, w);
    }
    assert ClosedWithin(g, t, s);
  }
}
