// When pruning can take the graph apart: the pivot links hold it together, the
// report of the bridges does not always.

module OnePiece {
  import opened Values
  import opened Spaces
  import opened LocalityGraph
  import opened Connectivity
  import opened Bridges
  import opened BridgeReports
  import opened KeptLinks

  ghost predicate InOnePiece(g: Neighbours) {
    forall x, y :: 0 <= x < |g| && 0 <= y < |g| ==> Reachable(g, x, y)
  }

  // The graph that a collection of links makes.
  ghost function Joined(l: Links): (g: Neighbours)
    requires |l.bunches| == |l.clusters|
    ensures l.Joins(g)
  {
    seq(|l.bunches|, v requires 0 <= v < |l.bunches| => l.bunches[v] + l.clusters[v])
  }

  lemma JoinedUndirected(l: Links)
    requires Dual(l) && NoneToItself(l)
    ensures Undirected(Joined(l))
  {
    var g := Joined(l);
    forall x, y | 0 <= x < |g| && y in g[x]
      ensures y < |g| && y != x && x in g[y]
    {
      assert y in l.bunches[x] || y in l.clusters[x];
    }
  }

  ghost predicate NoneToItself(l: Links) {
    forall v :: 0 <= v < |l.bunches| ==> v !in l.bunches[v]
  }

  // The links that pruning may leave: all those to pivots, whatever else is lost.
  ghost predicate MayBeLeft(s: Space, levels: nat, l: Links)
    requires s.Valid()
  {
    && Dual(l) && |l.bunches| == s.Size()
    && (forall v :: 0 <= v < s.Size() ==> l.bunches[v] <= s.Bunch(v))
    && forall v, p :: 0 <= v < s.Size() && HasPivot(s, levels, v, p) && p != v ==> p in l.bunches[v]
  }

  lemma PrunedMayBeLeft(all: LocalityNodes, s: Space, levels: nat)
    requires Pruned(all, s, levels)
    ensures MayBeLeft(s, levels, LinksOf(all))
  {
    DualLinks(all, s, levels);
    forall v | 0 <= v < s.Size()
      ensures all.All[v].OptimalBunch <= s.Bunch(v)
    {
      assert NodeKept(all, s, levels, v);
    }
    forall v, p | 0 <= v < s.Size() && HasPivot(s, levels, v, p) && p != v
      ensures p in all.All[v].OptimalBunch
    {
      var i :| 0 <= i < levels && s.IsPivot(v, i, p);
      StarSurvives(all, s, levels, i, p, v);
    }
  }

  lemma LeftUndirected(s: Space, levels: nat, l: Links)
    requires s.Valid() && MayBeLeft(s, levels, l)
    ensures NoneToItself(l) && Undirected(Joined(l))
  {
    forall v | 0 <= v < s.Size()
      ensures v !in l.bunches[v]
    {
      assert v !in s.Bunch(v);
    }
    JoinedUndirected(l);
  }

  // The links to the pivots alone.
  ghost function PivotLinks(s: Space, levels: nat): (l: Links)
    requires s.Valid()
    ensures |l.bunches| == |l.clusters| == s.Size()
  {
    Links(seq(s.Size(), v requires 0 <= v < s.Size() => set p: nat | p < s.Size() && IsOther(s, levels, v, p)),
          seq(s.Size(), p requires 0 <= p < s.Size() => set v: nat | v < s.Size() && IsOther(s, levels, v, p)))
  }

  ghost predicate IsOther(s: Space, levels: nat, v: nat, p: nat)
    requires s.Valid() && v < s.Size()
  {
    HasPivot(s, levels, v, p) && p != v
  }

  ghost predicate PivotsConnect(s: Space, levels: nat)
    requires s.Valid()
  {
    InOnePiece(Joined(PivotLinks(s, levels)))
  }

  lemma PivotLinksMayBeLeft(s: Space, levels: nat)
    requires s.Valid()
    ensures MayBeLeft(s, levels, PivotLinks(s, levels))
  {
    var l := PivotLinks(s, levels);
    forall v, p | 0 <= v < s.Size() && HasPivot(s, levels, v, p) && p != v
      ensures p in l.bunches[v] && p in s.Bunch(v)
    {
      var i :| 0 <= i < levels && s.IsPivot(v, i, p);
      PivotInBunch(s, v, i, p);
    }
  }

  lemma PivotLinksLeft(s: Space, levels: nat, l: Links)
    requires s.Valid() && MayBeLeft(s, levels, l)
    ensures Subgraph(Joined(PivotLinks(s, levels)), Joined(l))
  {
    var g', g := Joined(PivotLinks(s, levels)), Joined(l);
    forall x, y | 0 <= x < |g'| && y in g'[x]
      ensures y in g[x]
    {
      assert IsOther(s, levels, x, y) || (y < s.Size() && IsOther(s, levels, y, x));
    }
  }

  lemma MorePaths(g': Neighbours, g: Neighbours, x: nat, y: nat)
    requires Subgraph(g', g) && Reachable(g', x, y)
    ensures Reachable(g, x, y)
  {
    var p :| IsPath(g', x, x, p) && p[0] == x && p[|p| - 1] == y;
    forall i | 0 <= i < |p| - 1
      ensures Step(g, x, x, p[i], p[i + 1])
    {
      assert Step(g', x, x, p[i], p[i + 1]);
    }
    assert IsPath(g, x, x, p);
  }

  // Whatever pruning leaves is in one piece exactly when the pivots alone connect
  // the nodes.
  lemma OnePieceExactly(s: Space, levels: nat)
    requires s.Valid()
    ensures (forall l :: MayBeLeft(s, levels, l) ==> InOnePiece(Joined(l))) <==> PivotsConnect(s, levels)
  {
    PivotLinksMayBeLeft(s, levels);
    if PivotsConnect(s, levels) {
      forall l | MayBeLeft(s, levels, l)
        ensures InOnePiece(Joined(l))
      {
        PivotLinksLeft(s, levels, l);
        forall x, y | 0 <= x < s.Size() && 0 <= y < s.Size()
          ensures Reachable(Joined(l), x, y)
        {
          MorePaths(Joined(PivotLinks(s, levels)), Joined(l), x, y);
        }
      }
    }
  }

  // So the graph of the nodes stays in one piece where the pivots connect them.
  lemma StaysInOnePiece(all: LocalityNodes, s: Space, levels: nat, g: Neighbours)
    requires Pruned(all, s, levels) && IsGraph(all, g) && PivotsConnect(s, levels)
    ensures InOnePiece(g)
  {
    PrunedMayBeLeft(all, s, levels);
    OnePieceExactly(s, levels);
    assert g == Joined(LinksOf(all));
  }

  // One node at the top level in use is enough.
  lemma OneTopNodeConnects(s: Space, levels: nat, m: nat, t: nat)
    requires s.Valid() && s.TopLevel(m) && m < levels
    requires t < s.Size() && s.levels[t] == m && forall y :: 0 <= y < s.Size() && s.levels[y] == m ==> y == t
    ensures PivotsConnect(s, levels)
  {
    var l := PivotLinks(s, levels);
    var g := Joined(l);
    forall v | 0 <= v < s.Size() && v != t
      ensures Edge(g, v, t) && Edge(g, t, v)
    {
      assert s.IsPivot(v, m, t);
      assert t in l.bunches[v] && v in l.clusters[t];
    }
    forall x, y | 0 <= x < s.Size() && 0 <= y < s.Size()
      ensures Reachable(g, x, y)
    {
      var p := if x == y then [x] else if x == t || y == t then [x, y] else [x, t, y];
      assert IsPath(g, x, x, p);
    }
  }

  // The links after the node b has left the bunch of a.
  ghost function Less(l: Links, a: nat, b: nat): Links
    requires Dual(l) && a < |l.bunches| && b in l.bunches[a]
  {
    Links(l.bunches[a := l.bunches[a] - {b}], l.clusters[b := l.clusters[b] - {a}])
  }

  ghost predicate Cuts(g: Neighbours, g': Neighbours) {
    exists x, y :: Reachable(g, x, y) && !Reachable(g', x, y)
  }

  lemma LessJoins(l: Links, a: nat, b: nat)
    requires Dual(l) && NoneToItself(l) && a < |l.bunches| && b in l.bunches[a]
    ensures Dual(Less(l, a, b)) && Subgraph(Joined(Less(l, a, b)), Joined(l))
    ensures if a in l.bunches[b] then Joined(Less(l, a, b)) == Joined(l)
            else forall x, y :: Edge(Joined(Less(l, a, b)), x, y) <==> Step(Joined(l), a, b, x, y)
  {
    var l', g, g' := Less(l, a, b), Joined(l), Joined(Less(l, a, b));
    forall x: nat, y: nat | x < |g|
      ensures y in l'.bunches[x] <==> y in l.bunches[x] && !(x == a && y == b)
      ensures y in l'.clusters[x] <==> y in l.clusters[x] && !(x == b && y == a)
    {
    }
    if a in l.bunches[b] {
      assert a in l.clusters[b] && b in l.clusters[a];
      forall x | 0 <= x < |g|
        ensures g'[x] == g[x]
      {
      }
    }
  }

  // Along steps that avoid the edge {a, b}, nothing is lost unless it is a bridge.
  lemma AroundTheEdge(g: Neighbours, a: nat, b: nat, x: nat, y: nat)
    requires Undirected(g) && Edge(g, a, b) && PathAvoiding(g, a, b, a, b) && x < |g| && Reachable(g, x, y)
    ensures PathAvoiding(g, a, b, x, y)
  {
    ConnectedIsPath(g, a, b, x, y);
    ConnectedIsPath(g, x, x, x, y);
    ConnectedIsPath(g, a, b, a, b);
    ConnectedSymmetric(g, a, b, a, b);
    forall c: set<nat> | x in c && Closed(g, a, b, c)
      ensures y in c
    {
      assert a in c <==> b in c;
      assert Closed(g, x, x, c);
    }
  }

  // A removal parts nodes exactly when the link is a bridge and is not kept in the
  // other direction.
  lemma RemovalCutsExactly(l: Links, a: nat, b: nat)
    requires Dual(l) && NoneToItself(l) && a < |l.bunches| && b in l.bunches[a]
    ensures Cuts(Joined(l), Joined(Less(l, a, b))) <==> IsBridge(Joined(l), a, b) && a !in l.bunches[b]
  {
    var g, g' := Joined(l), Joined(Less(l, a, b));
    LessJoins(l, a, b);
    JoinedUndirected(l);
    if a !in l.bunches[b] {
      if IsBridge(g, a, b) {
        BridgeCuts(g, g', a, b);
      } else {
        forall x, y | Reachable(g, x, y)
          ensures Reachable(g', x, y)
        {
          StillReachable(g, g', a, b, x, y);
        }
      }
    }
  }

  lemma BridgeCuts(g: Neighbours, g': Neighbours, a: nat, b: nat)
    requires Undirected(g) && IsBridge(g, a, b) && forall x, y :: Edge(g', x, y) <==> Step(g, a, b, x, y)
    ensures Reachable(g, a, b) && !Reachable(g', a, b)
  {
    assert IsPath(g, a, a, [a, b]);
    if p :| IsPath(g', a, a, p) && p[0] == a && p[|p| - 1] == b {
      forall i | 0 <= i < |p| - 1
        ensures Step(g, a, b, p[i], p[i + 1])
      {
        assert Step(g', a, a, p[i], p[i + 1]);
      }
      assert IsPath(g, a, b, p);
    }
  }

  lemma StillReachable(g: Neighbours, g': Neighbours, a: nat, b: nat, x: nat, y: nat)
    requires Undirected(g) && Edge(g, a, b) && !IsBridge(g, a, b) && Reachable(g, x, y)
    requires forall v, w :: Edge(g', v, w) <==> Step(g, a, b, v, w)
    ensures Reachable(g', x, y)
  {
    if x < |g| {
      AroundTheEdge(g, a, b, x, y);
    } else {
      FromOutside(g, x, y);
      assert IsPath(g', x, x, [x]);
      return;
    }
    var p :| IsPath(g, a, b, p) && p[0] == x && p[|p| - 1] == y;
    forall i | 0 <= i < |p| - 1
      ensures Step(g', x, x, p[i], p[i + 1])
    {
      assert Step(g, a, b, p[i], p[i + 1]);
    }
    assert IsPath(g', x, x, p);
  }

  lemma FromOutside(g: Neighbours, x: nat, y: nat)
    requires x >= |g| && Reachable(g, x, y)
    ensures y == x
  {
    var p :| IsPath(g, x, x, p) && p[0] == x && p[|p| - 1] == y;
    assert |p| > 1 ==> Step(g, x, x, p[0], p[1]);
  }

  // Nothing keeps the node b in the bunch of a: it is no pivot, and the report of
  // the bridges, from a search in these orders, does not name the link.
  ghost predicate LetsGo(s: Space, levels: nat, l: Links, root: nat, a: nat, b: nat, orders: Orders)
    requires s.Valid() && MayBeLeft(s, levels, l) && a < s.Size() && root < s.Size()
  {
    LeftUndirected(s, levels, l);
    && b in l.bunches[a] && !HasPivot(s, levels, a, b)
    && OrdersOf(Joined(l), orders) && (a, b) !in BridgesFound(Joined(l), orders, root)
  }

  // A graph in one piece can fall apart with the link from a to b, in some order of
  // search, exactly when b is no pivot of a, the link is kept in this direction only,
  // and it is a bridge that leaves a node behind.
  lemma FallsApartExactly(s: Space, levels: nat, l: Links, root: nat, a: nat, b: nat)
    requires s.Valid() && MayBeLeft(s, levels, l) && InOnePiece(Joined(l))
    requires root < s.Size() && a < s.Size() && b in l.bunches[a]
    ensures (exists orders :: LetsGo(s, levels, l, root, a, b, orders)) && !InOnePiece(Joined(Less(l, a, b)))
       <==> !HasPivot(s, levels, a, b) && a !in l.bunches[b] && exists x :: LeavesBehind(Joined(l), root, a, b, x)
  {
    var g, g' := Joined(l), Joined(Less(l, a, b));
    LeftUndirected(s, levels, l);
    RemovalCutsExactly(l, a, b);
    LessJoins(l, a, b);
    CutsOnePiece(g, g');
    assert Reachable(g, root, a);
    if IsBridge(g, a, b) {
      UnreportedExactly(g, root, a, b);
      if orders :| OrdersOf(g, orders) && (a, b) !in BridgesFound(g, orders, root) && !HasPivot(s, levels, a, b) {
        assert LetsGo(s, levels, l, root, a, b, orders);
      }
      if orders :| LetsGo(s, levels, l, root, a, b, orders) {
        assert OrdersOf(g, orders) && (a, b) !in BridgesFound(g, orders, root);
      }
    }
  }

  lemma CutsOnePiece(g: Neighbours, g': Neighbours)
    requires Undirected(g) && |g'| == |g| && InOnePiece(g) && Subgraph(g', g)
    ensures InOnePiece(g') <==> !Cuts(g, g')
  {
    if x: nat, y: nat :| Reachable(g, x, y) && !Reachable(g', x, y) {
      if x >= |g| {
        FromOutside(g, x, y);
        assert IsPath(g', x, x, [x]);
      } else {
        StaysInside(g, x, y);
      }
    }
  }

  lemma StaysInside(g: Neighbours, x: nat, y: nat)
    requires Undirected(g) && x < |g| && Reachable(g, x, y)
    ensures y < |g|
  {
    var p :| IsPath(g, x, x, p) && p[0] == x && p[|p| - 1] == y;
    assert |p| > 1 ==> Step(g, x, x, p[|p| - 2], p[|p| - 1]);
  }

  // Two nodes of the top level and one below them: with the two links of the third
  // left and that node as root, the link to the further one can go, and the graph
  // falls apart.
  lemma TwoStarsFallApart(s: Space, l: Links)
    requires s.Valid() && s.levels == [1, 1, 0] && s.Separated() && s.D(2, 0) <= s.D(2, 1)
    requires l == Links([{}, {}, {0, 1}], [{2}, {2}, {}])
    ensures MayBeLeft(s, 2, l) && InOnePiece(Joined(l))
    ensures exists orders :: LetsGo(s, 2, l, 2, 2, 1, orders)
    ensures !InOnePiece(Joined(Less(l, 2, 1)))
  {
    PivotsOfThree(s);
    var g := Joined(l);
    assert g[0] == {2} && g[1] == {2} && g[2] == {0, 1};
    assert 0 in s.Bunch(2) && 1 in s.Bunch(2);
    LeftUndirected(s, 2, l);
    LineInOnePiece(g);
    BridgeByCut(g, 2, 1);
    assert Closed(g, 2, 1, {0, 2});
    ConnectedIsPath(g, 2, 1, 2, 1);
    assert IsPath(g, 2, 2, [2]) && IsPath(g, 2, 1, [2, 0]);
    EndIsDispensable(g);
    assert LeavesBehind(g, 2, 2, 1, 0);
    FallsApartExactly(s, 2, l, 2, 2, 1);
  }

  lemma PivotsOfThree(s: Space)
    requires s.Valid() && s.levels == [1, 1, 0] && s.Separated() && s.D(2, 0) <= s.D(2, 1)
    ensures forall v, p :: 0 <= v < 3 && HasPivot(s, 2, v, p) ==> p == v || (v == 2 && p == 0)
  {
    assert s.D(0, 0) == 0.0 && s.D(1, 1) == 0.0 && s.D(2, 2) == 0.0;
    assert s.D(0, 1) > 0.0 && s.D(0, 2) > 0.0 && s.D(1, 0) > 0.0 && s.D(1, 2) > 0.0;
    assert s.D(2, 0) > 0.0 && s.D(2, 1) > 0.0;
  }

  lemma LineInOnePiece(g: Neighbours)
    requires g == [{2}, {2}, {0, 1}]
    ensures InOnePiece(g)
  {
    forall x, y | 0 <= x < 3 && 0 <= y < 3
      ensures Reachable(g, x, y)
    {
      var p := if x == y then [x] else if x == 2 || y == 2 then [x, y] else [x, 2, y];
      assert IsPath(g, x, x, p);
    }
  }

  lemma EndIsDispensable(g: Neighbours)
    requires g == [{2}, {2}, {0, 1}]
    ensures Dispensable(g, 2, 0)
  {
    forall y: nat | y != 0 && Reachable(g, 2, y)
      ensures ReachableWithout(g, 0, 2, y)
    {
      StaysInside(g, 2, y);
      var p: seq<nat> := if y == 2 then [2] else [2, 1];
      assert PathWithout(g, 0, p, 2, y);
    }
  }
}
