// When GetBridges of gentree/Save.go returns all the bridges, as its comment has it.

module BridgeReports {
  import opened Values
  import opened Connectivity
  import opened Bridges

  // All the bridges that the root reaches are among those given.
  ghost predicate AllReported(g: Neighbours, root: nat, bridges: set<(nat, nat)>) {
    forall a: nat, b: nat :: IsBridge(g, a, b) && Reachable(g, root, a) ==> (a, b) in bridges
  }

  // On the root's side of the bridge from a to b there is a node x, other than the
  // root, without which the root still reaches whatever else it reaches.
  ghost predicate LeavesBehind(g: Neighbours, root: nat, a: nat, b: nat, x: nat) {
    && IsBridge(g, a, b) && Reachable(g, root, a)
    && x != root && PathAvoiding(g, a, b, root, x) && Dispensable(g, root, x)
  }

  // Only a report on a graph in which some bridge leaves a node behind misses one.
  lemma ReportIsComplete(g: Neighbours, root: nat, last: nat, bridges: set<(nat, nat)>)
    requires Undirected(g) && root < |g| && Reports(g, root, last, bridges)
    requires !exists a, b, x :: LeavesBehind(g, root, a, b, x)
    ensures AllReported(g, root, bridges)
  {
    forall a: nat, b: nat | IsBridge(g, a, b) && Reachable(g, root, a)
      ensures (a, b) in bridges
    {
      if (a, b) !in bridges {
        LastIsLeftBehind(g, root, last, bridges, a, b);
      }
    }
  }

  // The last node of a report that misses a bridge is left behind by it.
  lemma LastIsLeftBehind(g: Neighbours, root: nat, last: nat, bridges: set<(nat, nat)>, a: nat, b: nat)
    requires root < |g| && Reports(g, root, last, bridges)
    requires IsBridge(g, a, b) && Reachable(g, root, a) && (a, b) !in bridges
    ensures LeavesBehind(g, root, a, b, last)
  {
    StaysAtRoot(g, root, a);
  }

  lemma StaysAtRoot(g: Neighbours, root: nat, y: nat)
    requires root < |g| && Reachable(g, root, y)
    ensures g[root] == {} ==> y == root
  {
    if g[root] == {} {
      var p :| IsPath(g, root, root, p) && p[0] == root && p[|p| - 1] == y;
      PathStaysIn(g, root, root, p, {root});
    }
  }

  // One end of a reachable bridge is on the root's side.
  lemma NearEnd(g: Neighbours, root: nat, a: nat, b: nat)
    requires Undirected(g) && root < |g| && Reachable(g, root, a)
    ensures PathAvoiding(g, a, b, root, a) || PathAvoiding(g, a, b, root, b)
  {
    var s := set y: nat | y < |g| && PathAvoiding(g, a, b, root, y);
    assert IsPath(g, a, b, [root]);
    if a !in s && b !in s {
      forall v, w | v in s && Step(g, root, root, v, w)
        ensures w in s
      {
        PathExtends(g, a, b, root, v, w);
      }
      var p :| IsPath(g, root, root, p) && p[0] == root && p[|p| - 1] == a;
      assert Closed(g, root, root, s);
      PathStaysIn(g, root, root, p, s);
    }
  }

  ghost predicate Distinct(p: seq<nat>) {
    forall i, j :: 0 <= i < j < |p| ==> p[i] != p[j]
  }

  // A path without detours.
  lemma {:induction false} WithoutDetours(g: Neighbours, x: nat, p: seq<nat>, r: nat, y: nat) returns (q: seq<nat>)
    requires PathWithout(g, x, p, r, y)
    ensures PathWithout(g, x, q, r, y) && Distinct(q)
    decreases |p|
  {
    if Distinct(p) {
      q := p;
    } else {
      var i, j :| 0 <= i < j < |p| && p[i] == p[j];
      var cut := p[..i] + p[j..];
      forall k | 0 <= k < |cut| - 1
        ensures Step(g, r, r, cut[k], cut[k + 1])
      {
        var k' := if k < i then k else k + (j - i);
        assert Step(g, r, r, p[k'], p[k' + 1]);
        if k + 1 == i {
          assert cut[k + 1] == p[j] == p[k' + 1];
        }
      }
      q := WithoutDetours(g, x, cut, r, y);
    }
  }

  // Prefixes of a path that never take the edge {a, b} avoid it.
  lemma PrefixAvoids(g: Neighbours, p: seq<nat>, n: nat, a: nat, b: nat)
    requires p != [] && n < |p| && forall i :: 0 <= i < |p| - 1 ==> Step(g, p[0], p[0], p[i], p[i + 1])
    requires a !in p[..n + 1] || b !in p[..n + 1]
    ensures PathAvoiding(g, a, b, p[0], p[n])
  {
    var q := p[..n + 1];
    forall i | 0 <= i < |q| - 1
      ensures Step(g, a, b, q[i], q[i + 1])
    {
      assert Step(g, p[0], p[0], p[i], p[i + 1]);
      assert q[i] in q && q[i + 1] in q;
    }
    assert IsPath(g, a, b, q);
  }

  lemma WithoutAvoids(g: Neighbours, root: nat, p: nat, q: nat)
    ensures ReachableWithout(g, p, root, q) ==> PathAvoiding(g, p, q, root, q)
  {
    if path :| PathWithout(g, p, path, root, q) {
      PrefixAvoids(g, path, |path| - 1, p, q);
    }
  }

  // The way a search can take to the bridge from p to q without meeting x.
  ghost predicate LeadsAcross(g: Neighbours, root: nat, p: nat, q: nat, x: nat, way: seq<nat>) {
    && |way| >= 2 && Distinct(way) && way[0] == root && way[|way| - 2] == p && way[|way| - 1] == q && x !in way
    && (forall i :: 0 <= i < |way| - 1 ==> Edge(g, way[i], way[i + 1]))
    && IsBridge(g, p, q) && PathAvoiding(g, p, q, root, x) && PathAvoiding(g, p, q, root, p)
  }

  lemma WayAcross(g: Neighbours, root: nat, p: nat, q: nat, x: nat) returns (way: seq<nat>)
    requires Undirected(g) && root < |g| && LeavesBehind(g, root, p, q, x) && PathAvoiding(g, p, q, root, p)
    ensures LeadsAcross(g, root, p, q, x, way)
  {
    assert Edge(g, p, q) && Reachable(g, root, q) by {
      PathExtendsTo(g, root, p, q);
    }
    FarEndIsFar(g, root, p, q);
    // So x is not the near end, without which the far end is out of reach.
    WithoutAvoids(g, root, p, q);
    var path :| PathWithout(g, x, path, root, p);
    var direct := WithoutDetours(g, x, path, root, p);
    if q in direct {
      var n :| 0 <= n < |direct| && direct[n] == q;
      assert p !in direct[..n + 1];
      PrefixAvoids(g, direct, n, p, q);
    }
    way := direct + [q];
    forall i | 0 <= i < |way| - 1
      ensures Edge(g, way[i], way[i + 1])
    {
      if i < |direct| - 1 {
        assert Step(g, root, root, direct[i], direct[i + 1]);
      }
    }
  }

  lemma PathExtendsTo(g: Neighbours, root: nat, p: nat, q: nat)
    requires Undirected(g) && Reachable(g, root, p) && Edge(g, p, q)
    ensures Reachable(g, root, q)
  {
    PathExtends(g, root, root, root, p, q);
  }

  // Across a bridge the root's side ends.
  lemma FarEndIsFar(g: Neighbours, root: nat, p: nat, q: nat)
    requires Undirected(g) && root < |g| && IsBridge(g, p, q) && PathAvoiding(g, p, q, root, p)
    ensures !PathAvoiding(g, p, q, root, q)
  {
    ConnectedIsPath(g, p, q, root, p);
    ConnectedIsPath(g, p, q, root, q);
    ConnectedIsPath(g, p, q, p, q);
    if PathAvoiding(g, p, q, root, q) {
      ConnectedSymmetric(g, p, q, root, p);
      ConnectedTransitive(g, p, q, p, root, q);
    }
  }

  // Orders that make the search follow the way.
  ghost predicate Follows(orders: Orders, way: seq<nat>) {
    forall i :: 0 <= i < |way| - 1 ==> way[i] < |orders| && orders[way[i]] != [] && orders[way[i]][0] == way[i + 1]
  }

  lemma {:induction false} Listing(kids: set<nat>) returns (order: seq<nat>)
    ensures Lists(order, kids)
  {
    if kids == {} {
      order := [];
    } else {
      var c :| c in kids;
      order := Listing(kids - {c});
      order := order + [c];
    }
  }

  lemma ListingFrom(kids: set<nat>, first: nat) returns (order: seq<nat>)
    requires first in kids
    ensures Lists(order, kids) && order[0] == first
  {
    var rest := Listing(kids - {first});
    order := [first] + rest;
  }

  lemma OrdersAlong(g: Neighbours, way: seq<nat>) returns (orders: Orders)
    requires Undirected(g) && Distinct(way) && forall i :: 0 <= i < |way| - 1 ==> Edge(g, way[i], way[i + 1])
    ensures OrdersOf(g, orders) && Follows(orders, way)
  {
    orders := [];
    for v := 0 to |g|
      invariant |orders| == v && forall u :: 0 <= u < v ==> Lists(orders[u], g[u])
      invariant forall i :: 0 <= i < |way| - 1 && way[i] < v ==> orders[way[i]] != [] && orders[way[i]][0] == way[i + 1]
    {
      var order: seq<nat>;
      if i :| 0 <= i < |way| - 1 && way[i] == v {
        order := ListingFrom(g[v], way[i + 1]);
      } else {
        order := Listing(g[v]);
      }
      orders := orders + [order];
    }
    forall i | 0 <= i < |way| - 1
      ensures way[i] < |orders| && orders[way[i]] != [] && orders[way[i]][0] == way[i + 1]
    {
      assert Edge(g, way[i], way[i + 1]);
    }
  }

  // The bridge from p to q is behind the search, and lost if x has been entered.
  ghost predicate Past(t: Search, p: nat, q: nat, x: nat) {
    p in t.state && q in t.state && (x in t.state ==> (p, q) !in t.bridges && (q, p) !in t.bridges)
  }

  // What is behind the search stays behind, and lost.
  lemma {:induction false} NodeStaysPast(g: Neighbours, orders: Orders, s: Search, a: nat, b: Option<nat>, p: nat,
          q: nat, x: nat)
    requires Undirected(g) && OrdersOf(g, orders) && s.Valid(g) && a < |g| && a !in s.state && Past(s, p, q, x)
    ensures Past(SearchNode(g, orders, s, a, b), p, q, x)
    decreases Unvisited(g, s.state), 0, 0
  {
    UnvisitedShrinks(g, s.state, s.state + {a}, a);
    RestStaysPast(g, orders, Enter(s, a), a, b, 0, p, q, x);
  }

  lemma {:induction false} RestStaysPast(g: Neighbours, orders: Orders, t: Search, a: nat, b: Option<nat>, k: nat,
          p: nat, q: nat, x: nat)
    requires Undirected(g) && OrdersOf(g, orders) && t.Valid(g) && a in t.state && k <= |orders[a]| && Past(t, p, q, x)
    ensures Past(SearchRest(g, orders, t, a, b, k), p, q, x)
    decreases Unvisited(g, t.state), 1, |orders[a]| - k
  {
    if k < |orders[a]| {
      var c := orders[a][k];
      assert Lists(orders[a], g[a]) && c in orders[a];
      if b == Some(c) {
        RestStaysPast(g, orders, t, a, b, k + 1, p, q, x);
      } else if c in t.state {
        RestStaysPast(g, orders, t.(fup := t.fup[a := Min(t.fup[a], t.tin[c])]), a, b, k + 1, p, q, x);
      } else {
        NodeStaysPast(g, orders, t, c, Some(a), p, q, x);
        var u := SearchNode(g, orders, t, c, Some(a));
        UnvisitedShrinks(g, t.state, u.state, c);
        RestStaysPast(g, orders, Back(u, a, c), a, b, k + 1, p, q, x);
      }
    }
  }

  // The search beyond the bridge does not come across x.
  lemma BeyondTheBridge(g: Neighbours, root: nat, orders: Orders, t: Search, p: nat, q: nat, x: nat)
    requires Undirected(g) && OrdersOf(g, orders) && root < |g| && Entering(g, root, t, q, Some(p)) && x !in t.state
    requires IsBridge(g, p, q) && PathAvoiding(g, p, q, root, p) && PathAvoiding(g, p, q, root, x)
    ensures x !in SearchNode(g, orders, t, q, Some(p)).state
  {
    var u := SearchNode(g, orders, t, q, Some(p));
    var z := SearchIsRight(g, root, orders, t, q, Some(p));
    if x in u.state {
      SpansConnects(g, u.state - t.state, q, p, q, x);
      ConnectedIsPath(g, p, q, root, x);
      ConnectedIsPath(g, p, q, root, q);
      ConnectedSymmetric(g, p, q, q, x);
      ConnectedTransitive(g, p, q, root, x, q);
      FarEndIsFar(g, root, p, q);
    }
  }

  // The nodes of the first i steps of the way.
  ghost function Along(way: seq<nat>, i: nat): set<nat>
    requires i <= |way|
  {
    set j | 0 <= j < i :: way[j]
  }

  // From any node on the way, the search gets past the bridge.
  lemma {:induction false} GetsPast(g: Neighbours, root: nat, orders: Orders, way: seq<nat>, i: nat, s: Search,
          b: Option<nat>, p: nat, q: nat, x: nat)
    requires Undirected(g) && OrdersOf(g, orders) && root < |g| && LeadsAcross(g, root, p, q, x, way)
    requires Follows(orders, way)
    requires i < |way| - 1 && s.state == Along(way, i) && b == (if i == 0 then None else Some(way[i - 1]))
    requires Entering(g, root, s, way[i], b)
    ensures Past(SearchNode(g, orders, s, way[i], b), p, q, x)
    decreases |way| - i
  {
    var a, c := way[i], way[i + 1];
    var t := Enter(s, a);
    FirstChild(g, root, orders, way, i, s, b);
    if i == |way| - 2 {
      BeyondTheBridge(g, root, orders, t, p, q, x);
    } else {
      GetsPast(g, root, orders, way, i + 1, t, Some(a), p, q, x);
    }
    BackPast(g, orders, t, a, b, c, p, q, x);
  }

  // The search of a node on the way begins with the next one.
  lemma FirstChild(g: Neighbours, root: nat, orders: Orders, way: seq<nat>, i: nat, s: Search, b: Option<nat>)
    requires Undirected(g) && OrdersOf(g, orders) && root < |g| && Distinct(way) && Follows(orders, way)
    requires i < |way| - 1 && Edge(g, way[i], way[i + 1]) && s.state == Along(way, i)
    requires b == (if i == 0 then None else Some(way[i - 1])) && Entering(g, root, s, way[i], b)
    ensures var t, c := Enter(s, way[i]), way[i + 1];
            && t.state == Along(way, i + 1) && c !in t.state && b != Some(c) && Entering(g, root, t, c, Some(way[i]))
            && orders[way[i]] != [] && orders[way[i]][0] == c
  {
    var a, c := way[i], way[i + 1];
    assert Along(way, i + 1) == Along(way, i) + {a};
    Entered(g, s, a, b);
    EnteringChild(g, root, s, Enter(s, a), a, b, {}, a, c);
  }

  // Back from the first neighbour, whose search has got past the bridge or was the
  // one beyond it.
  lemma BackPast(g: Neighbours, orders: Orders, t: Search, a: nat, b: Option<nat>, c: nat, p: nat, q: nat, x: nat)
    requires Undirected(g) && OrdersOf(g, orders) && t.Valid(g) && a in t.state && c < |g| && c !in t.state
    requires b != Some(c)
    requires orders[a] != [] && orders[a][0] == c
    requires var u := SearchNode(g, orders, t, c, Some(a));
             if a == p && c == q then x !in u.state else a != q && c != q && Past(u, p, q, x)
    ensures Past(SearchRest(g, orders, t, a, b, 0), p, q, x)
  {
    var u := SearchNode(g, orders, t, c, Some(a));
    RestStaysPast(g, orders, Back(u, a, c), a, b, 1, p, q, x);
  }

  // If a bridge leaves a node behind, some order of search loses it.
  lemma SomeOrderMisses(g: Neighbours, root: nat, a: nat, b: nat, x: nat) returns (orders: Orders)
    requires Undirected(g) && root < |g| && LeavesBehind(g, root, a, b, x)
    ensures OrdersOf(g, orders) && (a, b) !in BridgesFound(g, orders, root)
    ensures !AllReported(g, root, BridgesFound(g, orders, root))
  {
    NearEnd(g, root, a, b);
    BridgeByCut(g, a, b);
    var p, q := a, b;
    if !PathAvoiding(g, a, b, root, a) {
      p, q := b, a;
      PathExtendsTo(g, root, a, b);
      OtherWayRound(g, root, a, b, b);
      OtherWayRound(g, root, a, b, x);
    }
    var way := WayAcross(g, root, p, q, x);
    orders := OrdersAlong(g, way);
    var s, t := NotStarted(), SearchNode(g, orders, NotStarted(), root, None);
    GetsPast(g, root, orders, way, 0, s, None, p, q, x);
    var last := SearchIsRight(g, root, orders, s, root, None);
    assert t.state - s.state == t.state;
    ReachesAll(g, t.state, root);
    ConnectedIsPath(g, p, q, root, x);
    AvoidingIsReaching(g, p, q, root, x);
    assert (p, q) !in t.bridges;
  }

  lemma OtherWayRound(g: Neighbours, root: nat, a: nat, b: nat, y: nat)
    requires PathAvoiding(g, a, b, root, y)
    ensures PathAvoiding(g, b, a, root, y)
  {
    var p :| IsPath(g, a, b, p) && p[0] == root && p[|p| - 1] == y;
    forall i | 0 <= i < |p| - 1
      ensures Step(g, b, a, p[i], p[i + 1])
    {
      assert Step(g, a, b, p[i], p[i + 1]);
    }
    assert IsPath(g, b, a, p);
  }

  lemma AvoidingIsReaching(g: Neighbours, a: nat, b: nat, root: nat, y: nat)
    requires Undirected(g) && PathAvoiding(g, a, b, root, y)
    ensures Reachable(g, root, y)
  {
    var p :| IsPath(g, a, b, p) && p[0] == root && p[|p| - 1] == y;
    forall i | 0 <= i < |p| - 1
      ensures Step(g, root, root, p[i], p[i + 1])
    {
      assert Step(g, a, b, p[i], p[i + 1]);
    }
    assert IsPath(g, root, root, p);
  }

  // A bridge goes unreported in some order of search exactly when it leaves a node
  // behind.
  lemma UnreportedExactly(g: Neighbours, root: nat, a: nat, b: nat)
    requires Undirected(g) && root < |g| && IsBridge(g, a, b) && Reachable(g, root, a)
    ensures (exists orders :: OrdersOf(g, orders) && (a, b) !in BridgesFound(g, orders, root))
       <==> exists x :: LeavesBehind(g, root, a, b, x)
  {
    if x :| LeavesBehind(g, root, a, b, x) {
      var orders := SomeOrderMisses(g, root, a, b, x);
    }
    if orders :| OrdersOf(g, orders) && (a, b) !in BridgesFound(g, orders, root) {
      var last := SearchReports(g, orders, root);
      LastIsLeftBehind(g, root, last, BridgesFound(g, orders, root), a, b);
    }
  }

  // Every order of search returns all the bridges within reach of the root exactly
  // when no bridge leaves a node behind.
  lemma CompleteExactly(g: Neighbours, root: nat)
    requires Undirected(g) && root < |g|
    ensures (forall orders :: OrdersOf(g, orders) ==> AllReported(g, root, BridgesFound(g, orders, root)))
       <==> !exists a, b, x :: LeavesBehind(g, root, a, b, x)
  {
    if a, b, x :| LeavesBehind(g, root, a, b, x) {
      var orders := SomeOrderMisses(g, root, a, b, x);
    } else {
      forall orders | OrdersOf(g, orders)
        ensures AllReported(g, root, BridgesFound(g, orders, root))
      {
        var last := SearchReports(g, orders, root);
        ReportIsComplete(g, root, last, BridgesFound(g, orders, root));
      }
    }
  }

  // Three nodes in a line, the root in the middle: both edges are bridges, and in
  // every order of search one of them goes unreported.
  lemma ReportMissesABridge(last: nat, bridges: set<(nat, nat)>)
    requires Reports([{1, 2}, {0}, {0}], 0, last, bridges)
    ensures var g: Neighbours := [{1, 2}, {0}, {0}];
            Undirected(g) && IsBridge(g, 0, 1) && IsBridge(g, 0, 2) && ((0, 1) !in bridges || (0, 2) !in bridges)
  {
    var g: Neighbours := [{1, 2}, {0}, {0}];
    BridgeByCut(g, 0, 1);
    BridgeByCut(g, 0, 2);
    assert Closed(g, 0, 1, {0, 2}) && Closed(g, 0, 2, {0, 1});
    StaysInLine(g, last);
    var other := 3 - last;
    assert IsPath(g, 0, other, [0, last]) && (0, other) !in bridges;
  }

  lemma StaysInLine(g: Neighbours, y: nat)
    requires g == [{1, 2}, {0}, {0}] && Reachable(g, 0, y)
    ensures y < 3
  {
    var p :| IsPath(g, 0, 0, p) && p[0] == 0 && p[|p| - 1] == y;
    PathStaysIn(g, 0, 0, p, {0, 1, 2});
  }
}
