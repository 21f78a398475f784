// gentree/Save.go: GetBridges and its depth-first search with low-links.

module Bridges {
  import opened Values
  import opened Connectivity

  // The contents of the dfs record.
  datatype Search = Search(timer: nat, state: set<nat>, tin: map<nat, nat>, fup: map<nat, nat>,
          bridges: set<(nat, nat)>)
  {
    ghost predicate Valid(g: Neighbours) {
      && tin.Keys == state && fup.Keys == state
      && forall x :: x in state ==> x < |g| && tin[x] <= timer
    }
  }

  // A visited node with a neighbour still to visit.
  ghost predicate Open(g: Neighbours, state: set<nat>, y: nat) {
    y in state && exists w :: Edge(g, y, w) && w !in state
  }

  // When the search enters a from parent b: every open node is at most as young
  // as the parent, and the visited nodes hang together below the root r.
  ghost predicate Entering(g: Neighbours, r: nat, s: Search, a: nat, b: Option<nat>) {
    && s.Valid(g) && a < |g| && a !in s.state
    && match b
       case None => s.state == {} && a == r
       case Some(p) => (
         && p in s.state && Edge(g, p, a) && Spans(g, s.state, r)
         && forall y :: Open(g, s.state, y) ==> s.tin[y] <= s.tin[p])
  }

  // The edge to an earlier node that is not the one the search came in by.
  ghost predicate BackEdge(g: Neighbours, a: nat, b: Option<nat>, x: nat, y: nat) {
    Edge(g, x, y) && !(x == a && b == Some(y))
  }

  // What separates a from z: the bridges whose removal disconnects the two.
  ghost predicate Separates(g: Neighbours, a: nat, z: nat, e: (nat, nat)) {
    IsBridge(g, e.0, e.1) && !Connected(g, e.0, e.1, a, z)
  }

  ghost predicate ExactlySeparating(g: Neighbours, a: nat, z: nat, bridges: set<(nat, nat)>) {
    forall e :: e in bridges <==> Separates(g, a, z, e)
  }

  // The search between the neighbours of a: s is the state on entry, t the state
  // now, done the neighbours already looked at, z the node entered last.
  ghost predicate Inside(g: Neighbours, s: Search, t: Search, a: nat, b: Option<nat>, done: set<nat>, z: nat) {
    && Timed(g, s, t, a) && Spans(g, t.state - s.state, a) && Explored(g, s, t, a, done)
    && UpperBound(g, s, t, a, b, done) && LowerBound(g, s, t, a, b)
    && EnteredLast(t, z) && Trailing(g, s, t, a, z) && ExactlySeparating(g, a, z, t.bridges)
  }

  // z has the highest entry time of all.
  ghost predicate EnteredLast(t: Search, z: nat) {
    && z in t.tin && t.tin[z] == t.timer
    && forall x :: x in t.tin && x != z ==> t.tin[x] < t.timer
  }

  // Nodes found below a hang together without the one entered last.
  ghost predicate Trailing(g: Neighbours, s: Search, t: Search, a: nat, z: nat) {
    && z !in s.state
    && if z == a then t.state == s.state + {a} else Spans(g, t.state - s.state - {z}, a)
  }

  // Nodes visited since the entry to a are younger than those before.
  ghost predicate Timed(g: Neighbours, s: Search, t: Search, a: nat) {
    && s.Valid(g) && t.Valid(g) && a !in s.state && a in t.state && s.state <= t.state
    && s.timer < t.tin[a]
    && (forall x :: x in s.state ==> t.tin[x] == s.tin[x] && t.fup[x] == s.fup[x])
    && forall x :: x in t.state && x !in s.state ==> s.timer < t.tin[x] && t.tin[a] <= t.tin[x]
  }

  // They have no neighbour left to visit, a itself being under way.
  ghost predicate Explored(g: Neighbours, s: Search, t: Search, a: nat, done: set<nat>) {
    forall x, y :: x in t.state && x !in s.state && Edge(g, x, y) && (x != a || y in done) ==> y in t.state
  }

  // fup[a] is at most the entry time of every earlier node a back edge leads to ...
  ghost predicate UpperBound(g: Neighbours, s: Search, t: Search, a: nat, b: Option<nat>, done: set<nat>)
    requires Timed(g, s, t, a)
  {
    forall x, y :: x in t.state && x !in s.state && y in s.state && BackEdge(g, a, b, x, y) && (x != a || y in done) ==>
      t.fup[a] <= s.tin[y]
  }

  // ... and when it is below the times of this search, it is one of these.
  ghost predicate LowerBound(g: Neighbours, s: Search, t: Search, a: nat, b: Option<nat>)
    requires Timed(g, s, t, a)
  {
    t.fup[a] > s.timer ||
    exists x, y :: x in t.state && x !in s.state && y in s.state && BackEdge(g, a, b, x, y) && t.fup[a] == s.tin[y]
  }

  // The search of a has ended: all neighbours have been looked at.
  ghost predicate Left(g: Neighbours, s: Search, t: Search, a: nat, b: Option<nat>, z: nat)
    requires a < |g|
  {
    Inside(g, s, t, a, b, g[a], z)
  }

  function Min(x: nat, y: nat): nat {
    if x <= y then x else y
  }

  // What the entry to a does: it clears the record of bridges.
  function Enter(s: Search, a: nat): Search {
    Search(s.timer + 1, s.state + {a}, s.tin[a := s.timer + 1], s.fup[a := s.timer + 1], {})
  }

  lemma Entered(g: Neighbours, s: Search, a: nat, b: Option<nat>)
    requires Undirected(g) && s.Valid(g) && a < |g| && a !in s.state
    ensures Inside(g, s, Enter(s, a), a, b, {}, a)
  {
    var t := Enter(s, a);
    assert t.state - s.state == {a};
    assert Spans(g, {a}, a);
  }

  // A neighbour visited before only lowers fup[a].
  lemma Met(g: Neighbours, s: Search, t: Search, a: nat, b: Option<nat>, done: set<nat>, z: nat, c: nat)
    requires Undirected(g) && a < |g| && Inside(g, s, t, a, b, done, z)
    requires Edge(g, a, c) && c in t.state && b != Some(c)
    ensures Inside(g, s, t.(fup := t.fup[a := Min(t.fup[a], t.tin[c])]), a, b, done + {c}, z)
  {
    var u := t.(fup := t.fup[a := Min(t.fup[a], t.tin[c])]);
    assert u.state == t.state && u.Valid(g);
    assert LowerBound(g, s, u, a, b) by {
      if u.fup[a] <= s.timer && t.fup[a] > t.tin[c] {
        assert a in u.state && c in s.state && BackEdge(g, a, b, a, c) && u.fup[a] == s.tin[c];
      }
    }
  }

  lemma SkippedParent(g: Neighbours, s: Search, t: Search, a: nat, done: set<nat>, z: nat, p: nat)
    requires Undirected(g) && a < |g| && Inside(g, s, t, a, Some(p), done, z) && p in s.state
    ensures Inside(g, s, t, a, Some(p), done + {p}, z)
  {
  }

  // Before a neighbour c that is not visited yet, a is the youngest open node.
  lemma EnteringChild(g: Neighbours, r: nat, s: Search, t: Search, a: nat, b: Option<nat>, done: set<nat>, z: nat,
          c: nat)
    requires Undirected(g) && Entering(g, r, s, a, b) && Inside(g, s, t, a, b, done, z)
    requires Edge(g, a, c) && c !in t.state
    ensures Entering(g, r, t, c, Some(a))
  {
    if b.Some? {
      SpansJoin(g, s.state, r, t.state - s.state, a, b.value);
      assert s.state + (t.state - s.state) == t.state;
    } else {
      assert t.state - s.state == t.state;
    }
    forall y | Open(g, t.state, y)
      ensures t.tin[y] <= t.tin[a]
    {
      if y in s.state {
        assert Open(g, s.state, y);
      }
    }
  }

  // The low-link test: fup[c] > tin[a] exactly when the edge to c is a bridge.
  lemma TestIsExact(g: Neighbours, r: nat, t: Search, u: Search, a: nat, c: nat, z: nat)
    requires Undirected(g) && Entering(g, r, t, c, Some(a)) && Left(g, t, u, c, Some(a), z)
    ensures u.fup[c] > u.tin[a] <==> IsBridge(g, a, c)
  {
    BridgeByCut(g, a, c);
    if u.fup[c] > u.tin[a] {
      LowLinkCuts(g, r, t, u, a, c, z);
    } else {
      LowLinkConnects(g, r, t, u, a, c, z);
    }
  }

  // A high low-link: the nodes found below c are closed without the edge to a.
  lemma LowLinkCuts(g: Neighbours, r: nat, t: Search, u: Search, a: nat, c: nat, z: nat)
    requires Undirected(g) && Entering(g, r, t, c, Some(a)) && Left(g, t, u, c, Some(a), z)
    requires u.fup[c] > u.tin[a]
    ensures !Connected(g, a, c, a, c)
  {
    var below := u.state - t.state;
    forall x, y | x in below && Step(g, a, c, x, y)
      ensures y in below
    {
      assert y in u.state;
      if y in t.state {
        assert Open(g, t.state, y) by {
          assert Edge(g, y, x) && x !in t.state;
        }
        assert t.tin[y] <= t.tin[a];
        assert BackEdge(g, c, Some(a), x, y);
      }
    }
    assert Closed(g, a, c, below) && c in below && a !in below;
    if Connected(g, a, c, a, c) {
      ConnectedSymmetric(g, a, c, a, c);
    }
  }

  // A low low-link: some other edge leads from below c to an earlier node, and
  // the earlier nodes hang together.
  lemma LowLinkConnects(g: Neighbours, r: nat, t: Search, u: Search, a: nat, c: nat, z: nat)
    requires Undirected(g) && Entering(g, r, t, c, Some(a)) && Left(g, t, u, c, Some(a), z)
    requires u.fup[c] <= u.tin[a]
    ensures Connected(g, a, c, a, c)
  {
    var x, y :| x in u.state && x !in t.state && y in t.state && BackEdge(g, c, Some(a), x, y) && u.fup[c] == t.tin[y];
    SpansConnects(g, t.state, r, a, c, a);
    SpansConnects(g, t.state, r, a, c, y);
    SpansConnects(g, u.state - t.state, c, a, c, x);
    assert r < |g|;
    ConnectedSymmetric(g, a, c, r, a);
    ConnectedSymmetric(g, a, c, c, x);
    assert Step(g, a, c, y, x);
    StepConnects(g, a, c, y, x);
    ConnectedTransitive(g, a, c, a, r, y);
    ConnectedTransitive(g, a, c, a, y, x);
    ConnectedTransitive(g, a, c, a, x, c);
  }

  // What is recorded on the way back from c to a.
  function Back(u: Search, a: nat, c: nat): Search
    requires a in u.fup && c in u.fup && a in u.tin
  {
    u.(fup := u.fup[a := Min(u.fup[a], u.fup[c])],
       bridges := if u.fup[c] > u.tin[a] then u.bridges + {(a, c), (c, a)} else u.bridges)
  }

  // The record then holds what separates a, instead of c, from the last node.
  lemma BridgesBack(g: Neighbours, r: nat, t: Search, u: Search, a: nat, c: nat, z: nat)
    requires Undirected(g) && Entering(g, r, t, c, Some(a)) && Left(g, t, u, c, Some(a), z)
    ensures ExactlySeparating(g, a, z, Back(u, a, c).bridges)
  {
    TestIsExact(g, r, t, u, a, c, z);
    BridgeByCut(g, a, c);
    var bridges := Back(u, a, c).bridges;
    forall e: (nat, nat)
      ensures e in bridges <==> Separates(g, a, z, e)
    {
      if (e.0 == a && e.1 == c) || (e.0 == c && e.1 == a) {
        SpansConnects(g, u.state - t.state, c, e.0, e.1, z);
        assert !Separates(g, c, z, e);
        if IsBridge(g, a, c) && Connected(g, e.0, e.1, a, z) {
          ConnectedSymmetric(g, e.0, e.1, c, z);
          ConnectedTransitive(g, e.0, e.1, a, z, c);
          SameCut(g, e.0, e.1, a, c);
        }
        assert IsBridge(g, e.0, e.1) <==> IsBridge(g, a, c);
      } else {
        SeparatesNeighbour(g, a, c, z, e);
      }
    }
  }

  lemma SeparatesNeighbour(g: Neighbours, a: nat, c: nat, z: nat, e: (nat, nat))
    requires Undirected(g) && Edge(g, a, c) && e != (a, c) && e != (c, a)
    ensures Separates(g, a, z, e) <==> Separates(g, c, z, e)
  {
    assert Step(g, e.0, e.1, a, c) && Step(g, e.0, e.1, c, a);
    StepConnects(g, e.0, e.1, a, c);
    StepConnects(g, e.0, e.1, c, a);
  }

  lemma Returned(g: Neighbours, r: nat, s: Search, t: Search, u: Search, a: nat, b: Option<nat>, done: set<nat>,
          z: nat, c: nat, z': nat)
    requires Undirected(g) && Entering(g, r, s, a, b) && Inside(g, s, t, a, b, done, z)
    requires Edge(g, a, c) && c !in t.state && Left(g, t, u, c, Some(a), z')
    ensures Inside(g, s, Back(u, a, c), a, b, done + {c}, z')
  {
    EnteringChild(g, r, s, t, a, b, done, z, c);
    BridgesBack(g, r, t, u, a, c, z');
    ReturnedTimed(g, s, t, u, a, b, done, z, c, z');
    ReturnedSpans(g, s, t, u, a, b, done, z, c, z');
    ReturnedUpper(g, s, t, u, a, b, done, z, c, z');
    ReturnedLower(g, s, t, u, a, b, done, z, c, z');
    ReturnedTrailing(g, s, t, u, a, b, done, z, c, z');
  }

  lemma ReturnedTimed(g: Neighbours, s: Search, t: Search, u: Search, a: nat, b: Option<nat>, done: set<nat>, z: nat,
          c: nat, z': nat)
    requires Undirected(g) && Inside(g, s, t, a, b, done, z)
    requires Edge(g, a, c) && c !in t.state && Left(g, t, u, c, Some(a), z')
    ensures Timed(g, s, Back(u, a, c), a) && Explored(g, s, Back(u, a, c), a, done + {c})
  {
    var v := Back(u, a, c);
    assert v.Valid(g);
    forall x, y | x in v.state && x !in s.state && Edge(g, x, y) && (x != a || y in done + {c})
      ensures y in v.state
    {
      if x in t.state {
        assert y == c || y in t.state;
      } else {
        assert x != c || y in g[c];
      }
    }
  }

  lemma ReturnedSpans(g: Neighbours, s: Search, t: Search, u: Search, a: nat, b: Option<nat>, done: set<nat>, z: nat,
          c: nat, z': nat)
    requires Undirected(g) && Inside(g, s, t, a, b, done, z)
    requires Edge(g, a, c) && c !in t.state && Left(g, t, u, c, Some(a), z')
    ensures Spans(g, Back(u, a, c).state - s.state, a)
  {
    SpansJoin(g, t.state - s.state, a, u.state - t.state, c, a);
    assert u.state - s.state == (t.state - s.state) + (u.state - t.state);
  }

  lemma ReturnedUpper(g: Neighbours, s: Search, t: Search, u: Search, a: nat, b: Option<nat>, done: set<nat>, z: nat,
          c: nat, z': nat)
    requires Undirected(g) && Inside(g, s, t, a, b, done, z)
    requires Edge(g, a, c) && c !in t.state && Left(g, t, u, c, Some(a), z')
    requires Timed(g, s, Back(u, a, c), a)
    ensures UpperBound(g, s, Back(u, a, c), a, b, done + {c})
  {
    var v := Back(u, a, c);
    forall x, y | x in v.state && x !in s.state && y in s.state && BackEdge(g, a, b, x, y) &&
      (x != a || y in done + {c})
      ensures v.fup[a] <= s.tin[y]
    {
      if x !in t.state {
        assert BackEdge(g, c, Some(a), x, y) && y in t.state;
      }
    }
  }

  lemma ReturnedLower(g: Neighbours, s: Search, t: Search, u: Search, a: nat, b: Option<nat>, done: set<nat>, z: nat,
          c: nat, z': nat)
    requires Undirected(g) && Inside(g, s, t, a, b, done, z)
    requires Edge(g, a, c) && c !in t.state && Left(g, t, u, c, Some(a), z')
    requires Timed(g, s, Back(u, a, c), a)
    ensures LowerBound(g, s, Back(u, a, c), a, b)
  {
    var v := Back(u, a, c);
    assert s.timer < t.tin[a] <= t.timer;
    if v.fup[a] <= s.timer {
      if u.fup[a] <= u.fup[c] {
        var x, y :| x in t.state && x !in s.state && y in s.state && BackEdge(g, a, b, x, y) && t.fup[a] == s.tin[y];
        assert x in v.state;
      } else {
        var x, y :| x in u.state && x !in t.state && y in t.state && BackEdge(g, c, Some(a), x, y) && u.fup[c] ==
          t.tin[y];
        assert y in s.state && BackEdge(g, a, b, x, y);
      }
    }
  }

  lemma ReturnedTrailing(g: Neighbours, s: Search, t: Search, u: Search, a: nat, b: Option<nat>, done: set<nat>,
          z: nat, c: nat, z': nat)
    requires Undirected(g) && Inside(g, s, t, a, b, done, z)
    requires Edge(g, a, c) && c !in t.state && Left(g, t, u, c, Some(a), z')
    ensures EnteredLast(Back(u, a, c), z') && Trailing(g, s, Back(u, a, c), a, z')
  {
    assert EnteredLast(u, z');
    TrailingJoins(g, s.state, t.state, u.state, a, c, z');
  }

  // The same in terms of the visited nodes: before is visited on entry to a, now
  // on entry to its neighbour c, later on the way back.
  lemma TrailingJoins(g: Neighbours, before: set<nat>, now: set<nat>, later: set<nat>, a: nat, c: nat, z: nat)
    requires before <= now <= later && a in now - before && Spans(g, now - before, a)
    requires Edge(g, a, c) && c !in now && z in later && z !in now
    requires if z == c then later == now + {c} else Spans(g, later - now - {z}, c)
    ensures z != a && Spans(g, later - before - {z}, a)
  {
    var above, below := now - before, later - now;
    if z == c {
      assert later - before - {z} == above;
    } else {
      SpansJoin(g, above, a, below - {z}, c, a);
      assert later - before - {z} == above + (below - {z});
    }
  }

  // The order in which each node ranges over its neighbours; a node is entered
  // at most once.
  type Orders = seq<seq<nat>>

  ghost predicate Lists(order: seq<nat>, kids: set<nat>) {
    && (forall i, j :: 0 <= i < j < |order| ==> order[i] != order[j])
    && forall x :: x in order <==> x in kids
  }

  ghost predicate OrdersOf(g: Neighbours, orders: Orders) {
    |orders| == |g| && forall v :: 0 <= v < |g| ==> Lists(orders[v], g[v])
  }

  ghost function Unvisited(g: Neighbours, state: set<nat>): set<nat> {
    set x: nat | x < |g| && x !in state
  }

  lemma UnvisitedShrinks(g: Neighbours, before: set<nat>, after: set<nat>, a: nat)
    requires a < |g| && a !in before && before + {a} <= after
    ensures Unvisited(g, after) < Unvisited(g, before)
  {
    assert a in Unvisited(g, before) && a !in Unvisited(g, after);
  }

  // What the search of a leaves, for given orders ...
  ghost function SearchNode(g: Neighbours, orders: Orders, s: Search, a: nat, b: Option<nat>): (t: Search)
    requires Undirected(g) && OrdersOf(g, orders) && s.Valid(g) && a < |g| && a !in s.state
    ensures t.Valid(g) && s.state + {a} <= t.state
    decreases Unvisited(g, s.state), 0, 0
  {
    UnvisitedShrinks(g, s.state, s.state + {a}, a);
    SearchRest(g, orders, Enter(s, a), a, b, 0)
  }

  // ... and what is left of it from the neighbour at position k on.
  ghost function SearchRest(g: Neighbours, orders: Orders, t: Search, a: nat, b: Option<nat>, k: nat): (u: Search)
    requires Undirected(g) && OrdersOf(g, orders) && t.Valid(g) && a in t.state && k <= |orders[a]|
    ensures u.Valid(g) && t.state <= u.state
    decreases Unvisited(g, t.state), 1, |orders[a]| - k
  {
    if k == |orders[a]| then t
    else
      var c := orders[a][k];
      assert Lists(orders[a], g[a]) && c in orders[a];
      if b == Some(c) then SearchRest(g, orders, t, a, b, k + 1)
      else if c in t.state then
        SearchRest(g, orders, t.(fup := t.fup[a := Min(t.fup[a], t.tin[c])]), a, b, k + 1)
      else
        var u := SearchNode(g, orders, t, c, Some(a));
        UnvisitedShrinks(g, t.state, u.state, c);
        SearchRest(g, orders, Back(u, a, c), a, b, k + 1)
  }

  // The first k entries of an order.
  ghost function Taken(order: seq<nat>, k: nat): set<nat>
    requires k <= |order|
  {
    set i | 0 <= i < k :: order[i]
  }

  lemma TakenMore(order: seq<nat>, k: nat)
    requires k < |order|
    ensures Taken(order, k + 1) == Taken(order, k) + {order[k]}
  {
  }

  lemma AllTaken(order: seq<nat>, kids: set<nat>)
    requires Lists(order, kids)
    ensures Taken(order, |order|) == kids
  {
  }

  // The search is right for every order.
  lemma {:induction false} SearchIsRight(g: Neighbours, r: nat, orders: Orders, s: Search, a: nat, b: Option<nat>)
      returns (z: nat)
    requires Undirected(g) && OrdersOf(g, orders) && Entering(g, r, s, a, b)
    ensures Left(g, s, SearchNode(g, orders, s, a, b), a, b, z)
    decreases Unvisited(g, s.state), 0, 0
  {
    Entered(g, s, a, b);
    UnvisitedShrinks(g, s.state, s.state + {a}, a);
    assert Taken(orders[a], 0) == {};
    z := RestIsRight(g, r, orders, s, Enter(s, a), a, b, 0, a);
  }

  lemma {:induction false} RestIsRight(g: Neighbours, r: nat, orders: Orders, s: Search, t: Search, a: nat,
          b: Option<nat>, k: nat, z: nat)
      returns (last: nat)
    requires Undirected(g) && OrdersOf(g, orders) && Entering(g, r, s, a, b) && k <= |orders[a]|
    requires Inside(g, s, t, a, b, Taken(orders[a], k), z)
    ensures Left(g, s, SearchRest(g, orders, t, a, b, k), a, b, last)
    decreases Unvisited(g, t.state), 1, |orders[a]| - k
  {
    assert Lists(orders[a], g[a]);
    if k == |orders[a]| {
      AllTaken(orders[a], g[a]);
      last := z;
    } else {
      var c, done := orders[a][k], Taken(orders[a], k);
      assert c in orders[a];
      TakenMore(orders[a], k);
      if b == Some(c) {
        SkippedParent(g, s, t, a, done, z, c);
        last := RestIsRight(g, r, orders, s, t, a, b, k + 1, z);
      } else if c in t.state {
        Met(g, s, t, a, b, done, z, c);
        last := RestIsRight(g, r, orders, s, t.(fup := t.fup[a := Min(t.fup[a], t.tin[c])]), a, b, k + 1, z);
      } else {
        EnteringChild(g, r, s, t, a, b, done, z, c);
        var z' := SearchIsRight(g, r, orders, t, c, Some(a));
        var u := SearchNode(g, orders, t, c, Some(a));
        Returned(g, r, s, t, u, a, b, done, z, c, z');
        UnvisitedShrinks(g, t.state, u.state, c);
        last := RestIsRight(g, r, orders, s, Back(u, a, c), a, b, k + 1, z');
      }
    }
  }

  class Dfs {
    var timer: nat
    var state: set<nat>
    var tin: map<nat, nat>
    var fup: map<nat, nat>
    var Bridges: set<(nat, nat)>

    ghost function Contents(): Search
      reads this
    {
      Search(timer, state, tin, fup, Bridges)
    }

    constructor ()
      ensures Contents() == NotStarted()
    {
      timer, state, tin, fup, Bridges := 0, {}, map[], map[], {};
    }

    // The neighbours of a come in the order given.
    method Recursive(g: Neighbours, orders: Orders, a: nat, b: Option<nat>)
      requires Undirected(g) && OrdersOf(g, orders) && Contents().Valid(g) && a < |g| && a !in state
      modifies this
      ensures Contents() == SearchNode(g, orders, old(Contents()), a, b)
      decreases Unvisited(g, state), 0
    {
      ghost var s := Contents();
      UnvisitedShrinks(g, s.state, s.state + {a}, a);
      state := state + {a};
      timer := timer + 1;
      tin, fup := tin[a := timer], fup[a := timer];
      Bridges := {};
      for k := 0 to |orders[a]|
        invariant Contents().Valid(g) && s.state + {a} <= state
        invariant SearchRest(g, orders, Contents(), a, b, k) == SearchNode(g, orders, s, a, b)
      {
        UnvisitedShrinks(g, s.state, state, a);
        Look(g, orders, a, b, k);
      }
    }

    // The body of the loop over the children of a.
    method Look(g: Neighbours, orders: Orders, a: nat, b: Option<nat>, k: nat)
      requires Undirected(g) && OrdersOf(g, orders) && Contents().Valid(g) && a in state && k < |orders[a]|
      modifies this
      ensures Contents().Valid(g) && old(state) <= state
      ensures SearchRest(g, orders, Contents(), a, b, k + 1) == SearchRest(g, orders, old(Contents()), a, b, k)
      decreases Unvisited(g, state), 1
    {
      var c := orders[a][k];
      assert Lists(orders[a], g[a]) && c in orders[a];
      if b != Some(c) {
        if c in state {
          fup := fup[a := Min(fup[a], tin[c])];
        } else {
          Recursive(g, orders, c, Some(a));
          fup := fup[a := Min(fup[a], fup[c])];
          if fup[c] > tin[a] {
            Bridges := Bridges + {(a, c), (c, a)};
          }
        }
      }
    }
  }

  function NotStarted(): Search {
    Search(0, {}, map[], map[], {})
  }

  // What GetBridges returns for given orders.
  ghost function BridgesFound(g: Neighbours, orders: Orders, root: nat): set<(nat, nat)>
    requires Undirected(g) && OrdersOf(g, orders) && root < |g|
  {
    SearchNode(g, orders, NotStarted(), root, None).bridges
  }

  // What a report tells: the bridges that separate the root from the node last,
  // which is the root only when that has no neighbour, and without which the root
  // still reaches whatever else it reaches.
  ghost predicate Reports(g: Neighbours, root: nat, last: nat, bridges: set<(nat, nat)>) {
    && Reachable(g, root, last) && Dispensable(g, root, last)
    && (last == root ==> root < |g| && g[root] == {})
    && forall e :: e in bridges <==> IsBridge(g, e.0, e.1) && !PathAvoiding(g, e.0, e.1, root, last)
  }

  // The node of a report is the one entered last.
  lemma SearchReports(g: Neighbours, orders: Orders, root: nat) returns (last: nat)
    requires Undirected(g) && OrdersOf(g, orders) && root < |g|
    ensures EnteredLast(SearchNode(g, orders, NotStarted(), root, None), last)
    ensures Reports(g, root, last, BridgesFound(g, orders, root))
  {
    last := SearchIsRight(g, root, orders, NotStarted(), root, None);
    EndReports(g, root, SearchNode(g, orders, NotStarted(), root, None), last);
  }

  // At the end of the search of the root.
  lemma EndReports(g: Neighbours, root: nat, t: Search, last: nat)
    requires Undirected(g) && root < |g| && Left(g, NotStarted(), t, root, None, last)
    ensures EnteredLast(t, last) && Reports(g, root, last, t.bridges)
  {
    assert t.state - NotStarted().state == t.state && t.state - NotStarted().state - {last} == t.state - {last};
    assert forall x, y :: x in t.state && Edge(g, x, y) ==> y in t.state;
    VisitedReports(g, root, t.state, t.bridges, last);
  }

  // What has been visited hangs together below the root, also without the last node.
  lemma VisitedReports(g: Neighbours, root: nat, visited: set<nat>, bridges: set<(nat, nat)>, last: nat)
    requires Undirected(g) && root < |g| && Spans(g, visited, root) && last in visited
    requires forall x, y :: x in visited && Edge(g, x, y) ==> y in visited
    requires if last == root then visited == {root} else Spans(g, visited - {last}, root)
    requires ExactlySeparating(g, root, last, bridges)
    ensures Reports(g, root, last, bridges)
  {
    ReachesAll(g, visited, root);
    forall y | y != last && Reachable(g, root, y)
      ensures ReachableWithout(g, last, root, y)
    {
      if last != root {
        SpansWithout(g, visited - {last}, root, last, y);
      }
    }
    forall e: (nat, nat)
      ensures e in bridges <==> IsBridge(g, e.0, e.1) && !PathAvoiding(g, e.0, e.1, root, last)
    {
      ConnectedIsPath(g, e.0, e.1, root, last);
      assert e in bridges <==> Separates(g, root, last, e);
    }
    assert forall y :: y in g[root] ==> Edge(g, root, y) && y in visited;
  }

  // A set that hangs together below the root and is closed is what it reaches.
  lemma ReachesAll(g: Neighbours, t: set<nat>, root: nat)
    requires Undirected(g) && root < |g| && Spans(g, t, root)
    requires forall x, y :: x in t && Edge(g, x, y) ==> y in t
    ensures forall y :: y in t <==> Reachable(g, root, y)
  {
    forall y | y in t
      ensures Reachable(g, root, y)
    {
      SpansConnectsAll(g, t, root, y);
    }
    forall y | Reachable(g, root, y)
      ensures y in t
    {
      var p :| IsPath(g, root, root, p) && p[0] == root && p[|p| - 1] == y;
      assert Closed(g, root, root, t);
      PathStaysIn(g, root, root, p, t);
    }
  }

  lemma SpansConnectsAll(g: Neighbours, t: set<nat>, root: nat, y: nat)
    requires Undirected(g) && root < |g| && Spans(g, t, root) && y in t
    ensures Reachable(g, root, y)
  {
    forall s: set<nat> | root in s && Closed(g, root, root, s)
      ensures y in s
    {
      forall v, w | v in s && v in t && w in t && Edge(g, v, w)
        ensures w in s
      {
        assert Step(g, root, root, v, w);
      }
      assert ClosedWithin(g, t, s);
    }
    ConnectedIsPath(g, root, root, root, y);
  }

  // Any orders will do: a Go map is ranged over in no particular order.
  method AnyOrders(g: Neighbours) returns (orders: Orders)
    ensures OrdersOf(g, orders)
  {
    orders := [];
    for v := 0 to |g|
      invariant |orders| == v && forall u :: 0 <= u < v ==> Lists(orders[u], g[u])
    {
      var kids, order: seq<nat> := g[v], [];
      while kids != {}
        invariant kids <= g[v] && Lists(order, g[v] - kids)
        decreases kids
      {
        var c :| c in kids;
        order, kids := order + [c], kids - {c};
      }
      assert g[v] - kids == g[v];
      orders := orders + [order];
    }
  }

  method GetBridges(g: Neighbours, root: nat) returns (bridges: set<(nat, nat)>)
    requires Undirected(g) && root < |g|
    ensures forall e :: e in bridges ==> IsBridge(g, e.0, e.1)
    ensures exists orders :: OrdersOf(g, orders) && bridges == BridgesFound(g, orders, root)
    ensures exists last :: Reports(g, root, last, bridges)
  {
    var orders := AnyOrders(g);
    var dfs := new Dfs();
    dfs.Recursive(g, orders, root, None);
    bridges := dfs.Bridges;
    ghost var last := SearchReports(g, orders, root);
  }
}
