// gentree/Save.go: the run of RemoveLinks as a sequence of removals, each of a link
// that the report on the graph of that moment does not name.

module Removals {
  import opened Values
  import opened Spaces
  import opened LocalityGraph
  import opened Connectivity
  import opened Bridges
  import opened BridgeReports
  import opened KeptLinks
  import opened OnePiece

  // What GetBridges may return.
  ghost function ReportsOf(g: Neighbours, root: nat): iset<set<(nat, nat)>> {
    iset bridges | IsReport(g, root, bridges)
  }

  ghost predicate IsReport(g: Neighbours, root: nat, bridges: set<(nat, nat)>) {
    Undirected(g) && root < |g| && exists orders :: OrdersOf(g, orders) && bridges == BridgesFound(g, orders, root)
  }

  // The removal of the node b from the bunch of a, which is no pivot of a, by a
  // report that does not name the link.
  ghost predicate RemovalOf(s: Space, levels: nat, root: nat, l: Links, l': Links, a: nat, b: nat)
    requires s.Valid() && root < s.Size() && MayBeLeft(s, levels, l)
  {
    a < s.Size() && (exists orders :: LetsGo(s, levels, l, root, a, b, orders)) && l' == Less(l, a, b)
  }

  ghost predicate Removal(s: Space, levels: nat, root: nat, l: Links, l': Links)
    requires s.Valid() && root < s.Size()
  {
    MayBeLeft(s, levels, l) && exists a: nat, b: nat :: RemovalOf(s, levels, root, l, l', a, b)
  }

  // Removals that lead from the first links by way of these to the links l.
  ghost predicate Lead(s: Space, levels: nat, root: nat, first: Links, way: seq<Links>, l: Links)
    requires s.Valid() && root < s.Size()
  {
    if way == [] then l == first
    else
      var last := |way| - 1;
      Lead(s, levels, root, first, way[..last], way[last]) && Removal(s, levels, root, way[last], l)
  }

  // What any number of removals can make of the links.
  ghost function AfterRemovals(s: Space, levels: nat, root: nat, first: Links): iset<Links>
    requires s.Valid() && root < s.Size()
  {
    iset l: Links | Led(s, levels, root, first, l)
  }

  ghost predicate Led(s: Space, levels: nat, root: nat, first: Links, l: Links)
    requires s.Valid() && root < s.Size()
  {
    exists way :: Lead(s, levels, root, first, way, l)
  }

  lemma NoRemovals(s: Space, levels: nat, root: nat, first: Links)
    requires s.Valid() && root < s.Size()
    ensures first in AfterRemovals(s, levels, root, first)
  {
    assert Lead(s, levels, root, first, [], first);
  }

  lemma OneMoreRemoval(s: Space, levels: nat, root: nat, first: Links, l: Links, l': Links)
    requires s.Valid() && root < s.Size()
    requires l in AfterRemovals(s, levels, root, first) && Removal(s, levels, root, l, l')
    ensures l' in AfterRemovals(s, levels, root, first)
  {
    var way :| Lead(s, levels, root, first, way, l);
    assert (way + [l])[..|way|] == way;
    assert Lead(s, levels, root, first, way + [l], l');
  }

  // A report names a bridge in both directions or in neither.
  lemma ReportBothWays(g: Neighbours, root: nat, bridges: set<(nat, nat)>, a: nat, b: nat)
    requires bridges in ReportsOf(g, root) && (a, b) in bridges
    ensures (b, a) in bridges && IsBridge(g, a, b)
  {
    var orders :| OrdersOf(g, orders) && bridges == BridgesFound(g, orders, root);
    var last := SearchReports(g, orders, root);
    BridgeByCut(g, a, b);
    if PathAvoiding(g, b, a, root, last) {
      OtherWayRound(g, root, b, a, last);
    }
  }

  // The node b has left the bunch of a, and nothing else has changed.
  ghost predicate LinkTaken(l: Links, l': Links, a: nat, b: nat) {
    && |l'.bunches| == |l.bunches| && |l'.clusters| == |l.clusters|
    && (forall v :: 0 <= v < |l.bunches| ==> l'.bunches[v] == l.bunches[v] - (if v == a then {b} else {}))
    && forall v :: 0 <= v < |l.clusters| ==> l'.clusters[v] == l.clusters[v] - (if v == b then {a} else {})
  }

  lemma LinkTakenIsLess(l: Links, l': Links, a: nat, b: nat)
    requires Dual(l) && a < |l.bunches| && b in l.bunches[a] && LinkTaken(l, l', a, b)
    ensures l' == Less(l, a, b)
  {
    forall v | 0 <= v < |l.bunches|
      ensures l'.bunches[v] == Less(l, a, b).bunches[v]
    {
      assert l.bunches[v] - {} == l.bunches[v];
    }
    forall v | 0 <= v < |l.clusters|
      ensures l'.clusters[v] == Less(l, a, b).clusters[v]
    {
      assert l.clusters[v] - {} == l.clusters[v];
    }
  }

  lemma UnnamedLetsGo(s: Space, levels: nat, root: nat, l: Links, g: Neighbours, bridges: set<(nat, nat)>, a: nat,
          b: nat)
    requires s.Valid() && root < s.Size() && a < s.Size() && MayBeLeft(s, levels, l) && l.Joins(g)
    requires bridges in ReportsOf(g, root)
    requires b in l.bunches[a] && !HasPivot(s, levels, a, b) && ((a, b) !in bridges || (b, a) !in bridges)
    ensures exists orders :: LetsGo(s, levels, l, root, a, b, orders)
  {
    if (a, b) in bridges {
      ReportBothWays(g, root, bridges, a, b);
    }
    assert g == Joined(l);
    var orders :| OrdersOf(g, orders) && bridges == BridgesFound(g, orders, root);
    assert LetsGo(s, levels, l, root, a, b, orders);
  }

  lemma NoPivot(all: LocalityNodes, s: Space, levels: nat, v: nat, p: nat)
    requires Pruned(all, s, levels) && v < |all.All|
    ensures HasPivot(s, levels, v, p) ==> IsAPivot(all.All[v], p)
  {
    assert NodeKept(all, s, levels, v);
    var node := all.All[v];
    if i :| 0 <= i < levels && s.IsPivot(v, i, p) {
      assert s.PivotEntry(v, i, node.PDist[i], node.ADist[i]);
      assert node.PDist[i] == Some(p);
    }
  }

  // One removal, by the report at hand, and a new report.
  ghost predicate StepTo(s: Space, levels: nat, root: nat, l: Links, bridges: set<(nat, nat)>, l': Links,
          bridges': set<(nat, nat)>)
    requires s.Valid()
  {
    && MayBeLeft(s, levels, l) && |l'.bunches| == |l'.clusters| && IsReport(Joined(l'), root, bridges')
    && exists a: nat, b: nat :: Unnamed(s, levels, l, bridges, a, b) && l' == Less(l, a, b)
  }

  // b is in the bunch of a, is no pivot of a, and the report does not name the link.
  ghost predicate Unnamed(s: Space, levels: nat, l: Links, bridges: set<(nat, nat)>, a: nat, b: nat)
    requires s.Valid() && MayBeLeft(s, levels, l)
  {
    a < s.Size() && b in l.bunches[a] && !HasPivot(s, levels, a, b) && ((a, b) !in bridges || (b, a) !in bridges)
  }

  // Whatever contains the links as they are contains them after one more removal.
  ghost predicate Closed(s: Space, levels: nat, root: nat, run: Run)
    requires s.Valid()
  {
    forall l, bridges, l', bridges' ::
      (l, bridges) in run && StepTo(s, levels, root, l, bridges, l', bridges') ==> (l', bridges') in run
  }

  ghost function Runs(s: Space, levels: nat, root: nat): iset<Run>
    requires s.Valid()
  {
    iset run: Run | Closed(s, levels, root, run)
  }

  // All that removals lead to from the first links, with any report.
  ghost function RunFrom(s: Space, levels: nat, root: nat, first: Links): Run
    requires s.Valid() && root < s.Size()
  {
    iset l: Links, bridges: set<(nat, nat)> | IsOfRun(s, levels, root, first, l, bridges) :: (l, bridges)
  }

  ghost predicate IsOfRun(s: Space, levels: nat, root: nat, first: Links, l: Links, bridges: set<(nat, nat)>)
    requires s.Valid() && root < s.Size()
  {
    && |l.bunches| == |l.clusters| && IsReport(Joined(l), root, bridges)
    && l in AfterRemovals(s, levels, root, first)
  }

  lemma StepIsRemoval(s: Space, levels: nat, root: nat, first: Links, l: Links, bridges: set<(nat, nat)>, l': Links,
          bridges': set<(nat, nat)>)
    requires s.Valid() && root < s.Size() && IsOfRun(s, levels, root, first, l, bridges)
    requires StepTo(s, levels, root, l, bridges, l', bridges')
    ensures IsOfRun(s, levels, root, first, l', bridges')
  {
    var a: nat, b: nat :| Unnamed(s, levels, l, bridges, a, b) && l' == Less(l, a, b);
    UnnamedLetsGo(s, levels, root, l, Joined(l), bridges, a, b);
    assert RemovalOf(s, levels, root, l, l', a, b);
    OneMoreRemoval(s, levels, root, first, l, l');
  }

  lemma RunFromIsClosed(s: Space, levels: nat, root: nat, first: Links)
    requires s.Valid() && root < s.Size()
    ensures RunFrom(s, levels, root, first) in Runs(s, levels, root)
  {
    var run := RunFrom(s, levels, root, first);
    forall l, bridges, l', bridges' | (l, bridges) in run && StepTo(s, levels, root, l, bridges, l', bridges')
      ensures (l', bridges') in run
    {
      StepIsRemoval(s, levels, root, first, l, bridges, l', bridges');
    }
  }

  // A link that the report does not name has been taken out, and a report made on
  // the graph that is left.
  lemma StepStays(s: Space, levels: nat, root: nat, run: Run, l: Links, bridges: set<(nat, nat)>, l': Links,
          g': Neighbours, bridges': set<(nat, nat)>, a: nat, b: nat)
    requires s.Valid() && run in Runs(s, levels, root) && (l, bridges) in run && MayBeLeft(s, levels, l)
    requires Unnamed(s, levels, l, bridges, a, b) && LinkTaken(l, l', a, b)
    requires l'.Joins(g') && bridges' in ReportsOf(g', root)
    ensures (l', bridges') in run
  {
    LinkTakenIsLess(l, l', a, b);
    assert Joined(l') == g';
    assert StepTo(s, levels, root, l, bridges, l', bridges');
  }

  // The graph that l makes comes apart with the link from a to b, which is kept in
  // one direction only and is a bridge that leaves a node behind.
  ghost predicate PartsBy(s: Space, levels: nat, root: nat, l: Links, l': Links, a: nat, b: nat)
    requires s.Valid() && MayBeLeft(s, levels, l)
  {
    && a < s.Size() && b in l.bunches[a] && a !in l.bunches[b] && !HasPivot(s, levels, a, b) && l' == Less(l, a, b)
    && exists x :: LeavesBehind(Joined(l), root, a, b, x)
  }

  ghost predicate Whole(l: Links) {
    |l.bunches| == |l.clusters| && InOnePiece(Joined(l))
  }

  ghost predicate Parts(s: Space, levels: nat, root: nat, l: Links, l': Links)
    requires s.Valid()
  {
    MayBeLeft(s, levels, l) && Whole(l) && !Whole(l') && exists a: nat, b: nat :: PartsBy(s, levels, root, l, l', a, b)
  }

  lemma RemovalParts(s: Space, levels: nat, root: nat, l: Links, l': Links)
    requires s.Valid() && root < s.Size() && Removal(s, levels, root, l, l') && Whole(l)
    ensures Whole(l') || Parts(s, levels, root, l, l')
  {
    var a: nat, b: nat :| RemovalOf(s, levels, root, l, l', a, b);
    FallsApartExactly(s, levels, l, root, a, b);
    if !Whole(l') {
      assert PartsBy(s, levels, root, l, l', a, b);
    }
  }

  lemma {:induction false} PartsOnTheWay(s: Space, levels: nat, root: nat, first: Links, way: seq<Links>, l: Links)
      returns (before: Links, after: Links)
    requires s.Valid() && root < s.Size() && Lead(s, levels, root, first, way, l) && Whole(first) && !Whole(l)
    ensures before in AfterRemovals(s, levels, root, first) && l in AfterRemovals(s, levels, root, after)
    ensures Parts(s, levels, root, before, after)
  {
    var last := |way| - 1;
    if Whole(way[last]) {
      before, after := way[last], l;
      RemovalParts(s, levels, root, before, after);
      assert Lead(s, levels, root, first, way[..last], before);
      NoRemovals(s, levels, root, l);
    } else {
      before, after := PartsOnTheWay(s, levels, root, first, way[..last], way[last]);
      OneMoreRemoval(s, levels, root, after, way[last], l);
    }
  }

  // Removals take a graph apart only by way of such a step: the link that goes then
  // is a bridge that leaves a node behind.
  lemma ComesApart(s: Space, levels: nat, root: nat, first: Links, l: Links) returns (before: Links, after: Links)
    requires s.Valid() && root < s.Size() && l in AfterRemovals(s, levels, root, first) && Whole(first) && !Whole(l)
    ensures before in AfterRemovals(s, levels, root, first) && l in AfterRemovals(s, levels, root, after)
    ensures Parts(s, levels, root, before, after)
  {
    var way :| Lead(s, levels, root, first, way, l);
    before, after := PartsOnTheWay(s, levels, root, first, way, l);
  }
}
