// gentree/Save.go: RemoveLinks, without the call of UpdateDistance that ends
// each of its rounds.

module Pruning {
  import opened Basics
  import opened Values
  import opened Spaces
  import opened LocalityGraph
  import opened Connectivity
  import opened Bridges
  import opened KeptLinks
  import opened BunchAttempts
  import opened OnePiece
  import opened Removals

  // The removal of b from the bunch of a, in both maps and in the table.
  method Unlink(all: LocalityNodes, a: nat, b: nat, ghost s: Space, ghost levels: nat)
    requires Pruned(all, s, levels) && a < |all.All| && b < |all.All|
    requires b in all.All[a].OptimalBunch && !IsAPivot(all.All[a], b)
    modifies all, all.Nodes()`OptimalBunch, all.Nodes()`OptimalCluster
    ensures Pruned(all, s, levels) && LinkTaken(old(LinksOf(all)), LinksOf(all), a, b)
    ensures forall v :: 0 <= v < |all.All| ==>
      && all.All[v].OptimalBunch == old(all.All[v].OptimalBunch) - (if v == a then {b} else {})
      && all.All[v].OptimalCluster == old(all.All[v].OptimalCluster) - (if v == b then {a} else {})
  {
    var nodeA, nodeB := all.All[a], all.All[b];
    assert NodeKept(all, s, levels, a);
    assert b in s.Bunch(a);
    nodeA.OptimalBunch := nodeA.OptimalBunch - {b};
    nodeB.OptimalCluster := nodeB.OptimalCluster - {a};
    all.ClusterBunchDistances := all.ClusterBunchDistances[(a, b) := Max][(b, a) := Max];
    forall v | 0 <= v < |all.All|
      ensures NodeKept(all, s, levels, v)
    {
      assert old(NodeKept(all, s, levels, v));
      assert all.PivotsDone(s, v, levels);
    }
    forall x, y | 0 <= x < |all.All| && 0 <= y < |all.All|
      ensures EntryKept(all, s, x, y)
    {
      assert old(EntryKept(all, s, x, y));
    }
  }

  ghost predicate OnlyCluster(all: LocalityNodes, a: nat, before: seq<set<nat>>)
    requires |before| == |all.All|
    reads all.Nodes()
  {
    forall v :: 0 <= v < |all.All| && v != a ==> all.All[v].OptimalCluster == before[v]
  }

  // GetBridges on the graph as it stands.
  method CurrentBridges(all: LocalityNodes, root: nat, ghost s: Space, ghost levels: nat)
    returns (bridges: set<(nat, nat)>, ghost graph: Neighbours)
    requires Pruned(all, s, levels) && root < |all.All|
    ensures IsGraph(all, graph) && AllBridges(graph, bridges) && bridges in ReportsOf(graph, root)
  {
    var g: Neighbours := [];
    for v := 0 to |all.All|
      invariant |g| == v && forall u :: 0 <= u < v ==> g[u] == all.GetChildren(u)
    {
      g := g + [all.GetChildren(v)];
    }
    KeptIsUndirected(all, s, levels, g);
    bridges := GetBridges(g, root);
    graph := g;
  }

  // A removal of a link that the report does not name, and the report on the graph
  // that it leaves.
  method UnlinkAndReport(all: LocalityNodes, root: nat, a: nat, b: nat, ghost bridges: set<(nat, nat)>,
          ghost g: Neighbours, ghost run: Run, ghost s: Space, ghost levels: nat)
    returns (left: set<(nat, nat)>, ghost graph: Neighbours)
    requires bridges in ReportsOn(all, g, run, s, levels) && run in Runs(s, levels, root) && root < |all.All|
    requires a < |all.All| && b < |all.All| && b in all.All[a].OptimalBunch && !IsAPivot(all.All[a], b)
    requires (a, b) !in bridges || (b, a) !in bridges
    modifies all, all.Nodes()`OptimalBunch, all.Nodes()`OptimalCluster
    ensures left in ReportsOn(all, graph, run, s, levels) && Subgraph(graph, g)
    ensures Shrunk(all, old(all.OptimalBunches()), old(all.OptimalClusters()))
    ensures forall v :: 0 <= v < |all.All| ==>
      && all.All[v].OptimalBunch == old(all.All[v].OptimalBunch) - (if v == a then {b} else {})
      && all.All[v].OptimalCluster == old(all.All[v].OptimalCluster) - (if v == b then {a} else {})
  {
    ghost var l := LinksOf(all);
    PrunedMayBeLeft(all, s, levels);
    NoPivot(all, s, levels, a, b);
    Unlink(all, a, b, s, levels);
    left, graph := CurrentBridges(all, root, s, levels);
    ShrunkGraph(all, l.bunches, l.clusters, g, graph);
    ShrunkLinks(all, l, graph);
    StepStays(s, levels, root, run, l, bridges, LinksOf(all), graph, left, a, b);
  }

  // One node has left the cluster of a; what was protected still is.
  method TakeFromCluster(all: LocalityNodes, root: nat, a: nat, c: nat, ghost priority: int,
          ghost bridges: set<(nat, nat)>, ghost g: Neighbours, ghost run: Run, ghost s: Space, ghost levels: nat)
    returns (left: set<(nat, nat)>, ghost graph: Neighbours)
    requires bridges in ReportsOn(all, g, run, s, levels) && run in Runs(s, levels, root)
    requires root < |all.All| && a < |all.All| && c < |all.All|
    requires ProtectedSoFar(all, g, a, priority, c)
    requires c in all.All[a].OptimalCluster && c != a && !IsAPivot(all.All[c], a) && (a, c) !in bridges
    modifies all, all.Nodes()`OptimalBunch, all.Nodes()`OptimalCluster
    ensures left in ReportsOn(all, graph, run, s, levels) && Subgraph(graph, g)
    ensures OnlyCluster(all, a, old(all.OptimalClusters()))
    ensures Shrunk(all, old(all.OptimalBunches()), old(all.OptimalClusters()))
    ensures all.All[a].OptimalCluster == old(all.All[a].OptimalCluster) - {c}
    ensures all.All[a].OptimalBunch == old(all.All[a].OptimalBunch)
    ensures ProtectedSoFar(all, graph, a, priority, c + 1)
  {
    assert NodeKept(all, s, levels, c);
    left, graph := UnlinkAndReport(all, root, c, a, bridges, g, run, s, levels);
    forall x | x in all.All[a].OptimalCluster && old(Protected(all, g, a, x))
      ensures Protected(all, graph, a, x)
    {
      if IsBridge(g, a, x) {
        BridgeSurvives(g, graph, a, x);
      }
    }
  }

  // One node of the loop over the cluster of a: it goes, or it is protected.
  method VisitMember(all: LocalityNodes, root: nat, a: nat, c: nat, priority: int, bridges: set<(nat, nat)>,
          ghost g: Neighbours, ghost run: Run, ghost s: Space, ghost levels: nat)
    returns (removed: bool, left: set<(nat, nat)>, ghost graph: Neighbours)
    requires bridges in ReportsOn(all, g, run, s, levels) && run in Runs(s, levels, root)
    requires root < |all.All| && a < |all.All| && c < |all.All| && ProtectedSoFar(all, g, a, priority, c)
    modifies all, all.Nodes()`OptimalBunch, all.Nodes()`OptimalCluster
    ensures left in ReportsOn(all, graph, run, s, levels) && Subgraph(graph, g)
    ensures OnlyCluster(all, a, old(all.OptimalClusters()))
    ensures Shrunk(all, old(all.OptimalBunches()), old(all.OptimalClusters()))
    ensures removed ==> c in old(all.All[a].OptimalCluster)
    ensures all.All[a].OptimalCluster == old(all.All[a].OptimalCluster) - (if removed then {c} else {})
    ensures all.All[a].OptimalBunch == old(all.All[a].OptimalBunch)
    ensures ProtectedSoFar(all, graph, a, priority, c + 1)
  {
    removed, left, graph := false, bridges, g;
    if c in all.All[a].OptimalCluster && all.All[c].Level == priority {
      assert NodeKept(all, s, levels, a);
      var isInPDist := Some(a) in all.All[c].PDist;
      if !isInPDist && c != a && (a, c) !in left {
        left, graph := TakeFromCluster(all, root, a, c, priority, left, graph, run, s, levels);
        removed := true;
      }
    }
  }

  // One pass over the members of the cluster of a at one level.
  method ClusterLevel(all: LocalityNodes, root: nat, a: nat, max: int, edges: int, priority: int,
          bridges: set<(nat, nat)>, ghost g: Neighbours, ghost run: Run, ghost s: Space, ghost levels: nat)
    returns (nredges: int, left: set<(nat, nat)>, ghost graph: Neighbours)
    requires bridges in ReportsOn(all, g, run, s, levels) && run in Runs(s, levels, root)
    requires root < |all.All| && a < |all.All|
    requires edges > max && ProtectedBelow(all, g, a, priority)
    modifies all, all.Nodes()`OptimalBunch, all.Nodes()`OptimalCluster
    ensures left in ReportsOn(all, graph, run, s, levels) && Subgraph(graph, g)
    ensures OnlyCluster(all, a, old(all.OptimalClusters()))
    ensures Shrunk(all, old(all.OptimalBunches()), old(all.OptimalClusters()))
    ensures max <= nredges <= edges
    ensures |all.All[a].OptimalCluster| == |old(all.All[a].OptimalCluster)| - (edges - nredges)
    ensures all.All[a].OptimalBunch == old(all.All[a].OptimalBunch)
    ensures nredges > max ==> ProtectedBelow(all, graph, a, priority + 1)
  {
    nredges, left, graph := edges, bridges, g;
    for c := 0 to |all.All|
      invariant left in ReportsOn(all, graph, run, s, levels) && Subgraph(graph, g)
      invariant OnlyCluster(all, a, old(all.OptimalClusters()))
      invariant Shrunk(all, old(all.OptimalBunches()), old(all.OptimalClusters()))
      invariant max < nredges <= edges
      invariant |all.All[a].OptimalCluster| == |old(all.All[a].OptimalCluster)| - (edges - nredges)
      invariant all.All[a].OptimalBunch == old(all.All[a].OptimalBunch)
      invariant ProtectedSoFar(all, graph, a, priority, c)
    {
      var removed;
      removed, left, graph := VisitMember(all, root, a, c, priority, left, graph, run, s, levels);
      if removed {
        nredges := nredges - 1;
        if nredges <= max {
          return;
        }
      }
    }
  }

  // The loop that takes nodes out of the cluster of a, level by level. It stops
  // at the bound, or when only pivot links and bridges are left.
  method ClusterPass(all: LocalityNodes, root: nat, a: nat, max: int, edges: int, bridges: set<(nat, nat)>,
          ghost g: Neighbours, ghost run: Run, ghost s: Space, levels: nat)
    returns (nredges: int, left: set<(nat, nat)>, ghost graph: Neighbours)
    requires bridges in ReportsOn(all, g, run, s, levels) && run in Runs(s, levels, root)
    requires root < |all.All| && a < |all.All|
    requires Below(s, levels)
    modifies all, all.Nodes()`OptimalBunch, all.Nodes()`OptimalCluster
    ensures left in ReportsOn(all, graph, run, s, levels) && Subgraph(graph, g)
    ensures OnlyCluster(all, a, old(all.OptimalClusters()))
    ensures Shrunk(all, old(all.OptimalBunches()), old(all.OptimalClusters()))
    ensures if edges > max then max <= nredges <= edges else nredges == edges
    ensures |all.All[a].OptimalCluster| == |old(all.All[a].OptimalCluster)| - (edges - nredges)
    ensures all.All[a].OptimalBunch == old(all.All[a].OptimalBunch)
    ensures nredges > max ==> ProtectedBelow(all, graph, a, levels)
  {
    nredges, left, graph := edges, bridges, g;
    var clusterPriority := -1;
    while nredges > max
      invariant left in ReportsOn(all, graph, run, s, levels) && Subgraph(graph, g)
      invariant OnlyCluster(all, a, old(all.OptimalClusters()))
      invariant Shrunk(all, old(all.OptimalBunches()), old(all.OptimalClusters()))
      invariant if edges > max then max <= nredges <= edges else nredges == edges
      invariant |all.All[a].OptimalCluster| == |old(all.All[a].OptimalCluster)| - (edges - nredges)
      invariant all.All[a].OptimalBunch == old(all.All[a].OptimalBunch)
      invariant -1 <= clusterPriority <= levels
      invariant nredges > max ==> ProtectedBelow(all, graph, a, clusterPriority + 1)
      decreases levels - clusterPriority
    {
      clusterPriority := clusterPriority + 1;
      nredges, left, graph := ClusterLevel(all, root, a, max, nredges, clusterPriority, left, graph, run, s, levels);
      if nredges <= max {
        break;
      }
      if clusterPriority > levels {
        break;
      }
    }
  }

  // The attempts to take nodes out of the bunch of a, at most one per attempt.
  // Bunches of other nodes are left alone, and that of a never shrinks below the
  // bound. When its bunch is small, or few links are over the bound, a is brought
  // down to the bound or keeps only pivots and bridges.
  method BunchPass(all: LocalityNodes, root: nat, a: nat, max: int, edges: int, perLevel: map<int, set<nat>>,
          bridges: set<(nat, nat)>, ghost g: Neighbours, ghost run: Run, ghost s: Space, levels: nat)
    returns (nredges: int, left: set<(nat, nat)>, ghost graph: Neighbours)
    requires bridges in ReportsOn(all, g, run, s, levels) && run in Runs(s, levels, root)
    requires root < |all.All| && a < |all.All|
    requires LevelsSorted(all, all.All[a].OptimalBunch, perLevel) && AtMostLevel(all, all.All[a].OptimalBunch, levels)
    modifies all, all.Nodes()`OptimalBunch, all.Nodes()`OptimalCluster
    ensures left in ReportsOn(all, graph, run, s, levels) && Subgraph(graph, g)
    ensures LinksOf(all) in BunchLosses(old(LinksOf(all)), a)
    ensures |all.All[a].OptimalBunch| == |old(all.All[a].OptimalBunch)| - (edges - nredges)
    ensures if edges > max then max <= nredges <= edges else nredges == edges
    ensures edges - nredges <= 100
    ensures nredges > max && FewToRemove(|old(all.All[a].OptimalBunch)|, edges - max, levels) ==>
      BunchSeen(all, graph, a, {})
  {
    ghost var size, l, unseen := |all.All[a].OptimalBunch|, LinksOf(all), all.All[a].OptimalBunch;
    nredges, left, graph := edges, bridges, g;
    var nrPerLevel, attempts, priorityLevel: int := perLevel, 0, levels;
    ghost var removed, seen := true, false;
    while nredges > max && attempts < 100
      invariant left in ReportsOn(all, graph, run, s, levels) && Subgraph(graph, g)
      invariant LinksOf(all) in BunchLosses(l, a) && unseen in Records(all, graph, a, nrPerLevel, priorityLevel)
      invariant |all.All[a].OptimalBunch| == size - (edges - nredges)
      invariant if edges > max then max <= nredges <= edges else nredges == edges
      invariant edges - nredges <= attempts <= 100 && (removed || NoneExempt(all, a, left, unseen))
      invariant if seen then BunchSeen(all, graph, a, {})
                else attempts + priorityLevel + (if removed then 1 else 0) <= 2 * (edges - nredges) + levels + 1
    {
      ghost var before := LinksOf(all);
      attempts := attempts + 1;
      nredges, nrPerLevel, priorityLevel, left, graph, unseen, removed, seen :=
        NextAttempt(all, root, a, nredges, nrPerLevel, priorityLevel, left, graph, run, s, levels, unseen, seen);
      LostTwice(l, before, LinksOf(all), a);
    }
    NothingUnseen(all, s, levels, graph, a, unseen, nrPerLevel, priorityLevel);
  }

  // The body of the loop.
  method NextAttempt(all: LocalityNodes, root: nat, a: nat, edges: int, perLevel: map<int, set<nat>>, priority: int,
          bridges: set<(nat, nat)>, ghost g: Neighbours, ghost run: Run, ghost s: Space, ghost levels: nat,
          ghost unseen: set<nat>, ghost before: bool)
    returns (nredges: int, nrPerLevel: map<int, set<nat>>, priorityLevel: int, left: set<(nat, nat)>,
            ghost graph: Neighbours, ghost rest: set<nat>, ghost removed: bool, ghost seen: bool)
    requires bridges in ReportsOn(all, g, run, s, levels) && run in Runs(s, levels, root)
    requires root < |all.All| && a < |all.All| && unseen in Records(all, g, a, perLevel, priority)
    requires before ==> BunchSeen(all, g, a, {})
    modifies all, all.Nodes()`OptimalBunch, all.Nodes()`OptimalCluster
    ensures left in ReportsOn(all, graph, run, s, levels) && Subgraph(graph, g)
    ensures LinksOf(all) in BunchLosses(old(LinksOf(all)), a)
    ensures nredges == edges - (if removed then 1 else 0)
    ensures |all.All[a].OptimalBunch| == |old(all.All[a].OptimalBunch)| - (edges - nredges)
    ensures rest in Records(all, graph, a, nrPerLevel, priorityLevel)
    ensures (before ==> seen) && (seen ==> BunchSeen(all, graph, a, {}))
    ensures priorityLevel <= priority && (removed || NoneExempt(all, a, left, rest))
    ensures removed || priorityLevel < priority || seen || !NoneExempt(all, a, bridges, unseen)
  {
    var gone;
    gone, nrPerLevel, priorityLevel, left, graph, rest :=
      Attempt(all, root, a, perLevel, priority, bridges, g, run, s, levels, unseen);
    nredges := edges;
    if gone {
      nredges := nredges - 1;
    }
    removed, seen := gone, BunchSeen(all, graph, a, {});
  }

  // Once no level has priority any more, every member has been found to be needed.
  lemma NothingUnseen(all: LocalityNodes, s: Space, levels: nat, g: Neighbours, a: nat, unseen: set<nat>,
          nrPerLevel: map<int, set<nat>>, priorityLevel: int)
    requires Pruned(all, s, levels) && a < |all.All| && unseen in Records(all, g, a, nrPerLevel, priorityLevel)
    ensures (priorityLevel >= 0 && |all.All[a].OptimalBunch| > 0) || BunchSeen(all, g, a, {})
  {
    if priorityLevel < 0 {
      assert unseen == {};
    }
  }

  // One attempt: at most one member leaves the bunch of a, or the record moves on.
  method Attempt(all: LocalityNodes, root: nat, a: nat, perLevel: map<int, set<nat>>, priority: int,
          bridges: set<(nat, nat)>, ghost g: Neighbours, ghost run: Run, ghost s: Space, ghost levels: nat,
          ghost unseen: set<nat>)
    returns (removed: bool, nrPerLevel: map<int, set<nat>>, priorityLevel: int, left: set<(nat, nat)>,
            ghost graph: Neighbours, ghost rest: set<nat>)
    requires bridges in ReportsOn(all, g, run, s, levels) && run in Runs(s, levels, root)
    requires root < |all.All| && a < |all.All|
    requires Record(all, g, a, unseen, perLevel, priority)
    modifies all, all.Nodes()`OptimalBunch, all.Nodes()`OptimalCluster
    ensures left in ReportsOn(all, graph, run, s, levels) && Subgraph(graph, g)
    ensures LinksOf(all) in BunchLosses(old(LinksOf(all)), a)
    ensures |all.All[a].OptimalBunch| == |old(all.All[a].OptimalBunch)| - if removed then 1 else 0
    ensures Record(all, graph, a, rest, nrPerLevel, priorityLevel)
    ensures old(BunchSeen(all, g, a, {})) ==> BunchSeen(all, graph, a, {})
    ensures priorityLevel <= priority && (removed || NoneExempt(all, a, left, rest))
    ensures removed || priorityLevel < priority || BunchSeen(all, graph, a, {}) || !NoneExempt(all, a, bridges, unseen)
  {
    var found;
    found, nrPerLevel, priorityLevel, rest := FindRemovable(all, a, perLevel, priority, bridges, g, s, levels, unseen);
    match found {
      case None =>
        removed, left, graph := false, bridges, g;
      case Some(b) =>
        removed := true;
        left, graph := TakeFromBunch(all, root, a, b, rest, nrPerLevel, priorityLevel, bridges, g, run, s, levels);
    }
  }

  method TakeFromBunch(all: LocalityNodes, root: nat, a: nat, b: nat, ghost rest: set<nat>,
          ghost nrPerLevel: map<int, set<nat>>, ghost priorityLevel: int, ghost bridges: set<(nat, nat)>,
          ghost g: Neighbours, ghost run: Run, ghost s: Space, ghost levels: nat)
    returns (left: set<(nat, nat)>, ghost graph: Neighbours)
    requires bridges in ReportsOn(all, g, run, s, levels) && run in Runs(s, levels, root)
    requires root < |all.All| && a < |all.All| && Removable(all, g, a, bridges, b, rest, nrPerLevel, priorityLevel)
    modifies all, all.Nodes()`OptimalBunch, all.Nodes()`OptimalCluster
    ensures left in ReportsOn(all, graph, run, s, levels) && Subgraph(graph, g)
    ensures LinksOf(all) in BunchLosses(old(LinksOf(all)), a)
    ensures |all.All[a].OptimalBunch| == |old(all.All[a].OptimalBunch)| - 1
    ensures Record(all, graph, a, rest, nrPerLevel, priorityLevel)
    ensures old(BunchSeen(all, g, a, {})) ==> BunchSeen(all, graph, a, {})
  {
    left, graph := UnlinkAndReport(all, root, a, b, bridges, g, run, s, levels);
    forall x | x in all.All[a].OptimalBunch && old(Needed(all, g, a, x))
      ensures Needed(all, graph, a, x)
    {
      if IsBridge(g, a, x) {
        BridgeSurvives(g, graph, a, x);
      }
    }
  }

  method CountEdges(all: LocalityNodes, a: nat, ghost s: Space, ghost levels: nat) returns (nredges: nat)
    requires Pruned(all, s, levels) && a < |all.All|
    ensures nredges == |EdgesOf(s, a)|
  {
    var node := all.All[a];
    assert NodeKept(all, s, levels, a);
    assert EdgesOf(s, a) == node.Cluster + node.Bunch;
    nredges := 0;
    ghost var linked: set<nat> := {};
    for x := 0 to |all.All|
      invariant linked <= node.Cluster + node.Bunch
      invariant forall y :: y in node.Cluster + node.Bunch ==> (y in linked <==> y < x)
      invariant nredges == |linked|
    {
      if x in node.Cluster || x in node.Bunch {
        nredges := nredges + 1;
        linked := linked + {x};
      }
    }
    assert linked == node.Cluster + node.Bunch;
  }

  lemma RunBegins(all: LocalityNodes, root: nat, bridges: set<(nat, nat)>, graph: Neighbours, s: Space, levels: nat)
    requires Pruned(all, s, levels) && root < |all.All| && IsGraph(all, graph) && bridges in ReportsOf(graph, root)
    ensures RunFrom(s, levels, root, LinksOf(all)) in Runs(s, levels, root)
    ensures (LinksOf(all), bridges) in RunFrom(s, levels, root, LinksOf(all))
  {
    var l := LinksOf(all);
    RunFromIsClosed(s, levels, root, l);
    NoRemovals(s, levels, root, l);
    assert Joined(l) == graph;
    assert IsOfRun(s, levels, root, l, l, bridges);
  }

  // For either kind of optimisation and any bound.
  method RemoveLinks(all: LocalityNodes, root: nat, max: int, optType: int, ghost s: Space, levels: nat)
    returns (ghost graph: Neighbours, ghost known: set<(nat, nat)>)
    requires Pruned(all, s, levels) && root < |all.All|
    requires Below(s, levels)
    modifies all, all.Nodes()`OptimalBunch, all.Nodes()`OptimalCluster
    ensures Pruned(all, s, levels) && IsGraph(all, graph) && LinksOf(all).Within(old(LinksOf(all)))
    ensures LinksOf(all) in AfterRemovals(s, levels, root, old(LinksOf(all)))
    ensures AllBridges(graph, known)
    ensures FirstOptimised(TargetOf(s, levels, max, optType == 1), known, |all.All|, LinksOf(all))
    ensures optType != 1 ==> NotBelow(max, old(LinksOf(all)), |all.All|, LinksOf(all))
    ensures Total(old(LinksOf(all)).bunches) <=
            Total(LinksOf(all).bunches) + TotalExcess(TargetOf(s, levels, max, optType == 1), |all.All|)
  {
    var bridges;
    bridges, graph := CurrentBridges(all, root, s, levels);
    ghost var run := RunFrom(s, levels, root, LinksOf(all));
    RunBegins(all, root, bridges, graph, s, levels);
    ghost var after;
    bridges, graph, known, after := Rounds(all, root, max, optType, bridges, graph, run, s, levels,
            TargetOf(s, levels, max, optType == 1), LinksOf(all));
  }

  // The loop over the nodes.
  method Rounds(all: LocalityNodes, root: nat, max: int, optType: int, before: set<(nat, nat)>, ghost g: Neighbours,
          ghost run: Run, ghost s: Space, levels: nat, ghost t: Target, ghost first: Links)
    returns (bridges: set<(nat, nat)>, ghost graph: Neighbours, ghost known: set<(nat, nat)>, ghost after: Links)
    requires before in ReportsOn(all, g, run, s, levels) && run in Runs(s, levels, root) && root < |all.All|
    requires t == TargetOf(s, levels, max, optType == 1) && first == LinksOf(all)
    requires Below(s, levels)
    modifies all, all.Nodes()`OptimalBunch, all.Nodes()`OptimalCluster
    ensures bridges in ReportsOn(all, graph, run, s, levels) && after == LinksOf(all)
    ensures after in LeftAfter(t, max, graph, known, first, |all.All|)
  {
    bridges, graph, known, after := before, g, {}, first;
    NoneAchieved(t, max, g, first);
    for a := 0 to |all.All|
      invariant bridges in ReportsOn(all, graph, run, s, levels) && after == LinksOf(all)
      invariant after in LeftAfter(t, max, graph, known, first, a)
    {
      bridges, graph, known, after :=
        Round(all, root, a, max, optType, bridges, graph, run, s, levels, t, known, first, after);
    }
  }

  // One round of the loop over the nodes, with what the rounds before it achieved.
  method Round(all: LocalityNodes, root: nat, a: nat, max: int, optType: int, before: set<(nat, nat)>,
          ghost g: Neighbours, ghost run: Run, ghost s: Space, levels: nat,
      ghost t: Target, ghost safe: set<(nat, nat)>, ghost first: Links, ghost l: Links)
    returns (bridges: set<(nat, nat)>, ghost graph: Neighbours, ghost known: set<(nat, nat)>, ghost after: Links)
    requires before in ReportsOn(all, g, run, s, levels) && run in Runs(s, levels, root)
    requires root < |all.All| && a < |all.All|
    requires t == TargetOf(s, levels, max, optType == 1)
    requires Below(s, levels)
    requires l == LinksOf(all) && l in LeftAfter(t, max, g, safe, first, a)
    modifies all, all.Nodes()`OptimalBunch, all.Nodes()`OptimalCluster
    ensures bridges in ReportsOn(all, graph, run, s, levels) && after == LinksOf(all)
    ensures Total(l.bunches) <= Total(after.bunches) + t.excess[a]
    ensures after in LeftAfter(t, max, graph, known, first, a + 1)
  {
    ghost var found;
    if optType == 1 {
      bridges, graph, found, after := PruneBoth(all, root, a, max, before, g, run, s, levels, t, l);
    } else {
      bridges, graph, found, after := PruneBunch(all, root, a, max, before, g, run, s, levels, t, l);
    }
    known := OneMoreAchieved(t, max, g, graph, safe, found, first, a, l, after);
  }

  // The two passes of a round with the cluster optimisation.
  method PruneBoth(all: LocalityNodes, root: nat, a: nat, max: int, before: set<(nat, nat)>, ghost g: Neighbours,
          ghost run: Run, ghost s: Space, levels: nat, ghost t: Target, ghost l: Links)
    returns (bridges: set<(nat, nat)>, ghost graph: Neighbours, ghost found: set<(nat, nat)>, ghost after: Links)
    requires before in ReportsOn(all, g, run, s, levels) && run in Runs(s, levels, root)
    requires root < |all.All| && a < |all.All|
    requires t == TargetOf(s, levels, max, true) && l == LinksOf(all)
    requires Below(s, levels)
    modifies all, all.Nodes()`OptimalBunch, all.Nodes()`OptimalCluster
    ensures bridges in ReportsOn(all, graph, run, s, levels) && Subgraph(graph, g)
    ensures after == LinksOf(all) && after.Within(l) && after.Joins(graph)
    ensures Total(l.bunches) <= Total(after.bunches) + t.excess[a]
    ensures AllBridges(graph, found) && Optimised(t, found, a, after.bunches[a], after.clusters[a])
  {
    assert NodeKept(all, s, levels, a);
    var nredges, nrPerLevel;
    ghost var n1, g1, found1, found2, l1;
    nredges, nrPerLevel, bridges, g1, found1, l1 := ClusterStage(all, root, a, max, before, g, run, s, levels, t, l);
    n1 := nredges;
    nredges, bridges, graph, found2, after :=
      BunchStage(all, root, a, max, nredges, nrPerLevel, bridges, g1, run, s, levels, t, true, l1);
    found := BothPassesAchieve(s, levels, max, t, a, n1, nredges, g1, graph, found1, found2, l, l1, after);
  }

  // The links of a are counted, and the pass over its cluster is made.
  method ClusterStage(all: LocalityNodes, root: nat, a: nat, max: int, before: set<(nat, nat)>, ghost g: Neighbours,
          ghost run: Run, ghost s: Space, levels: nat, ghost t: Target, ghost l: Links)
    returns (nredges: int, nrPerLevel: map<int, set<nat>>, bridges: set<(nat, nat)>, ghost graph: Neighbours,
            ghost found: set<(nat, nat)>, ghost after: Links)
    requires before in ReportsOn(all, g, run, s, levels) && run in Runs(s, levels, root)
    requires root < |all.All| && a < |all.All|
    requires t == TargetOf(s, levels, max, true) && l == LinksOf(all)
    requires Below(s, levels)
    modifies all, all.Nodes()`OptimalBunch, all.Nodes()`OptimalCluster
    ensures bridges in ReportsOn(all, graph, run, s, levels) && Subgraph(graph, g)
    ensures after == LinksOf(all) && after.Within(l) && after.bunches[a] == l.bunches[a]
    ensures LevelsSorted(all, after.bunches[a], nrPerLevel)
    ensures |after.clusters[a]| == |l.clusters[a]| - (|EdgesOf(s, a)| - nredges)
    ensures Total(after.bunches) == Total(l.bunches) - (|EdgesOf(s, a)| - nredges)
    ensures if |EdgesOf(s, a)| > max then max <= nredges <= |EdgesOf(s, a)| else nredges == |EdgesOf(s, a)|
    ensures nredges - max <= ExcessOf(s, max, true, a)
    ensures AllBridges(graph, found) && (nredges > max ==> ClusterSafe(t, found, a, after.clusters[a]))
  {
    DualLinks(all, s, levels);
    var edges := CountEdges(all, a, s, levels);
    nrPerLevel := CountLevels(all, a, s, levels);
    nredges, bridges, graph := ClusterPass(all, root, a, max, edges, before, g, run, s, levels);
    found := BridgesFrom(graph, a, all.All[a].OptimalCluster);
    DualLinks(all, s, levels);
    after := LinksOf(all);
    ClusterTotal(l, after, a);
    if nredges > max {
      ProtectedIsSafe(all, graph, s, levels, t, a, max);
    }
  }

  // The pass over the bunch of a, for a given number of links.
  method BunchStage(all: LocalityNodes, root: nat, a: nat, max: int, edges: int, perLevel: map<int, set<nat>>,
          before: set<(nat, nat)>, ghost g: Neighbours, ghost run: Run, ghost s: Space, levels: nat, ghost t: Target,
          ghost both: bool, ghost l: Links)
    returns (nredges: int, bridges: set<(nat, nat)>, ghost graph: Neighbours, ghost found: set<(nat, nat)>,
            ghost after: Links)
    requires before in ReportsOn(all, g, run, s, levels) && run in Runs(s, levels, root)
    requires root < |all.All| && a < |all.All|
    requires Below(s, levels)
    requires l == LinksOf(all) && LevelsSorted(all, l.bunches[a], perLevel)
    requires t == TargetOf(s, levels, max, both)
    requires edges - max <= ExcessOf(s, max, both, a)
    modifies all, all.Nodes()`OptimalBunch, all.Nodes()`OptimalCluster
    ensures bridges in ReportsOn(all, graph, run, s, levels) && Subgraph(graph, g)
    ensures after == LinksOf(all) && after in BunchLosses(l, a) && after.Joins(graph)
    ensures |after.bunches[a]| == |l.bunches[a]| - (edges - nredges)
    ensures Total(after.bunches) == Total(l.bunches) - (edges - nredges)
    ensures if edges > max then max <= nredges <= edges else nredges == edges
    ensures AllBridges(graph, found)
    ensures (nredges > max && t.few[a] ==> BunchSafe(t, found, a, after.bunches[a]))
  {
    assert NodeKept(all, s, levels, a);
    if FewOf(s, levels, max, both, a) {
      FewerToRemove(s, levels, max, both, a, all.All[a].OptimalBunch, edges - max);
    }
    nredges, bridges, graph := BunchPass(all, root, a, max, edges, perLevel, before, g, run, s, levels);
    after := LinksOf(all);
    TotalAt(l.bunches, after.bunches, a);
    found := BridgesFrom(graph, a, all.All[a].OptimalBunch);
    if nredges > max && t.few[a] {
      NeededIsSafe(all, graph, s, levels, t, a, max, both);
    }
  }

  // A round that looks at the bunch of a only.
  method PruneBunch(all: LocalityNodes, root: nat, a: nat, max: int, before: set<(nat, nat)>, ghost g: Neighbours,
          ghost run: Run, ghost s: Space, levels: nat, ghost t: Target, ghost l: Links)
    returns (bridges: set<(nat, nat)>, ghost graph: Neighbours, ghost found: set<(nat, nat)>, ghost after: Links)
    requires before in ReportsOn(all, g, run, s, levels) && run in Runs(s, levels, root)
    requires root < |all.All| && a < |all.All|
    requires t == TargetOf(s, levels, max, false) && l == LinksOf(all)
    requires Below(s, levels)
    modifies all, all.Nodes()`OptimalBunch, all.Nodes()`OptimalCluster
    ensures bridges in ReportsOn(all, graph, run, s, levels) && Subgraph(graph, g)
    ensures after == LinksOf(all) && after.Within(l) && after.Joins(graph)
    ensures Total(l.bunches) <= Total(after.bunches) + t.excess[a]
    ensures AllBridges(graph, found) && Optimised(t, found, a, after.bunches[a], after.clusters[a])
    ensures |after.bunches[a]| >= max || after.bunches[a] == l.bunches[a]
    ensures forall v :: 0 <= v < |l.bunches| && v != a ==> after.bunches[v] == l.bunches[v]
  {
    assert NodeKept(all, s, levels, a);
    SmallerSubset(all.All[a].OptimalBunch, s.Bunch(a));
    var bunch := all.All[a].OptimalBunch;
    var nrPerLevel := CountLevels(all, a, s, levels);
    var left;
    left, bridges, graph, found, after :=
      BunchStage(all, root, a, max, |bunch|, nrPerLevel, before, g, run, s, levels, t, false, l);
    if left == |bunch| {
      SameSizeSubset(after.bunches[a], bunch);
    }
  }
}
