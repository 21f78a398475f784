// gentree/Save.go: what the removals of RemoveLinks keep, and what they achieve.

module KeptLinks {
  import opened Basics
  import opened Values
  import opened Spaces
  import opened LocalityGraph
  import opened Connectivity

  ghost predicate IsAPivot(node: LocalityNode, x: nat)
    reads node`PDist
  {
    Some(x) in node.PDist
  }

  // What every removal keeps at node v: duality, OptimalBunch within Bunch, and
  // no pivot dropped.
  ghost predicate NodeKept(all: LocalityNodes, s: Space, levels: nat, v: nat)
    requires all.Describes(s) && v < |all.All|
    reads all, all.Nodes()
  {
    var node := all.All[v];
    && all.PivotsDone(s, v, levels) && node.Bunch == s.Bunch(v) && node.Cluster == s.Cluster(v)
    && node.OptimalBunch <= node.Bunch
    && (forall x :: IsAPivot(node, x) && x != v ==> x in node.OptimalBunch)
    && node.OptimalCluster <= node.Cluster
    && forall x :: 0 <= x < |all.All| ==> (x in node.OptimalBunch <==> v in all.All[x].OptimalCluster)
  }

  // The table forgets exactly the pairs that have lost a link in some direction.
  ghost predicate EntryKept(all: LocalityNodes, s: Space, a: nat, b: nat)
    requires all.Describes(s) && a < |all.All| && b < |all.All|
    reads all, all.Nodes()
  {
    && (a, b) in all.ClusterBunchDistances
    && all.ClusterBunchDistances[(a, b)] ==
       if b in s.Bunch(a) - all.All[a].OptimalBunch || a in s.Bunch(b) - all.All[b].OptimalBunch then Max
       else TableEntry(s, a, b)
  }

  ghost predicate Pruned(all: LocalityNodes, s: Space, levels: nat)
    reads all, all.Nodes()
  {
    && all.Describes(s)
    && (forall v :: 0 <= v < |all.All| ==> NodeKept(all, s, levels, v))
    && forall a, b :: 0 <= a < |all.All| && 0 <= b < |all.All| ==> EntryKept(all, s, a, b)
  }

  lemma NothingPrunedYet(all: LocalityNodes, s: Space, levels: nat)
    requires all.Describes(s) && all.Built(s, levels) && all.Unpruned()
    ensures Pruned(all, s, levels)
  {
    forall v | 0 <= v < |all.All|
      ensures NodeKept(all, s, levels, v)
    {
      var node := all.All[v];
      assert all.PivotsDone(s, v, levels);
      forall x | IsAPivot(node, x) && x != v
        ensures x in node.OptimalBunch
      {
        var i :| 0 <= i < levels && node.PDist[i] == Some(x);
        assert s.PivotEntry(v, i, node.PDist[i], node.ADist[i]);
        PivotInBunch(s, v, i, x);
      }
    }
  }

  ghost predicate IsGraph(all: LocalityNodes, g: Neighbours)
    reads all, all.Nodes()
  {
    |g| == |all.All| && forall v :: 0 <= v < |g| ==> g[v] == all.GetChildren(v)
  }

  ghost predicate AllBridges(g: Neighbours, bridges: set<(nat, nat)>) {
    forall e :: e in bridges ==> IsBridge(g, e.0, e.1)
  }

  lemma KeptIsUndirected(all: LocalityNodes, s: Space, levels: nat, g: Neighbours)
    requires Pruned(all, s, levels) && IsGraph(all, g)
    ensures Undirected(g)
  {
    forall x: nat, y: nat | x < |g| && y in g[x]
      ensures y < |g| && y != x
    {
      assert NodeKept(all, s, levels, x);
      assert y in s.Bunch(x) || y in s.Cluster(x);
    }
    forall x: nat, y: nat | x < |g| && y < |g| && y in g[x]
      ensures x in g[y]
    {
      assert NodeKept(all, s, levels, x) && NodeKept(all, s, levels, y);
    }
  }

  // Nothing has been added to a bunch or a cluster since an earlier state.
  ghost predicate Shrunk(all: LocalityNodes, bunches: seq<set<nat>>, clusters: seq<set<nat>>)
    reads all.Nodes()
  {
    && |bunches| == |clusters| == |all.All|
    && forall v :: 0 <= v < |all.All| ==>
      all.All[v].OptimalBunch <= bunches[v] && all.All[v].OptimalCluster <= clusters[v]
  }

  lemma ShrunkGraph(all: LocalityNodes, bunches: seq<set<nat>>, clusters: seq<set<nat>>, g: Neighbours, g': Neighbours)
    requires Shrunk(all, bunches, clusters) && IsGraph(all, g')
    requires |g| == |bunches| && forall v :: 0 <= v < |g| ==> g[v] == bunches[v] + clusters[v]
    ensures Subgraph(g', g)
  {
  }

  lemma ShrunkLinks(all: LocalityNodes, l: Links, g: Neighbours)
    requires Shrunk(all, l.bunches, l.clusters) && IsGraph(all, g)
    ensures LinksOf(all).Within(l) && LinksOf(all).Joins(g)
  {
  }

  // Why the link from a to the member c of its cluster is not removed.
  ghost predicate Protected(all: LocalityNodes, g: Neighbours, a: nat, c: nat)
    reads all.Nodes()
  {
    c < |all.All| && (IsAPivot(all.All[c], a) || IsBridge(g, a, c))
  }

  // The protected members of the cluster of a, up to and excluding a level.
  ghost predicate ProtectedBelow(all: LocalityNodes, g: Neighbours, a: nat, level: int)
    requires a < |all.All|
    reads all.Nodes()
  {
    forall c :: 0 <= c < |all.All| && c in all.All[a].OptimalCluster && all.All[c].Level < level ==>
      Protected(all, g, a, c)
  }

  // Why the link from a to the member c of its bunch is not removed.
  ghost predicate Needed(all: LocalityNodes, g: Neighbours, a: nat, c: nat)
    requires a < |all.All|
    reads all.Nodes()
  {
    IsAPivot(all.All[a], c) || IsBridge(g, a, c)
  }

  // Only needed members are left in the bunch of a, but for those in unseen.
  ghost predicate BunchSeen(all: LocalityNodes, g: Neighbours, a: nat, unseen: set<nat>)
    requires a < |all.All|
    reads all.Nodes()
  {
    forall c :: c in all.All[a].OptimalBunch && c !in unseen ==> Needed(all, g, a, c)
  }

  // A set of links, each with a report of the bridges of the graph that they make.
  type Run = iset<(Links, set<(nat, nat)>)>

  // What all of pruning keeps, the graph as it is, and bridges reported for it. The
  // links of now, with this report, belong to the run.
  ghost predicate GraphKept(all: LocalityNodes, graph: Neighbours, left: set<(nat, nat)>, run: Run, s: Space,
          levels: nat)
    reads all, all.Nodes()
  {
    && Pruned(all, s, levels) && IsGraph(all, graph) && AllBridges(graph, left)
    && (LinksOf(all), left) in run
  }

  // The bridges that may be known of a graph.
  ghost function ReportsOn(all: LocalityNodes, graph: Neighbours, run: Run, s: Space,
          levels: nat): iset<set<(nat, nat)>>
    reads all, all.Nodes()
  {
    iset left | GraphKept(all, graph, left, run, s, levels)
  }

  // The protected members of lower levels, and those of this level below bound.
  ghost predicate ProtectedSoFar(all: LocalityNodes, g: Neighbours, a: nat, level: int, bound: nat)
    requires a < |all.All|
    reads all.Nodes()
  {
    forall c :: 0 <= c < |all.All| && c in all.All[a].OptimalCluster ==>
      (all.All[c].Level < level || (all.All[c].Level == level && c < bound) ==> Protected(all, g, a, c))
  }

  // How many nodes a is linked to before any pruning.
  ghost function EdgesOf(s: Space, a: nat): set<nat>
    requires s.Valid() && a < s.Size()
  {
    s.Cluster(a) + s.Bunch(a)
  }

  // The OptimalBunch and OptimalCluster of every node at some moment.
  datatype Links = Links(bunches: seq<set<nat>>, clusters: seq<set<nat>>) {

    ghost function Size(): nat {
      if |clusters| == |bunches| then |bunches| else 0
    }

    ghost predicate Within(other: Links) {
      && |bunches| == |clusters| == |other.bunches| == |other.clusters|
      && (forall v :: 0 <= v < |bunches| ==> bunches[v] <= other.bunches[v])
      && forall v :: 0 <= v < |clusters| ==> clusters[v] <= other.clusters[v]
    }

    ghost predicate Joins(g: Neighbours) {
      |bunches| == |clusters| == |g| && forall v :: 0 <= v < |g| ==> g[v] == bunches[v] + clusters[v]
    }
  }

  // Nothing has been added, and no bunch but that of a has changed.
  ghost function BunchLosses(l: Links, a: nat): iset<Links> {
    iset l': Links | LostFromBunch(l, l', a)
  }

  ghost predicate LostFromBunch(l: Links, l': Links, a: nat) {
    l'.Within(l) && forall v :: 0 <= v < |l.bunches| && v != a ==> l'.bunches[v] == l.bunches[v]
  }

  lemma LostTwice(l: Links, l': Links, l'': Links, a: nat)
    requires l' in BunchLosses(l, a) && l'' in BunchLosses(l', a)
    ensures l'' in BunchLosses(l, a)
  {
  }

  ghost function LinksOf(all: LocalityNodes): (l: Links)
    reads all.Nodes()
    ensures |l.bunches| == |l.clusters| == |all.All|
  {
    Links(all.OptimalBunches(), all.OptimalClusters())
  }

  // How many links there are, each counted at the node whose bunch it is in.
  ghost function Total(bunches: seq<set<nat>>): nat {
    if bunches == [] then 0 else Total(bunches[..|bunches| - 1]) + |bunches[|bunches| - 1]|
  }

  // Only the bunch of a differs.
  lemma {:induction false} TotalAt(bunches: seq<set<nat>>, bunches': seq<set<nat>>, a: nat)
    requires a < |bunches| == |bunches'|
    requires forall v :: 0 <= v < |bunches| && v != a ==> bunches'[v] == bunches[v]
    ensures Total(bunches') - |bunches'[a]| == Total(bunches) - |bunches[a]|
  {
    var last := |bunches| - 1;
    if a < last {
      TotalAt(bunches[..last], bunches'[..last], a);
    } else {
      assert bunches'[..last] == bunches[..last];
    }
  }

  // The bunches of the nodes in lost have each lost the node a.
  lemma {:induction false} TotalLost(bunches: seq<set<nat>>, bunches': seq<set<nat>>, a: nat, lost: set<nat>)
    requires |bunches| == |bunches'| && forall v :: v in lost ==> v < |bunches| && a in bunches[v]
    requires forall v :: 0 <= v < |bunches| ==> bunches'[v] == if v in lost then bunches[v] - {a} else bunches[v]
    ensures Total(bunches') == Total(bunches) - |lost|
  {
    if bunches == [] {
      assert lost == {};
    } else {
      var last := |bunches| - 1;
      TotalLost(bunches[..last], bunches'[..last], a, lost - {last});
    }
  }

  // Each link is in a bunch and in a cluster.
  ghost predicate Dual(l: Links) {
    && |l.bunches| == |l.clusters|
    && (forall v, x :: 0 <= v < |l.bunches| && x in l.bunches[v] ==> x < |l.bunches|)
    && (forall v, x :: 0 <= v < |l.clusters| && x in l.clusters[v] ==> x < |l.clusters|)
    && forall v: nat, x: nat :: v < |l.bunches| && x < |l.clusters| ==> (x in l.bunches[v] <==> v in l.clusters[x])
  }

  // Only the cluster of a differs.
  lemma ClusterTotal(l: Links, l': Links, a: nat)
    requires Dual(l) && Dual(l') && l'.Within(l) && a < |l.clusters|
    requires forall v :: 0 <= v < |l.clusters| && v != a ==> l'.clusters[v] == l.clusters[v]
    ensures Total(l'.bunches) - |l'.clusters[a]| == Total(l.bunches) - |l.clusters[a]|
  {
    var lost := l.clusters[a] - l'.clusters[a];
    forall v | 0 <= v < |l.bunches|
      ensures l'.bunches[v] == if v in lost then l.bunches[v] - {a} else l.bunches[v]
    {
      forall x: nat
        ensures x in l'.bunches[v] <==> x in l.bunches[v] && !(v in lost && x == a)
      {
        if x < |l.clusters| {
          assert x in l.bunches[v] <==> v in l.clusters[x];
          assert x in l'.bunches[v] <==> v in l'.clusters[x];
        }
      }
    }
    TotalLost(l.bunches, l'.bunches, a, lost);
    assert l.clusters[a] == l'.clusters[a] + lost;
  }

  // Where no link is lost, nothing has changed.
  lemma {:induction false} SameTotal(bunches: seq<set<nat>>, before: seq<set<nat>>)
    requires |bunches| == |before| && forall v :: 0 <= v < |bunches| ==> bunches[v] <= before[v]
    ensures Total(bunches) <= Total(before) && (Total(bunches) == Total(before) ==> bunches == before)
  {
    if bunches != [] {
      var last := |bunches| - 1;
      SameTotal(bunches[..last], before[..last]);
      SmallerSubset(bunches[last], before[last]);
      if bunches[last] != before[last] {
        SmallerSet(bunches[last], before[last]);
      }
      assert bunches == bunches[..last] + [bunches[last]] && before == before[..last] + [before[last]];
    }
  }

  // By how many links a node is over the bound.
  function Excess(size: nat, max: int): nat {
    if size > max then size - max else 0
  }

  // p is the pivot of v at one of the levels below the given one.
  ghost predicate HasPivot(s: Space, levels: nat, v: nat, p: nat)
    requires s.Valid() && v < s.Size()
  {
    exists i :: 0 <= i < levels && s.IsPivot(v, i, p)
  }

  // What pruning aims at. With the cluster optimisation (both), at most limits[a]
  // members in the bunch and the cluster of a: the bound plus the nodes that are
  // in both. Without it, at most the bound in the bunch. No more than its excess
  // over the bound may be taken from a node in its round. Nodes are marked
  // that can lose so few members of their bunch that the attempts suffice. Pivots may not be touched.
  datatype Target = Target(both: bool, limits: seq<int>, excess: seq<nat>, few: seq<bool>, pivots: seq<set<nat>>) {
    ghost predicate Valid() {
      |limits| == |excess| == |few| == |pivots|
    }
  }

  // The excess of the first count nodes.
  ghost function TotalExcess(t: Target, count: nat): nat
    requires t.Valid() && count <= |t.excess|
  {
    if count == 0 then 0 else TotalExcess(t, count - 1) + t.excess[count - 1]
  }

  // The attempts suffice for this many removals: two attempts for each of them, one
  // for each level, and one more.
  predicate Attemptable(removals: int, levels: nat) {
    2 * removals + levels <= 100
  }

  // No more can be removed than there are members, or members over the bound.
  predicate FewToRemove(size: nat, excess: int, levels: nat) {
    Attemptable(size, levels) || Attemptable(excess, levels)
  }

  ghost function ExcessOf(s: Space, max: int, both: bool, a: nat): nat
    requires s.Valid() && a < s.Size()
  {
    Excess(if both then |EdgesOf(s, a)| else |s.Bunch(a)|, max)
  }

  ghost predicate FewOf(s: Space, levels: nat, max: int, both: bool, a: nat)
    requires s.Valid() && a < s.Size()
  {
    FewToRemove(|s.Bunch(a)|, ExcessOf(s, max, both, a), levels)
  }

  lemma FewerToRemove(s: Space, levels: nat, max: int, both: bool, a: nat, bunch: set<nat>, excess: int)
    requires s.Valid() && a < s.Size() && FewOf(s, levels, max, both, a)
    requires bunch <= s.Bunch(a) && excess <= ExcessOf(s, max, both, a)
    ensures FewToRemove(|bunch|, excess, levels)
  {
    SmallerSubset(bunch, s.Bunch(a));
  }

  ghost function TargetOf(s: Space, levels: nat, max: int, both: bool): (t: Target)
    requires s.Valid()
    ensures t.Valid() && |t.limits| == s.Size() && t.both == both
  {
    Target(both,
           seq(s.Size(), a requires 0 <= a < s.Size() => max + if both then |s.Bunch(a) * s.Cluster(a)| else 0),
           seq(s.Size(), a requires 0 <= a < s.Size() => ExcessOf(s, max, both, a)),
           seq(s.Size(), a requires 0 <= a < s.Size() => FewOf(s, levels, max, both, a)),
           seq(s.Size(), v requires 0 <= v < s.Size() => set p: nat | p < s.Size() && HasPivot(s, levels, v, p)))
  }

  // Only nodes for which a is a pivot and known bridges are left in the cluster.
  ghost predicate ClusterSafe(t: Target, known: set<(nat, nat)>, a: nat, cluster: set<nat>) {
    forall c :: c in cluster ==> c < |t.pivots| && (a in t.pivots[c] || (a, c) in known)
  }

  // Only pivots of a and known bridges are left in the bunch.
  ghost predicate BunchSafe(t: Target, known: set<(nat, nat)>, a: nat, bunch: set<nat>)
    requires a < |t.pivots|
  {
    forall c :: c in bunch ==> c in t.pivots[a] || (a, c) in known
  }

  // Node a, now with the given bunch and cluster, is within its limit, or nothing
  // that could go is left.
  ghost predicate Optimised(t: Target, known: set<(nat, nat)>, a: nat, bunch: set<nat>, cluster: set<nat>)
    requires t.Valid() && a < |t.limits|
  {
    || |bunch| + (if t.both then |cluster| else 0) <= t.limits[a]
    || ((t.both ==> ClusterSafe(t, known, a, cluster)) && (t.few[a] ==> BunchSafe(t, known, a, bunch)))
  }

  // So for the first count nodes.
  ghost predicate FirstOptimised(t: Target, known: set<(nat, nat)>, count: nat, l: Links)
    requires t.Valid() && count <= |t.limits| && count <= l.Size()
  {
    count == 0 ||
    (FirstOptimised(t, known, count - 1, l)
     && Optimised(t, known, count - 1, l.bunches[count - 1], l.clusters[count - 1]))
  }

  lemma DualLinks(all: LocalityNodes, s: Space, levels: nat)
    requires Pruned(all, s, levels)
    ensures Dual(LinksOf(all))
  {
    var l := LinksOf(all);
    forall v, x: nat | 0 <= v < |l.bunches| && (x in l.bunches[v] || x in l.clusters[v])
      ensures x < |l.bunches|
    {
      assert NodeKept(all, s, levels, v) && (x in s.Bunch(v) || x in s.Cluster(v));
    }
    forall v: nat, x: nat | v < |l.bunches| && x < |l.clusters|
      ensures x in l.bunches[v] <==> v in l.clusters[x]
    {
      assert NodeKept(all, s, levels, v);
    }
  }

  lemma {:induction false} OptimisedAt(t: Target, known: set<(nat, nat)>, count: nat, l: Links, a: nat)
    requires t.Valid() && count <= |t.limits| && count <= l.Size()
    requires FirstOptimised(t, known, count, l) && a < count
    ensures Optimised(t, known, a, l.bunches[a], l.clusters[a])
  {
    if a < count - 1 {
      OptimisedAt(t, known, count - 1, l, a);
    }
  }

  // The known bridges whose edge is still there: they stay bridges.
  ghost function Remaining(g: Neighbours, known: set<(nat, nat)>): set<(nat, nat)> {
    set e | e in known && Edge(g, e.0, e.1)
  }

  lemma BridgesRemain(g: Neighbours, g': Neighbours, known: set<(nat, nat)>)
    requires Subgraph(g', g) && AllBridges(g, known)
    ensures AllBridges(g', Remaining(g', known))
  {
    forall e | e in Remaining(g', known)
      ensures IsBridge(g', e.0, e.1)
    {
      BridgeSurvives(g, g', e.0, e.1);
    }
  }

  // Later removals undo nothing of what has been achieved.
  lemma StaysOptimised(t: Target, known: set<(nat, nat)>, known': set<(nat, nat)>, g: Neighbours, a: nat, l: Links,
          l': Links)
    requires l'.Within(l) && l'.Joins(g) && Remaining(g, known) <= known'
    requires t.Valid() && a < l.Size() <= |t.limits|
    requires Optimised(t, known, a, l.bunches[a], l.clusters[a])
    ensures Optimised(t, known', a, l'.bunches[a], l'.clusters[a])
  {
    SmallerSubset(l'.bunches[a], l.bunches[a]);
    SmallerSubset(l'.clusters[a], l.clusters[a]);
    forall c | c in l'.clusters[a] + l'.bunches[a] && (a, c) in known
      ensures (a, c) in known'
    {
      assert Edge(g, a, c) && (a, c) in Remaining(g, known);
    }
  }

  lemma {:induction false} FirstStayOptimised(t: Target, known: set<(nat, nat)>, known': set<(nat, nat)>,
          g: Neighbours, count: nat, l: Links, l': Links)
    requires l'.Within(l) && l'.Joins(g) && Remaining(g, known) <= known'
    requires t.Valid() && count <= l.Size() <= |t.limits|
    requires FirstOptimised(t, known, count, l)
    ensures FirstOptimised(t, known', count, l')
  {
    if count > 0 {
      FirstStayOptimised(t, known, known', g, count - 1, l, l');
      StaysOptimised(t, known, known', g, count - 1, l, l');
    }
  }

  // One more node: found are bridges known since its round.
  lemma OneMoreOptimised(t: Target, safe: set<(nat, nat)>, found: set<(nat, nat)>, g: Neighbours, g': Neighbours,
          a: nat, l: Links, l': Links)
      returns (known: set<(nat, nat)>)
    requires Subgraph(g', g) && l'.Within(l) && l'.Joins(g')
    requires t.Valid() && a < l.Size() <= |t.limits|
    requires AllBridges(g, safe) && FirstOptimised(t, safe, a, l)
    requires AllBridges(g', found) && Optimised(t, found, a, l'.bunches[a], l'.clusters[a])
    ensures AllBridges(g', known) && FirstOptimised(t, known, a + 1, l')
  {
    known := Remaining(g', safe) + found;
    BridgesRemain(g, g', safe);
    FirstStayOptimised(t, safe, known, g', a, l, l');
    StaysOptimised(t, found, known, g', a, l', l');
  }

  // After the two passes of a round with the cluster optimisation.
  lemma BothPassesOptimise(s: Space, levels: nat, max: int, t: Target, a: nat, n1: int, n2: int, g': Neighbours,
          found: set<(nat, nat)>, found': set<(nat, nat)>, l: Links, l1: Links, l': Links)
    requires s.Valid() && t == TargetOf(s, levels, max, true) && a < s.Size() == l.Size()
    requires l1.Within(l) && l'.Within(l1) && l'.Joins(g')
    requires l.bunches[a] <= s.Bunch(a) && l.clusters[a] <= s.Cluster(a) && l1.bunches[a] == l.bunches[a]
    requires |l1.clusters[a]| == |l.clusters[a]| - (|EdgesOf(s, a)| - n1)
    requires |l'.bunches[a]| == |l1.bunches[a]| - (n1 - n2)
    requires n2 <= n1 && (n1 > max ==> ClusterSafe(t, found, a, l1.clusters[a]))
    requires n2 > max && t.few[a] ==> BunchSafe(t, found', a, l'.bunches[a])
    ensures Optimised(t, Remaining(g', found) + found', a, l'.bunches[a], l'.clusters[a])
  {
    if n2 <= max {
      SmallerSubset(l.bunches[a], s.Bunch(a));
      SmallerSubset(l.clusters[a], s.Cluster(a));
      SmallerSubset(l'.clusters[a], l1.clusters[a]);
      assert s.Bunch(a) * s.Cluster(a) == s.Cluster(a) * s.Bunch(a);
    } else {
      forall c | c in l'.clusters[a] && (a, c) in found
        ensures (a, c) in Remaining(g', found)
      {
        assert Edge(g', a, c);
      }
    }
  }

  lemma BothPassesAchieve(s: Space, levels: nat, max: int, t: Target, a: nat, n1: int, n2: int, g: Neighbours,
          g': Neighbours, found: set<(nat, nat)>, found': set<(nat, nat)>, l: Links, l1: Links, l': Links)
      returns (known: set<(nat, nat)>)
    requires s.Valid() && t == TargetOf(s, levels, max, true) && a < s.Size() == l.Size()
    requires l1.Within(l) && l'.Within(l1) && l'.Joins(g')
    requires l.bunches[a] <= s.Bunch(a) && l.clusters[a] <= s.Cluster(a) && l1.bunches[a] == l.bunches[a]
    requires |l1.clusters[a]| == |l.clusters[a]| - (|EdgesOf(s, a)| - n1)
    requires |l'.bunches[a]| == |l1.bunches[a]| - (n1 - n2)
    requires n2 <= n1 && (n1 > max ==> ClusterSafe(t, found, a, l1.clusters[a]))
    requires n2 > max && t.few[a] ==> BunchSafe(t, found', a, l'.bunches[a])
    requires Subgraph(g', g) && AllBridges(g, found) && AllBridges(g', found')
    requires Total(l.bunches) - (|EdgesOf(s, a)| - n2) <= Total(l'.bunches)
    requires |EdgesOf(s, a)| > max ==> n2 >= max
    requires |EdgesOf(s, a)| <= max ==> n2 == |EdgesOf(s, a)|
    ensures AllBridges(g', known) && Optimised(t, known, a, l'.bunches[a], l'.clusters[a])
    ensures l'.Within(l) && Total(l.bunches) <= Total(l'.bunches) + t.excess[a]
  {
    known := Remaining(g', found) + found';
    BridgesRemain(g, g', found);
    BothPassesOptimise(s, levels, max, t, a, n1, n2, g', found, found', l, l1, l');
  }

  // After pruning with the cluster optimisation every node is within the bound,
  // counting the nodes of its bunch and cluster once, or its cluster holds only
  // nodes for which it is a pivot and nodes behind a bridge, and so does its bunch
  // if few of its members are over the bound.
  lemma ClusterOptimisationMeans(s: Space, levels: nat, max: int, g: Neighbours, known: set<(nat, nat)>, l: Links,
          a: nat)
    requires s.Valid() && l.Size() == s.Size() && a < s.Size()
    requires FirstOptimised(TargetOf(s, levels, max, true), known, s.Size(), l) && AllBridges(g, known)
    ensures |l.bunches[a]| + |l.clusters[a]| <= max + |s.Bunch(a) * s.Cluster(a)|
         || ((forall c :: c in l.clusters[a] ==> c < s.Size() && (HasPivot(s, levels, c, a) || IsBridge(g, a, c)))
             && (FewOf(s, levels, max, true, a) ==>
                 forall c :: c in l.bunches[a] ==> HasPivot(s, levels, a, c) || IsBridge(g, a, c)))
  {
    OptimisedAt(TargetOf(s, levels, max, true), known, s.Size(), l, a);
  }

  // After pruning without it every bunch with few members over the bound is within
  // it, or holds only pivots and nodes behind a bridge.
  lemma BunchOptimisationMeans(s: Space, levels: nat, max: int, g: Neighbours, known: set<(nat, nat)>, l: Links, a: nat)
    requires s.Valid() && l.Size() == s.Size() && a < s.Size() && FewOf(s, levels, max, false, a)
    requires FirstOptimised(TargetOf(s, levels, max, false), known, s.Size(), l) && AllBridges(g, known)
    ensures |l.bunches[a]| <= max || forall c :: c in l.bunches[a] ==> HasPivot(s, levels, a, c) || IsBridge(g, a, c)
  {
    OptimisedAt(TargetOf(s, levels, max, false), known, s.Size(), l, a);
  }

  // The bunch of each of the first count nodes is as before or still holds the
  // bound; those of the others are as before.
  ghost predicate NotBelow(max: int, before: Links, count: nat, l: Links) {
    && l.Size() == before.Size()
    && forall v :: 0 <= v < l.Size() ==> (v < count && |l.bunches[v]| >= max) || l.bunches[v] == before.bunches[v]
  }

  // What the rounds for the first count nodes have achieved since first.
  ghost predicate Achieved(t: Target, max: int, graph: Neighbours, known: set<(nat, nat)>, first: Links, count: nat,
          l: Links)
    requires t.Valid() && count <= |t.limits| && count <= l.Size()
  {
    && l.Within(first) && AllBridges(graph, known) && FirstOptimised(t, known, count, l)
    && (!t.both ==> NotBelow(max, first, count, l))
    && Total(first.bunches) <= Total(l.bunches) + TotalExcess(t, count)
  }

  // The links that may be left after the rounds for the first count nodes.
  ghost function LeftAfter(t: Target, max: int, graph: Neighbours, known: set<(nat, nat)>, first: Links,
          count: nat): iset<Links>
    requires t.Valid() && count <= |t.limits|
  {
    iset l: Links | count <= l.Size() && Achieved(t, max, graph, known, first, count, l)
  }

  lemma NoneAchieved(t: Target, max: int, graph: Neighbours, first: Links)
    requires t.Valid() && first.Size() == |first.bunches| == |first.clusters|
    ensures first in LeftAfter(t, max, graph, {}, first, 0)
  {
  }

  // One more round: found are the bridges known since, and within the excess of the
  // node are the links that went.
  lemma OneMoreAchieved(t: Target, max: int, g: Neighbours, g': Neighbours, safe: set<(nat, nat)>,
          found: set<(nat, nat)>,
          first: Links, a: nat, l: Links, l': Links)
      returns (known: set<(nat, nat)>)
    requires t.Valid() && a < l.Size() == l'.Size() <= |t.limits| && l in LeftAfter(t, max, g, safe, first, a)
    requires Subgraph(g', g) && l'.Within(l) && l'.Joins(g')
    requires AllBridges(g', found) && Optimised(t, found, a, l'.bunches[a], l'.clusters[a])
    requires Total(l.bunches) <= Total(l'.bunches) + t.excess[a]
    requires !t.both ==> |l'.bunches[a]| >= max || l'.bunches[a] == l.bunches[a]
    requires !t.both ==> forall v :: 0 <= v < |l.bunches| && v != a ==> l'.bunches[v] == l.bunches[v]
    ensures l' in LeftAfter(t, max, g', known, first, a + 1)
  {
    known := OneMoreOptimised(t, safe, found, g, g', a, l, l');
  }

  // When no node is over the bound, no link is removed.
  lemma NothingOverTheBound(t: Target, max: int, graph: Neighbours, known: set<(nat, nat)>, first: Links, l: Links)
    requires t.Valid() && l.Size() == |t.limits| && Achieved(t, max, graph, known, first, |t.limits|, l)
    requires forall v :: 0 <= v < |t.excess| ==> t.excess[v] == 0
    ensures l.bunches == first.bunches
  {
    NoExcess(t, |t.limits|);
    SameTotal(l.bunches, first.bunches);
  }

  lemma {:induction false} NoExcess(t: Target, count: nat)
    requires t.Valid() && count <= |t.excess| && forall v :: 0 <= v < |t.excess| ==> t.excess[v] == 0
    ensures TotalExcess(t, count) == 0
  {
    if count > 0 {
      NoExcess(t, count - 1);
    }
  }

  // The bridges from a to the given nodes.
  ghost function BridgesFrom(g: Neighbours, a: nat, nodes: set<nat>): set<(nat, nat)> {
    set c | c in nodes && IsBridge(g, a, c) :: (a, c)
  }

  // What the pass over the cluster of a leaves when it does not reach the bound ...
  lemma ProtectedIsSafe(all: LocalityNodes, graph: Neighbours, s: Space, levels: nat, t: Target, a: nat, max: int)
    requires Pruned(all, s, levels) && a < |all.All| && t == TargetOf(s, levels, max, true)
    requires Below(s, levels)
    requires ProtectedBelow(all, graph, a, levels)
    ensures ClusterSafe(t, BridgesFrom(graph, a, all.All[a].OptimalCluster), a, all.All[a].OptimalCluster)
  {
    assert NodeKept(all, s, levels, a);
    forall c | c in all.All[a].OptimalCluster
      ensures c < s.Size() && (HasPivot(s, levels, c, a) || IsBridge(graph, a, c))
    {
      assert c in s.Cluster(a);
      assert Protected(all, graph, a, c);
      if IsAPivot(all.All[c], a) {
        PivotKnown(all, s, levels, c, a);
      }
    }
  }

  // ... and the pass over its bunch.
  lemma NeededIsSafe(all: LocalityNodes, graph: Neighbours, s: Space, levels: nat, t: Target, a: nat, max: int,
          both: bool)
    requires Pruned(all, s, levels) && a < |all.All| && t == TargetOf(s, levels, max, both)
    requires BunchSeen(all, graph, a, {})
    ensures BunchSafe(t, BridgesFrom(graph, a, all.All[a].OptimalBunch), a, all.All[a].OptimalBunch)
  {
    assert NodeKept(all, s, levels, a);
    forall c | c in all.All[a].OptimalBunch
      ensures c < s.Size() && (HasPivot(s, levels, a, c) || IsBridge(graph, a, c))
    {
      assert c in s.Bunch(a);
      assert Needed(all, graph, a, c);
      if IsAPivot(all.All[a], c) {
        PivotKnown(all, s, levels, a, c);
      }
    }
  }

  lemma PivotKnown(all: LocalityNodes, s: Space, levels: nat, v: nat, p: nat)
    requires Pruned(all, s, levels) && v < |all.All| && IsAPivot(all.All[v], p)
    ensures HasPivot(s, levels, v, p)
  {
    assert NodeKept(all, s, levels, v);
    var i :| 0 <= i < levels && all.All[v].PDist[i] == Some(p);
    assert s.PivotEntry(v, i, all.All[v].PDist[i], all.All[v].ADist[i]);
  }

  // At every level, and however much is pruned, a node that is not its own pivot
  // stays linked to its pivot, in both directions.
  lemma StarSurvives(all: LocalityNodes, s: Space, levels: nat, i: nat, t: nat, v: nat)
    requires Pruned(all, s, levels) && i < levels && v < s.Size() && s.IsPivot(v, i, t) && t != v
    ensures t in all.All[v].OptimalBunch && t in all.GetChildren(v) && v in all.GetChildren(t)
  {
    assert NodeKept(all, s, levels, v);
    var node := all.All[v];
    assert s.PivotEntry(v, i, node.PDist[i], node.ADist[i]);
    assert node.PDist[i] == Some(t);
    assert IsAPivot(node, t);
  }

  // With exactly one node at the top level in use, every other node keeps it in
  // its bunch, so the graph stays connected with diameter at most two.
  lemma DiameterTwo(all: LocalityNodes, s: Space, levels: nat, m: nat, t: nat, u: nat, v: nat)
    requires Pruned(all, s, levels) && s.TopLevel(m) && m < levels
    requires t < s.Size() && s.levels[t] == m && forall y :: 0 <= y < s.Size() && s.levels[y] == m ==> y == t
    requires u < s.Size() && v < s.Size() && u != v
    ensures v in all.GetChildren(u) || (t in all.GetChildren(u) && v in all.GetChildren(t))
  {
    if u != t {
      assert s.IsPivot(u, m, t);
      StarSurvives(all, s, levels, m, t, u);
    }
    if v != t {
      assert s.IsPivot(v, m, t);
      StarSurvives(all, s, levels, m, t, v);
    }
  }
}
