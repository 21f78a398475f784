// gentree/gentree.go: radii, the filter by radius and CreateOnetRings.

module Rings {
  import opened Basics
  import opened Values
  import opened Spaces
  import opened LocalityGraph
  import opened Oracle
  import opened RingTrees

  const SMALL_RADII: seq<real> := [1.0, 2.0, 4.0, 8.0, 16.0]
  const RADII: seq<real> := [1.0, 2.0, 4.0, 8.0, 16.0, 10000.0]

  lemma PowersOfTwo(i: nat)
    requires i <= 5
    ensures Pow(2.0, i) == if i < 5 then SMALL_RADII[i] else 32.0
  {
    assert Pow(2.0, 0) == 1.0;
    assert Pow(2.0, 1) == 2.0;
    assert Pow(2.0, 2) == 4.0;
    assert Pow(2.0, 3) == 8.0;
    assert Pow(2.0, 4) == 16.0;
    assert Pow(2.0, 5) == 32.0;
  }

  // The powers of two up to 20, and then the given distance.
  method GenerateRadius(maxDist: real) returns (radiuses: seq<real>)
    ensures radiuses == SMALL_RADII + [maxDist]
  {
    var multiplier, base := 1.0, 2.0;
    radiuses := [];
    var i := 0;
    while true
      invariant i <= 5 && radiuses == SMALL_RADII[..i]
      decreases 5 - i
    {
      PowersOfTwo(i);
      var crtMaxRadius := multiplier * Pow(base, i);
      if crtMaxRadius > 20.0 {
        break;
      }
      radiuses := radiuses + [crtMaxRadius];
      i := i + 1;
    }
    radiuses := radiuses + [maxDist];
  }

  // The root and the members of its cluster within the radius.
  ghost function RingNodes(cluster: set<nat>, root: nat, distances: map<(nat, nat), Compact>, radius: real): set<nat>
    requires forall n :: n in cluster ==> (root, n) in distances
  {
    {root} + set n | n in cluster && distances[(root, n)].Dist.AtMost(Finite(radius))
  }

  // Filter, with no links between the root and its cluster: the second loop of
  // the source then has nothing to follow and stops at once.
  method Filter(rootCluster: set<nat>, root: nat, radius: real,
          distances: map<(nat, nat), Compact>) returns (nodes: set<nat>)
    requires forall n :: n in rootCluster ==> (root, n) in distances
    ensures nodes == RingNodes(rootCluster, root, distances, radius)
  {
    var childrenInRange: set<nat> := {};
    var cluster := rootCluster;
    while cluster != {}
      invariant cluster <= rootCluster
      invariant childrenInRange ==
        set n | n in rootCluster - cluster && distances[(root, n)].Dist.AtMost(Finite(radius))
      decreases cluster
    {
      var n :| n in cluster;
      if distances[(root, n)].Dist.AtMost(Finite(radius)) {
        childrenInRange := childrenInRange + {n};
      }
      cluster := cluster - {n};
    }
    nodes := childrenInRange + {root};
  }

  // One emitted tree: the position of its radius, the radius, the roster as a
  // set, and the tree itself.
  datatype Ring = Ring(position: nat, radius: real, nodes: set<nat>, tree: Links)

  lemma RingsGrow(cluster: set<nat>, root: nat, distances: map<(nat, nat), Compact>, r: real, r': real)
    requires (forall n :: n in cluster ==> (root, n) in distances) && r <= r'
    ensures RingNodes(cluster, root, distances, r) <= RingNodes(cluster, root, distances, r')
  {
  }

  // Increasing radii and the growing node sets that belong to them.
  ghost predicate Chain(radii: seq<real>, want: seq<set<nat>>) {
    && |radii| == |want|
    && (forall a, b :: 0 <= a < b < |radii| ==> radii[a] < radii[b])
    && forall a, b :: 0 <= a < b < |want| ==> want[a] <= want[b]
  }

  // Rings emitted so far for the first count radii. Every ring is the exact set
  // for its own radius; rings grow strictly; and every radius passed has a ring
  // with the same nodes and no larger radius.
  ghost predicate Emitted(rings: seq<Ring>, count: nat, radii: seq<real>, want: seq<set<nat>>)
    requires Chain(radii, want) && count <= |radii|
  {
    && (forall j :: 0 <= j < |rings| ==> rings[j].position < count && Exact(rings[j], radii, want))
    && (forall i, j :: 0 <= i < j < |rings| ==> Smaller(rings[i], rings[j]))
    && (forall c :: 0 <= c < count ==> Served(rings, c, radii, want))
  }

  ghost predicate Exact(ring: Ring, radii: seq<real>, want: seq<set<nat>>)
    requires |radii| == |want|
  {
    ring.position < |radii| && ring.radius == radii[ring.position] && ring.nodes == want[ring.position]
  }

  ghost predicate Served(rings: seq<Ring>, c: nat, radii: seq<real>, want: seq<set<nat>>)
    requires c < |radii| == |want|
  {
    exists j :: 0 <= j < |rings| && Serves(rings[j], radii[c], want[c])
  }

  ghost predicate Serves(ring: Ring, radius: real, nodes: set<nat>) {
    ring.radius <= radius && ring.nodes == nodes
  }

  ghost predicate Smaller(ring: Ring, other: Ring) {
    ring.radius < other.radius && ring.nodes < other.nodes
  }

  // The ring emitted last serves the radius passed last.
  ghost predicate LastServes(rings: seq<Ring>, count: nat, radii: seq<real>, want: seq<set<nat>>)
    requires Chain(radii, want) && count <= |radii|
  {
    if count == 0 then rings == []
    else rings != [] && Serves(rings[|rings| - 1], radii[count - 1], want[count - 1])
  }

  lemma RadiusSkipped(rings: seq<Ring>, count: nat, radii: seq<real>, want: seq<set<nat>>)
    requires Chain(radii, want) && 0 < count < |radii|
    requires Emitted(rings, count, radii, want) && LastServes(rings, count, radii, want)
    requires |want[count]| == |rings[|rings| - 1].nodes|
    ensures Emitted(rings, count + 1, radii, want) && LastServes(rings, count + 1, radii, want)
  {
    SameSizeSubset(want[count - 1], want[count]);
    assert Serves(rings[|rings| - 1], radii[count], want[count]);
    assert Served(rings, count, radii, want);
  }

  lemma RadiusEmitted(rings: seq<Ring>, ring: Ring, count: nat, radii: seq<real>, want: seq<set<nat>>)
    requires Chain(radii, want) && count < |radii| && ring.position == count && Exact(ring, radii, want)
    requires Emitted(rings, count, radii, want) && LastServes(rings, count, radii, want)
    requires count > 0 ==> |ring.nodes| != |rings[|rings| - 1].nodes|
    ensures Emitted(rings + [ring], count + 1, radii, want) && LastServes(rings + [ring], count + 1, radii, want)
  {
    var all := rings + [ring];
    assert all[|rings|] == ring;
    forall j | 0 <= j < |rings|
      ensures Smaller(rings[j], ring)
    {
      assert want[count - 1] == rings[|rings| - 1].nodes != ring.nodes == want[count];
      assert want[count - 1] <= want[count];
      assert j == |rings| - 1 || Smaller(rings[j], rings[|rings| - 1]);
    }
    forall c | 0 <= c < count + 1
      ensures Served(all, c, radii, want)
    {
      if c < count {
        assert Served(rings, c, radii, want);
        var j :| 0 <= j < |rings| && Serves(rings[j], radii[c], want[c]);
        assert Serves(all[j], radii[c], want[c]);
      } else {
        assert Serves(all[|rings|], radii[c], want[c]);
      }
    }
  }

  // The graph as CreateOnetRings reads it.
  method ReadGraph(all: LocalityNodes) returns (g: Graph)
    ensures g.Valid() && |g.clusters| == |all.All|
    ensures forall v ::
      0 <= v < |all.All| ==> g.clusters[v] == all.All[v].OptimalCluster && g.bunches[v] == all.All[v].OptimalBunch
  {
    var clusters: seq<set<nat>>, bunches: seq<set<nat>> := [], [];
    for v := 0 to |all.All|
      invariant |clusters| == |bunches| == v
      invariant forall u ::
        0 <= u < v ==> clusters[u] == all.All[u].OptimalCluster && bunches[u] == all.All[u].OptimalBunch
    {
      clusters, bunches := clusters + [all.All[v].OptimalCluster], bunches + [all.All[v].OptimalBunch];
    }
    g := Graph(clusters, bunches);
  }

  // The graph before any pruning.
  ghost function GraphOf(s: Space): (g: Graph)
    requires s.Valid()
    ensures g.Valid() && |g.clusters| == s.Size()
    ensures forall v :: 0 <= v < s.Size() ==> g.clusters[v] == s.Cluster(v) && g.bunches[v] == s.Bunch(v)
  {
    Graph(
      seq(s.Size(), v requires 0 <= v < s.Size() => s.Cluster(v)),
      seq(s.Size(), v requires 0 <= v < s.Size() => s.Bunch(v)))
  }

  // Duality makes the root a neighbour of each member of its cluster, which is
  // what lets the traversal end.
  lemma ClusterSuits(s: Space, g: Graph, root: nat, allowed: set<nat>)
    requires s.Valid() && g == GraphOf(s) && root < s.Size()
    requires root in allowed && allowed <= s.Cluster(root) + {root}
    ensures g.Suits(root, allowed)
  {
    forall y | y in allowed && y != root
      ensures y < s.Size() && y in g.Children(root) && root in g.Children(y)
    {
      BunchClusterDual(s, y, root);
    }
    BunchClusterDual(s, root, root);
  }

  // The exact node sets for the first count radii.
  ghost function Wanted(s: Space, root: nat, distances: map<(nat, nat), Compact>,
          count: nat := |RADII|): (want: seq<set<nat>>)
    requires s.Valid() && root < s.Size() && forall n :: n in s.Cluster(root) ==> (root, n) in distances
    requires count <= |RADII|
    ensures |want| == count
  {
    if count == 0 then []
    else Wanted(s, root, distances, count - 1) + [RingNodes(s.Cluster(root), root, distances, RADII[count - 1])]
  }

  lemma {:induction false} WantedAt(s: Space, root: nat, distances: map<(nat, nat), Compact>, count: nat, c: nat)
    requires s.Valid() && root < s.Size() && forall n :: n in s.Cluster(root) ==> (root, n) in distances
    requires c < count <= |RADII|
    ensures Wanted(s, root, distances, count)[c] == RingNodes(s.Cluster(root), root, distances, RADII[c])
  {
    if c < count - 1 {
      WantedAt(s, root, distances, count - 1, c);
    }
  }

  lemma WantedIsChain(s: Space, root: nat, distances: map<(nat, nat), Compact>)
    requires s.Valid() && root < s.Size() && forall n :: n in s.Cluster(root) ==> (root, n) in distances
    ensures Chain(RADII, Wanted(s, root, distances))
  {
    var want := Wanted(s, root, distances);
    forall a, b | 0 <= a < b < |want|
      ensures want[a] <= want[b]
    {
      WantedAt(s, root, distances, |RADII|, a);
      WantedAt(s, root, distances, |RADII|, b);
      RingsGrow(s.Cluster(root), root, distances, RADII[a], RADII[b]);
    }
  }

  // For one root: every ring is the exact set for its radius, rings are strictly
  // nested with increasing radii, and each of the six radii has a ring with the
  // nodes wanted for it and no larger radius, the last ring serving the last radius.
  // Every tree covers its ring.
  ghost predicate RingsOf(s: Space, root: nat, distances: map<(nat, nat), Compact>, rings: seq<Ring>)
    requires s.Valid() && root < s.Size() && forall n :: n in s.Cluster(root) ==> (root, n) in distances
  {
    var want := Wanted(s, root, distances);
    && Chain(RADII, want)
    && Emitted(rings, |RADII|, RADII, want) && LastServes(rings, |RADII|, RADII, want)
    && TreesCover(GraphOf(s), root, rings)
  }

  ghost predicate TreesCover(g: Graph, root: nat, rings: seq<Ring>) {
    rings == [] || (TreesCover(g, root, rings[..|rings| - 1]) && TreeCovers(g, root, rings[|rings| - 1]))
  }

  lemma {:induction false} TreeCoversAt(g: Graph, root: nat, rings: seq<Ring>, j: nat)
    requires TreesCover(g, root, rings) && j < |rings|
    ensures TreeCovers(g, root, rings[j])
  {
    if j < |rings| - 1 {
      TreeCoversAt(g, root, rings[..|rings| - 1], j);
    }
  }

  ghost predicate TreeCovers(g: Graph, root: nat, ring: Ring) {
    g.Holds(root, ring.nodes) && ring.tree == TreeOver(root, g, ring.nodes, ring.nodes)
  }

  // What is in a ring's tree: every node hangs below the root, its children are the
  // nodes of the ring that it is linked to, and its parents those in its bunch.
  lemma TreeMeans(s: Space, root: nat, ring: Ring, x: nat, y: nat)
    requires s.Valid() && TreeCovers(GraphOf(s), root, ring) && x in ring.nodes
    ensures x < s.Size() && ring.tree.root == root && ring.tree.nodes == ring.nodes
    ensures x != root ==> x in ring.tree.parent && ring.tree.parent[x] == root
    ensures x in ring.tree.children && x in ring.tree.parents
    ensures y in ring.tree.children[x] <==> y in ring.nodes && y < s.Size() && (s.InBunch(x, y) || s.InBunch(y, x))
    ensures y in ring.tree.parents[x] <==> y in ring.nodes && y < s.Size() && s.InBunch(x, y)
  {
  }

  // One round of the loop: the nodes within the radius and the tree over them.
  method RingFor(rootCluster: set<nat>, g: Graph, root: nat, countt: nat, radius: real,
          dist2: map<(nat, nat), Compact>, ghost s: Space)
    returns (ring: Ring)
    requires s.Valid() && root < s.Size() && rootCluster == s.Cluster(root) && g == GraphOf(s)
    requires forall n :: n in s.Cluster(root) ==> (root, n) in dist2
    requires countt < |RADII| && radius == RADII[countt]
    ensures ring.position == countt && Exact(ring, RADII, Wanted(s, root, dist2))
    ensures TreeCovers(g, root, ring) && ring.nodes != {}
  {
    var allowedNodes := Filter(rootCluster, root, radius, dist2);
    // The source panics if a node outside the cluster got in.
    assert forall name :: name in allowedNodes ==> name in rootCluster || name == root;
    assert root in allowedNodes;
    var tree := BuildTree(g, root, allowedNodes, s);
    ring := Ring(countt, radius, allowedNodes, tree);
    WantedAt(s, root, dist2, |RADII|, countt);
  }

  method CreateOnetRings(all: LocalityNodes, root: nat, dist2: map<(nat, nat), Compact>, ghost s: Space, levels: nat)
    returns (rings: seq<Ring>)
    requires all.Describes(s) && all.Built(s, levels) && all.Unpruned() && root < |all.All|
    requires forall n :: n in s.Cluster(root) ==> (root, n) in dist2
    ensures RingsOf(s, root, dist2, rings)
  {
    var radiuses := GenerateRadius(10000.0);
    assert radiuses == RADII;
    var graph := ReadGraph(all);
    assert graph == GraphOf(s);
    WantedIsChain(s, root, dist2);
    rings := EmitRings(all.All[root].Cluster, graph, root, radiuses, dist2, s, Wanted(s, root, dist2));
  }

  method EmitRings(rootCluster: set<nat>, g: Graph, root: nat, radiuses: seq<real>, dist2: map<(nat, nat), Compact>,
          ghost s: Space, ghost want: seq<set<nat>>)
    returns (rings: seq<Ring>)
    requires s.Valid() && root < s.Size() && rootCluster == s.Cluster(root) && g == GraphOf(s)
    requires forall n :: n in s.Cluster(root) ==> (root, n) in dist2
    requires radiuses == RADII && want == Wanted(s, root, dist2) && Chain(RADII, want)
    ensures Emitted(rings, |RADII|, RADII, want) && LastServes(rings, |RADII|, RADII, want)
    ensures TreesCover(g, root, rings)
  {
    rings := [];
    var prevRosterLen, countt := 0, 0;
    while true
      invariant countt < |RADII|
      invariant Emitted(rings, countt, RADII, want) && LastServes(rings, countt, RADII, want)
      invariant prevRosterLen == if countt == 0 then 0 else |rings[|rings| - 1].nodes|
      invariant TreesCover(g, root, rings)
      decreases |RADII| - countt
    {
      var ring := RingFor(rootCluster, g, root, countt, radiuses[countt], dist2, s);
      var rosterLen := |ring.nodes|;
      if rosterLen == prevRosterLen {
        RadiusSkipped(rings, countt, RADII, want);
        countt := countt + 1;
        if countt == |radiuses| {
          break;
        }
        continue;
      }
      prevRosterLen := rosterLen;
      RadiusEmitted(rings, ring, countt, RADII, want);
      assert (rings + [ring])[..|rings|] == rings;
      rings := rings + [ring];
      countt := countt + 1;
      if countt == |radiuses| {
        break;
      }
    }
  }

  method BuildTree(g: Graph, root: nat, allowed: set<nat>, ghost s: Space) returns (tree: Links)
    requires s.Valid() && g == GraphOf(s) && root < s.Size()
    requires root in allowed && allowed <= s.Cluster(root) + {root}
    ensures g.Suits(root, allowed) && tree == TreeOver(root, g, allowed, allowed)
  {
    ClusterSuits(s, g, root, allowed);
    var t := new RingTree(root);
    t.Traverse(g, allowed);
    tree := Links(t.Root, t.NodeList, t.Parent, t.Children, t.Parents);
  }
}
