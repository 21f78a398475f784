// What the graph, the oracle and the rings promise together, and the order in
// which genTrees of membershipchainservice/treeservice.go puts them to work.

module Locality {
  import opened Values
  import opened Spaces
  import opened LocalityGraph
  import opened Walks
  import opened Oracle
  import opened RingTrees
  import opened Rings

  ghost predicate AllAnswered(s: Space, m: nat, dist2: map<(nat, nat), Compact>)
    requires s.Valid()
  {
    forall u, v :: 0 <= u < s.Size() && 0 <= v < s.Size() ==> Answered(s, m, u, v, dist2)
  }

  lemma EveryPairAnswered(s: Space, m: nat, dist2: map<(nat, nat), Compact>)
    requires s.Valid() && AllAnswered(s, m, dist2)
    ensures forall u, v :: 0 <= u < s.Size() && 0 <= v < s.Size() ==> (u, v) in dist2
  {
    forall u, v | 0 <= u < s.Size() && 0 <= v < s.Size()
      ensures (u, v) in dist2
    {
      assert Answered(s, m, u, v, dist2);
    }
  }

  // With the oracle's distances a ring is a ball of the cluster.
  lemma RingIsBall(s: Space, m: nat, dist2: map<(nat, nat), Compact>, root: nat, radius: real, n: nat)
    requires s.Valid() && s.ZeroToOneself() && s.Symmetric() && root < s.Size() && AllAnswered(s, m, dist2)
    requires forall x :: x in s.Cluster(root) ==> (root, x) in dist2
    ensures n in RingNodes(s.Cluster(root), root, dist2, radius)
            <==> n == root || (n in s.Cluster(root) && s.D(root, n) <= radius)
  {
    if n in s.Cluster(root) {
      assert Answered(s, m, root, n, dist2);
      ExactOnCluster(s, m, root, n, dist2[(root, n)]);
    }
  }

  ghost predicate Shares(rings: seq<Ring>, u: nat, v: nat, bound: real) {
    exists j :: 0 <= j < |rings| && u in rings[j].nodes && v in rings[j].nodes && rings[j].radius <= bound
  }

  // A ring for every radius of the list, whether or not its round was skipped.
  lemma RadiusShared(s: Space, m: nat, dist2: map<(nat, nat), Compact>, root: nat, rings: seq<Ring>, c: nat, u: nat,
          v: nat)
    requires s.Valid() && s.Metric() && root < s.Size() && u < s.Size() && v < s.Size() && AllAnswered(s, m, dist2)
    requires forall n :: n in s.Cluster(root) ==> (root, n) in dist2
    requires RingsOf(s, root, dist2, rings) && c < |RADII|
    requires Reaches(s, u, root) && Reaches(s, v, root)
    requires s.D(root, u) <= RADII[c] && s.D(root, v) <= RADII[c]
    ensures Shares(rings, u, v, RADII[c])
  {
    var want := Wanted(s, root, dist2);
    WantedAt(s, root, dist2, |RADII|, c);
    RingIsBall(s, m, dist2, root, RADII[c], u);
    RingIsBall(s, m, dist2, root, RADII[c], v);
    assert Served(rings, c, RADII, want);
    var j :| 0 <= j < |rings| && Serves(rings[j], RADII[c], want[c]);
  }

  function AtLeastOne(x: real): real {
    if x <= 1.0 then 1.0 else x
  }

  // The first radius that is large enough is less than twice too large.
  lemma FirstRadius(r: real) returns (c: nat)
    requires r <= 16.0
    ensures c < 5 && r <= RADII[c] <= AtLeastOne(2.0 * r)
  {
    c := if r <= 1.0 then 0 else if r <= 2.0 then 1 else if r <= 4.0 then 2 else if r <= 8.0 then 3 else 4;
  }

  ghost predicate Region(s: Space, dist2: map<(nat, nat), Compact>, root: nat, rings: seq<Ring>)
    requires s.Valid() && root < s.Size()
  {
    (forall n :: n in s.Cluster(root) ==> (root, n) in dist2) && RingsOf(s, root, dist2, rings)
  }

  // The first nodes, as roots, have the rings they should.
  ghost predicate FirstRegions(s: Space, dist2: map<(nat, nat), Compact>, trees: seq<seq<Ring>>)
    requires s.Valid() && |trees| <= s.Size()
  {
    trees == [] ||
    (FirstRegions(s, dist2, trees[..|trees| - 1]) && Region(s, dist2, |trees| - 1, trees[|trees| - 1]))
  }

  lemma {:induction false} RegionAt(s: Space, dist2: map<(nat, nat), Compact>, trees: seq<seq<Ring>>, root: nat)
    requires s.Valid() && |trees| <= s.Size() && FirstRegions(s, dist2, trees) && root < |trees|
    ensures Region(s, dist2, root, trees[root])
  {
    if root < |trees| - 1 {
      RegionAt(s, dist2, trees[..|trees| - 1], root);
    }
  }

  ghost predicate Regions(s: Space, m: nat, dist2: map<(nat, nat), Compact>, trees: seq<seq<Ring>>)
    requires s.Valid()
  {
    |trees| == s.Size() && AllAnswered(s, m, dist2) && FirstRegions(s, dist2, trees)
  }

  ghost predicate IsBall(s: Space, root: nat, radius: real, nodes: set<nat>)
    requires s.Valid() && root < s.Size()
  {
    forall n: nat {:trigger n in nodes} ::
      n in nodes <==> (n == root || (n in s.Cluster(root) && s.D(root, n) <= radius))
  }

  // Regions are balls of the root's cluster, strictly nested, each with a tree
  // over exactly its nodes.
  lemma RegionsAreBalls(s: Space, m: nat, dist2: map<(nat, nat), Compact>, trees: seq<seq<Ring>>, root: nat, j: nat)
    requires s.Valid() && s.ZeroToOneself() && s.Symmetric() && Regions(s, m, dist2, trees)
    requires root < s.Size() && j < |trees[root]|
    ensures IsBall(s, root, trees[root][j].radius, trees[root][j].nodes) && trees[root][j].radius in RADII
    ensures forall i :: 0 <= i < j ==> Smaller(trees[root][i], trees[root][j])
    ensures TreeCovers(GraphOf(s), root, trees[root][j])
  {
    RegionAt(s, dist2, trees, root);
    var rings, want := trees[root], Wanted(s, root, dist2);
    var c := rings[j].position;
    assert Exact(rings[j], RADII, want);
    WantedAt(s, root, dist2, |RADII|, c);
    forall n: nat
      ensures n in rings[j].nodes <==> n == root || (n in s.Cluster(root) && s.D(root, n) <= rings[j].radius)
    {
      RingIsBall(s, m, dist2, root, RADII[c], n);
    }
    TreeCoversAt(GraphOf(s), root, rings, j);
  }

  // The locality guarantee. Two nodes share a region whose radius is at most a
  // small multiple of their distance: the node through which the oracle connects
  // them is its root.
  lemma LocalityGuarantee(s: Space, m: nat, dist2: map<(nat, nat), Compact>, trees: seq<seq<Ring>>, u: nat, v: nat)
    requires s.Valid() && s.Metric() && s.TopLevel(m) && Regions(s, m, dist2, trees)
    requires u < s.Size() && v < s.Size() && u != v && Times(m + 1, s.D(u, v)) <= 10000.0
    ensures exists w :: 0 <= w < s.Size() && Shares(trees[w], u, v, LocalRadius(Times(m + 1, s.D(u, v))))
  {
    var reach := Times(m + 1, s.D(u, v));
    assert Answered(s, m, u, v, dist2);
    var w := dist2[(u, v)].ViaNodeName.value;
    assert Near(s, u, v, w, m);
    RegionAt(s, dist2, trees, w);
    if reach <= 16.0 {
      var c := FirstRadius(reach);
      RadiusShared(s, m, dist2, w, trees[w], c, u, v);
      SharesMore(trees[w], u, v, RADII[c], LocalRadius(reach));
    } else {
      RadiusShared(s, m, dist2, w, trees[w], 5, u, v);
    }
    assert Shares(trees[w], u, v, LocalRadius(reach));
  }

  lemma SharesMore(rings: seq<Ring>, u: nat, v: nat, bound: real, bound': real)
    requires Shares(rings, u, v, bound) && bound <= bound'
    ensures Shares(rings, u, v, bound')
  {
  }

  // Twice the reach up to radius 16, and the last radius beyond.
  function LocalRadius(reach: real): real {
    if reach <= 16.0 then AtLeastOne(2.0 * reach) else 10000.0
  }

  // With the three levels of the live system: nodes with 3 d(u,v) <= 16 meet in
  // a region of radius at most 6 d(u,v), or 1.
  lemma ThreeLevelLocality(s: Space, m: nat, dist2: map<(nat, nat), Compact>, trees: seq<seq<Ring>>, u: nat, v: nat)
    requires s.Valid() && s.Metric() && s.TopLevel(m) && m <= 2 && Regions(s, m, dist2, trees)
    requires u < s.Size() && v < s.Size() && u != v && 3.0 * s.D(u, v) <= 16.0
    ensures exists w :: 0 <= w < s.Size() && Shares(trees[w], u, v, AtLeastOne(6.0 * s.D(u, v)))
  {
    var d := s.D(u, v);
    DistanceNotNegative(s, u, v);
    TimesMonotone(m + 1, 3, d);
    TimesIsProduct(3, d);
    LocalityGuarantee(s, m, dist2, trees, u, v);
    var w :| 0 <= w < s.Size() && Shares(trees[w], u, v, LocalRadius(Times(m + 1, d)));
    SharesMore(trees[w], u, v, LocalRadius(Times(m + 1, d)), AtLeastOne(6.0 * d));
  }

  // The promise has an end: nodes further apart than twice the largest small
  // radius share no region but those of the last radius, whatever the levels.
  lemma FarPairsShareLastRadius(s: Space, m: nat, dist2: map<(nat, nat), Compact>, trees: seq<seq<Ring>>,
          u: nat, v: nat, w: nat, j: nat)
    requires s.Valid() && s.Metric() && Regions(s, m, dist2, trees) && w < s.Size() && j < |trees[w]|
    requires u < s.Size() && v < s.Size() && s.D(u, v) > 32.0
    requires u in trees[w][j].nodes && v in trees[w][j].nodes
    ensures trees[w][j].radius == 10000.0
  {
    RegionsAreBalls(s, m, dist2, trees, w, j);
    assert s.D(u, v) <= s.D(u, w) + s.D(w, v) && s.D(u, w) == s.D(w, u);
    assert s.D(w, w) == 0.0;
  }

  ghost predicate HoldsAll(s: Space, nodes: set<nat>) {
    forall n: nat {:trigger n in nodes} :: n in nodes <==> n < s.Size()
  }

  // The last region of a root at the top level in use holds the whole system.
  lemma TopRootCoversAll(s: Space, m: nat, dist2: map<(nat, nat), Compact>, trees: seq<seq<Ring>>, root: nat)
    requires s.Valid() && s.Metric() && s.TopLevel(m) && Regions(s, m, dist2, trees)
    requires root < s.Size() && s.levels[root] == m
    requires forall n :: 0 <= n < s.Size() ==> s.D(root, n) <= 10000.0
    ensures trees[root] != []
    ensures HoldsAll(s, trees[root][|trees[root]| - 1].nodes)
  {
    RegionAt(s, dist2, trees, root);
    var nodes := RingNodes(s.Cluster(root), root, dist2, RADII[5]);
    WantedAt(s, root, dist2, |RADII|, 5);
    assert trees[root][|trees[root]| - 1].nodes == nodes;
    forall n: nat
      ensures n < s.Size() <==> n in nodes
    {
      RingIsBall(s, m, dist2, root, RADII[5], n);
      if n < s.Size() && n != root {
        TopLevelInEveryBunch(s, m, root, n);
      }
    }
  }

  // Setup and genTrees with OPTIMIZED off: the table, the graph, the oracle, and
  // the rings of every node, in this order.
  method GenTrees(all: LocalityNodes, levels: nat, pingDist: seq<seq<real>>, ghost s: Space, ghost m: nat)
    returns (dist2: map<(nat, nat), Compact>, graphTree: seq<seq<Ring>>)
    requires all.Describes(s) && s.dist == pingDist
    requires levels >= 2 && Below(s, levels) && NoneRunsOut(s, levels) && (s.Size() > 0 ==> s.TopLevel(m))
    modifies all, all.Nodes()
    ensures all.Describes(s) && all.Built(s, levels) && all.Unpruned()
    ensures Regions(s, m, dist2, graphTree)
  {
    all.Setup(s);
    all.CreateLocalityGraph(levels, pingDist, s);
    dist2, graphTree := GrowRegions(all, s, m, levels);
  }

  // The oracle and the rings, on the graph as CreateLocalityGraph leaves it.
  method GrowRegions(all: LocalityNodes, ghost s: Space, ghost m: nat, levels: nat)
    returns (dist2: map<(nat, nat), Compact>, graphTree: seq<seq<Ring>>)
    requires all.Describes(s) && all.Built(s, levels) && all.Unpruned()
    requires levels >= 2 && Below(s, levels) && NoneRunsOut(s, levels) && (s.Size() > 0 ==> s.TopLevel(m))
    ensures Regions(s, m, dist2, graphTree)
  {
    dist2 := AproximateDistanceOracle(all, s, m, levels);
    EveryPairAnswered(s, m, dist2);
    graphTree := RingsOfAll(all, dist2, s, levels);
  }

  // The rings of every node, on the graph as CreateLocalityGraph leaves it.
  method RingsOfAll(all: LocalityNodes, dist2: map<(nat, nat), Compact>, ghost s: Space,
          levels: nat) returns (graphTree: seq<seq<Ring>>)
    requires all.Describes(s) && all.Built(s, levels) && all.Unpruned()
    requires forall u, v :: 0 <= u < s.Size() && 0 <= v < s.Size() ==> (u, v) in dist2
    ensures |graphTree| == s.Size() && FirstRegions(s, dist2, graphTree)
  {
    graphTree := [];
    for root := 0 to |all.All|
      invariant |graphTree| == root && FirstRegions(s, dist2, graphTree)
    {
      var rings := CreateOnetRings(all, root, dist2, s, levels);
      assert Region(s, dist2, root, rings);
      assert (graphTree + [rings])[..root] == graphTree;
      graphTree := graphTree + [rings];
    }
  }
}
