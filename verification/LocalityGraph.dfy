// gentree/gentree.go: the graph object and CreateLocalityGraph, which fills in
// pivots, bunches, clusters and the table of direct distances.

module LocalityGraph {
  import opened Values
  import opened Spaces

  class LocalityNode {
    const Name: nat
    var Level: nat
    var ADist: seq<Length>
    var PDist: seq<Option<nat>>
    var Cluster: set<nat>
    var Bunch: set<nat>
    var OptimalCluster: set<nat>
    var OptimalBunch: set<nat>

    constructor (name: nat, level: nat)
      ensures Name == name && Level == level
    {
      Name, Level := name, level;
    }
  }

  // The distance kept for a pair of nodes: exact for a node and a member of its
  // bunch, MaxFloat64 otherwise. When each is in the other's bunch, the entry is
  // the distance from the higher-numbered node.
  ghost function TableEntry(s: Space, a: nat, b: nat): Length
    requires s.Valid() && a < s.Size() && b < s.Size()
  {
    var hi, lo := if a < b then b else a, if a < b then a else b;
    if a == b then Finite(0.0)
    else if s.InBunch(lo, hi) then Finite(s.D(hi, lo))
    else if s.InBunch(hi, lo) then Finite(s.D(lo, hi))
    else Max
  }

  ghost predicate Linked(s: Space, a: nat, b: nat)
    requires s.Valid() && a < s.Size() && b < s.Size()
  {
    a == b || s.InBunch(a, b) || s.InBunch(b, a)
  }

  lemma TableIsExact(s: Space, a: nat, b: nat)
    requires s.Valid() && s.ZeroToOneself() && s.Symmetric() && a < s.Size() && b < s.Size()
    ensures TableEntry(s, a, b) == if Linked(s, a, b) then Finite(s.D(a, b)) else Max
  {
  }

  // Without symmetry too: the same entry in both directions, written last by the row
  // of the higher-numbered of the nodes that have the other in their cluster.
  lemma TableLastWrite(s: Space, a: nat, b: nat)
    requires s.Valid() && a < s.Size() && b < s.Size()
    ensures TableEntry(s, a, b) == TableEntry(s, b, a)
    ensures b in s.Cluster(a) && (a > b || a !in s.Cluster(b)) ==> TableEntry(s, a, b) == Finite(s.D(a, b))
  {
  }

  predicate CheckDistance(distance: real, lvl: nat, aDist: seq<Length>) {
    forall i :: lvl < i < |aDist| ==> Finite(distance).AtMost(aDist[i])
  }

  // The test by which CreateLocalityGraph lets x into the bunch of v in round i.
  predicate Admitted(levels: seq<nat>, k: nat, v: nat, x: nat, d: real, i: nat, aDist: seq<Length>)
    requires x < |levels|
  {
    x != v && ((levels[x] >= i && CheckDistance(d, i, aDist)) || levels[x] + 1 == k)
  }

  // Whatever a round admits belongs to the reference bunch ...
  lemma AdmittedSound(s: Space, k: nat, v: nat, x: nat, i: nat, p: seq<Option<nat>>, a: seq<Length>)
    requires s.Valid() && v < s.Size() && x < s.Size() && s.PivotRow(v, p, a) && |a| == k
    requires forall y :: 0 <= y < s.Size() ==> s.levels[y] < k
    requires Admitted(s.levels, k, v, x, s.D(v, x), i, a)
    ensures s.InBunch(v, x)
  {
    forall y | 0 <= y < s.Size() && s.levels[y] > s.levels[x]
      ensures s.D(v, x) <= s.D(v, y)
    {
      var j := s.levels[y];
      assert s.levels[y] < k && s.levels[x] + 1 != k;
      assert i < j < |a| && s.PivotEntry(v, j, p[j], a[j]);
      assert Finite(s.D(v, x)).AtMost(a[j]);
    }
  }

  // ... and every member of the reference bunch is admitted by one of the rounds.
  lemma AdmittedComplete(s: Space, k: nat, v: nat, x: nat, p: seq<Option<nat>>, a: seq<Length>)
    requires s.Valid() && v < s.Size() && x < s.Size() && s.PivotRow(v, p, a) && |a| == k >= 2
    requires forall y :: 0 <= y < s.Size() ==> s.levels[y] < k
    requires s.InBunch(v, x)
    ensures exists i :: 0 <= i < k - 1 && Admitted(s.levels, k, v, x, s.D(v, x), i, a)
  {
    var i := if s.levels[x] < k - 1 then s.levels[x] else 0;
    if s.levels[x] < k - 1 {
      forall j | i < j < |a|
        ensures Finite(s.D(v, x)).AtMost(a[j])
      {
        assert s.PivotEntry(v, j, p[j], a[j]);
      }
    }
    assert Admitted(s.levels, k, v, x, s.D(v, x), i, a);
  }

  // The scan for a pivot, after looking at the nodes below bound.
  ghost predicate NearestSoFar(s: Space, v: nat, i: nat, bound: nat, node: Option<nat>, min: Length)
    requires s.Valid() && v < s.Size() && bound <= s.Size()
  {
    match node
    case None => min == Max && forall y :: 0 <= y < bound ==> s.levels[y] < i
    case Some(w) => (
      && w < bound && s.levels[w] >= i && min == Finite(s.D(v, w))
      && (forall y :: 0 <= y < bound && s.levels[y] >= i ==> s.D(v, w) <= s.D(v, y))
      && (forall y :: 0 <= y < w && s.levels[y] >= i ==> s.D(v, w) < s.D(v, y)))
  }

  // The entry of (a, b) once the cluster loops have passed the pairs before (v1, v2).
  ghost predicate EntryReached(s: Space, table: map<(nat, nat), Length>, a: nat, b: nat, v1: nat, v2: nat)
    requires s.Valid() && a < s.Size() && b < s.Size() && (a, b) in table
  {
    var hi, lo := if a < b then b else a, if a < b then a else b;
    if s.InBunch(lo, hi) && (hi < v1 || (hi == v1 && lo < v2)) then
      table[(a, b)] == Finite(s.D(hi, lo))
    else if s.InBunch(hi, lo) && (lo < v1 || (lo == v1 && hi < v2)) then
      table[(a, b)] == Finite(s.D(lo, hi))
    else
      !Linked(s, a, b) ==> table[(a, b)] == Max
  }

  lemma EntryStep(s: Space, table: map<(nat, nat), Length>, next: map<(nat, nat), Length>, v1: nat, v2: nat, a: nat,
          b: nat)
    requires s.Valid() && v1 < s.Size() && v2 < s.Size() && a < s.Size() && b < s.Size() && a != b
    requires (a, b) in table && EntryReached(s, table, a, b, v1, v2)
    requires next == if s.InBunch(v2, v1)
                     then table[(v1, v2) := Finite(s.D(v1, v2))][(v2, v1) := Finite(s.D(v1, v2))]
                     else table
    ensures EntryReached(s, next, a, b, v1, v2 + 1)
  {
    assert (a, b) in next;
    if {a, b} == {v1, v2} {
      assert (a == v1 && b == v2) || (a == v2 && b == v1);
    } else {
      assert (a, b) != (v1, v2) && (a, b) != (v2, v1);
      assert next[(a, b)] == table[(a, b)];
    }
  }

  class LocalityNodes {
    const All: seq<LocalityNode>
    var ClusterBunchDistances: map<(nat, nat), Length>

    constructor (nodes: seq<LocalityNode>)
      ensures All == nodes
    {
      All := nodes;
    }

    ghost function Nodes(): set<LocalityNode> {
      set n | n in All
    }

    // GetChildren: bunch and cluster together, with no duplicates.
    function GetChildren(v: nat): set<nat>
      requires v < |All|
      reads All[v]
    {
      All[v].OptimalBunch + All[v].OptimalCluster
    }

    ghost function OptimalBunches(): (bunches: seq<set<nat>>)
      reads Nodes()
      ensures |bunches| == |All| && forall v :: 0 <= v < |All| ==> bunches[v] == All[v].OptimalBunch
    {
      seq(|All|, v requires 0 <= v < |All| reads Nodes() => assert All[v] in Nodes(); All[v].OptimalBunch)
    }

    ghost function OptimalClusters(): (clusters: seq<set<nat>>)
      reads Nodes()
      ensures |clusters| == |All| && forall v :: 0 <= v < |All| ==> clusters[v] == All[v].OptimalCluster
    {
      seq(|All|, v requires 0 <= v < |All| reads Nodes() => assert All[v] in Nodes(); All[v].OptimalCluster)
    }

    // Setup orders the nodes by the number in their name.
    ghost predicate Ordered() {
      forall i :: 0 <= i < |All| ==> All[i].Name == i
    }

    ghost predicate Describes(s: Space)
      reads Nodes()`Level
    {
      Ordered() && s.Valid() && s.Size() == |All| && forall v :: 0 <= v < |All| ==> All[v].Level == s.levels[v]
    }

    ghost predicate PivotsDone(s: Space, v: nat, rows: nat)
      requires s.Valid() && s.Size() == |All| && v < |All|
      reads All[v]
    {
      |All[v].PDist| == rows && s.PivotRow(v, All[v].PDist, All[v].ADist)
    }

    // The loops over levels and nodes that append to PDist and ADist.
    method AssignPivots(levels: nat, pingDist: seq<seq<real>>, ghost s: Space)
      requires Describes(s) && s.dist == pingDist
      requires forall v :: 0 <= v < |All| ==> All[v].PDist == [] && All[v].ADist == []
      modifies Nodes()`PDist, Nodes()`ADist
      ensures forall v :: 0 <= v < |All| ==> PivotsDone(s, v, levels)
    {
      for i := 0 to levels
        invariant forall v :: 0 <= v < |All| ==> PivotsDone(s, v, i)
      {
        ghost var next := i + 1;
        for v1 := 0 to |All|
          invariant forall v :: 0 <= v < v1 ==> PivotsDone(s, v, next)
          invariant forall v :: v1 <= v < |All| ==> PivotsDone(s, v, i)
        {
          var min := Max;
          var node: Option<nat> := None;
          for v2 := 0 to |All|
            invariant NearestSoFar(s, v1, i, v2, node, min)
          {
            if All[v2].Level >= i {
              var distance := Finite(pingDist[v1][v2]);
              assert distance == Finite(s.D(v1, v2));
              if distance.Below(min) {
                min, node := distance, Some(v2);
              }
            }
          }
          assert s.PivotEntry(v1, i, node, min);
          assert PivotsDone(s, v1, i);
          assert s.PivotRow(v1, All[v1].PDist + [node], All[v1].ADist + [min]);
          All[v1].PDist := All[v1].PDist + [node];
          All[v1].ADist := All[v1].ADist + [min];
        }
      }
    }

    ghost predicate Tabulated(s: Space)
      requires s.Valid()
      reads this
    {
      forall a, b :: 0 <= a < s.Size() && 0 <= b < s.Size() ==> (a, b) in ClusterBunchDistances
    }

    // Only linked pairs have been written since Setup.
    ghost predicate UnlinkedUntouched(s: Space)
      requires s.Valid() && Tabulated(s)
      reads this
    {
      forall a, b :: 0 <= a < s.Size() && 0 <= b < s.Size() && (a == b || !Linked(s, a, b)) ==>
        ClusterBunchDistances[(a, b)] == if a == b then Finite(0.0) else Max
    }

    // The loops over nodes and rounds that fill Bunch and OptimalBunch.
    method AssignBunches(levels: nat, pingDist: seq<seq<real>>, ghost s: Space)
      requires Describes(s) && s.dist == pingDist && levels >= 2
      requires Below(s, levels)
      requires forall v :: 0 <= v < |All| ==> PivotsDone(s, v, levels) && All[v].Bunch == All[v].OptimalBunch == {}
      requires Tabulated(s) && UnlinkedUntouched(s)
      modifies Nodes()`Bunch, Nodes()`OptimalBunch, this
      ensures forall v :: 0 <= v < |All| ==> All[v].Bunch == All[v].OptimalBunch == s.Bunch(v)
      ensures Tabulated(s) && UnlinkedUntouched(s)
    {
      for v1 := 0 to |All|
        invariant forall v :: 0 <= v < v1 ==> All[v].Bunch == All[v].OptimalBunch == s.Bunch(v)
        invariant forall v :: v1 <= v < |All| ==> All[v].Bunch == All[v].OptimalBunch == {}
        invariant Tabulated(s) && UnlinkedUntouched(s)
      {
        BunchOf(All[v1], v1, levels, pingDist, s);
      }
    }

    method BunchOf(node: LocalityNode, v1: nat, levels: nat, pingDist: seq<seq<real>>, ghost s: Space)
      requires Describes(s) && s.dist == pingDist && levels >= 2 && v1 < |All| && node == All[v1]
      requires Below(s, levels)
      requires PivotsDone(s, v1, levels) && node.Bunch == node.OptimalBunch == {}
      requires Tabulated(s) && UnlinkedUntouched(s)
      modifies node`Bunch, node`OptimalBunch, this
      ensures node.Bunch == node.OptimalBunch == s.Bunch(v1)
      ensures Tabulated(s) && UnlinkedUntouched(s)
    {
      for i := 0 to levels - 1
        invariant node.Bunch == node.OptimalBunch <= s.Bunch(v1)
        invariant forall x, j ::
          0 <= x < s.Size() && 0 <= j < i && Admitted(s.levels, levels, v1, x, s.D(v1, x), j, node.ADist) ==>
            x in node.Bunch
        invariant Tabulated(s) && UnlinkedUntouched(s)
      {
        BunchRound(node, v1, i, levels, pingDist, s);
      }
      forall x | x in s.Bunch(v1)
        ensures x in node.Bunch
      {
        AdmittedComplete(s, levels, v1, x, node.PDist, node.ADist);
      }
    }

    // Round i of the loop for one node.
    method BunchRound(node: LocalityNode, v1: nat, i: nat, levels: nat, pingDist: seq<seq<real>>, ghost s: Space)
      requires Describes(s) && s.dist == pingDist && i < levels - 1 && v1 < |All| && node == All[v1]
      requires Below(s, levels)
      requires PivotsDone(s, v1, levels) && node.Bunch == node.OptimalBunch <= s.Bunch(v1)
      requires Tabulated(s) && UnlinkedUntouched(s)
      modifies node`Bunch, node`OptimalBunch, this
      ensures old(node.Bunch) <= node.Bunch == node.OptimalBunch <= s.Bunch(v1)
      ensures forall x ::
        0 <= x < s.Size() && Admitted(s.levels, levels, v1, x, s.D(v1, x), i, node.ADist) ==> x in node.Bunch
      ensures Tabulated(s) && UnlinkedUntouched(s)
    {
      for v2 := 0 to |All|
        invariant old(node.Bunch) <= node.Bunch == node.OptimalBunch <= s.Bunch(v1)
        invariant forall x ::
          0 <= x < v2 && Admitted(s.levels, levels, v1, x, s.D(v1, x), i, node.ADist) ==> x in node.Bunch
        invariant Tabulated(s) && UnlinkedUntouched(s)
      {
        var d := pingDist[v1][v2];
        assert d == s.D(v1, v2) && All[v2].Level == s.levels[v2];
        if Admitted(s.levels, levels, v1, v2, d, i, node.ADist) {
          AdmittedSound(s, levels, v1, v2, i, node.PDist, node.ADist);
        }
        if All[v2].Level >= i {
          if CheckDistance(d, i, node.ADist) && v2 != v1 {
            node.Bunch, node.OptimalBunch := node.Bunch + {v2}, node.OptimalBunch + {v2};
            ClusterBunchDistances := ClusterBunchDistances[(v1, v2) := Finite(d)][(v2, v1) := Finite(d)];
          }
        }
        if All[v2].Level + 1 == levels && v2 != v1 {
          node.Bunch, node.OptimalBunch := node.Bunch + {v2}, node.OptimalBunch + {v2};
          ClusterBunchDistances := ClusterBunchDistances[(v1, v2) := Finite(d)][(v2, v1) := Finite(d)];
        }
      }
    }

    // All pairs of distinct nodes, after the cluster loops have passed those before (v1, v2).
    ghost predicate EntriesReached(s: Space, v1: nat, v2: nat)
      requires s.Valid() && Tabulated(s)
      reads this
    {
      && (forall a :: 0 <= a < s.Size() ==> ClusterBunchDistances[(a, a)] == Finite(0.0))
      && forall a, b :: 0 <= a < s.Size() && 0 <= b < s.Size() && a != b ==>
        EntryReached(s, ClusterBunchDistances, a, b, v1, v2)
    }

    // The loops that make Cluster the converse of Bunch and settle the table.
    method AssignClusters(pingDist: seq<seq<real>>, ghost s: Space)
      requires Describes(s) && s.dist == pingDist
      requires forall v ::
        0 <= v < |All| ==> All[v].Bunch == s.Bunch(v) && All[v].Cluster == All[v].OptimalCluster == {}
      requires Tabulated(s) && UnlinkedUntouched(s)
      modifies Nodes()`Cluster, Nodes()`OptimalCluster, this
      ensures forall v :: 0 <= v < |All| ==> All[v].Cluster == All[v].OptimalCluster == s.Cluster(v)
      ensures Tabulated(s)
      ensures forall a, b ::
        0 <= a < s.Size() && 0 <= b < s.Size() ==> ClusterBunchDistances[(a, b)] == TableEntry(s, a, b)
    {
      for v1 := 0 to |All|
        invariant forall v :: 0 <= v < v1 ==> All[v].Cluster == All[v].OptimalCluster == s.Cluster(v)
        invariant forall v :: v1 <= v < |All| ==> All[v].Cluster == All[v].OptimalCluster == {}
        invariant Tabulated(s) && EntriesReached(s, v1, 0)
      {
        ClusterOf(All[v1], v1, pingDist, s);
      }
      forall a, b | 0 <= a < s.Size() && 0 <= b < s.Size()
        ensures ClusterBunchDistances[(a, b)] == TableEntry(s, a, b)
      {
        assert a != b ==> EntryReached(s, ClusterBunchDistances, a, b, |All|, 0);
      }
    }

    method ClusterOf(node: LocalityNode, v1: nat, pingDist: seq<seq<real>>, ghost s: Space)
      requires Describes(s) && s.dist == pingDist && v1 < |All| && node == All[v1]
      requires forall v :: 0 <= v < |All| ==> All[v].Bunch == s.Bunch(v)
      requires node.Cluster == node.OptimalCluster == {}
      requires Tabulated(s) && EntriesReached(s, v1, 0)
      modifies node`Cluster, node`OptimalCluster, this
      ensures node.Cluster == node.OptimalCluster == s.Cluster(v1)
      ensures Tabulated(s) && EntriesReached(s, v1 + 1, 0)
    {
      for v2 := 0 to |All|
        invariant node.Cluster == node.OptimalCluster == set x | x in s.Cluster(v1) && x < v2
        invariant Tabulated(s) && EntriesReached(s, v1, v2)
      {
        ghost var before := ClusterBunchDistances;
        if v1 in All[v2].Bunch && v2 != v1 {
          node.OptimalCluster := node.OptimalCluster + {v2};
          node.Cluster := node.Cluster + {v2};
          var d := pingDist[v1][v2];
          assert d == s.D(v1, v2);
          ClusterBunchDistances := ClusterBunchDistances[(v1, v2) := Finite(d)][(v2, v1) := Finite(d)];
        }
        ghost var after := v2 + 1;
        forall a, b | 0 <= a < s.Size() && 0 <= b < s.Size() && a != b
          ensures EntryReached(s, ClusterBunchDistances, a, b, v1, after)
        {
          EntryStep(s, before, ClusterBunchDistances, v1, v2, a, b);
        }
      }
      NextRowReached(s, v1);
    }

    // The end of one row of pairs is the start of the next.
    lemma NextRowReached(s: Space, v1: nat)
      requires Describes(s) && v1 < s.Size() && Tabulated(s) && EntriesReached(s, v1, s.Size())
      ensures EntriesReached(s, v1 + 1, 0)
    {
      var nextRow := v1 + 1;
      forall a, b | 0 <= a < s.Size() && 0 <= b < s.Size() && a != b
        ensures EntryReached(s, ClusterBunchDistances, a, b, nextRow, 0)
      {
        assert EntryReached(s, ClusterBunchDistances, a, b, v1, s.Size());
      }
    }

    // Setup: forget the previous graph and allocate the table.
    method Setup(ghost s: Space)
      requires Describes(s)
      modifies Nodes(), this
      ensures Describes(s)
      ensures forall v :: 0 <= v < |All| ==> All[v].PDist == [] && All[v].ADist == []
      ensures forall v ::
        0 <= v < |All| ==> All[v].Bunch == All[v].OptimalBunch == All[v].Cluster == All[v].OptimalCluster == {}
      ensures Tabulated(s) && UnlinkedUntouched(s)
      ensures forall a, b :: 0 <= a < |All| && 0 <= b < |All| && a != b ==> ClusterBunchDistances[(a, b)] == Max
    {
      for v := 0 to |All|
        invariant Describes(s)
        invariant forall u :: 0 <= u < v ==> All[u].PDist == [] && All[u].ADist == []
        invariant forall u ::
          0 <= u < v ==> All[u].Bunch == All[u].OptimalBunch == All[u].Cluster == All[u].OptimalCluster == {}
      {
        All[v].ADist, All[v].PDist := [], [];
        All[v].OptimalCluster, All[v].OptimalBunch, All[v].Cluster, All[v].Bunch := {}, {}, {}, {};
      }
      ClusterBunchDistances := map[];
      for v := 0 to |All|
        modifies this
        invariant forall a, b :: 0 <= a < v && 0 <= b < |All| ==> (a, b) in ClusterBunchDistances
        invariant forall a, b :: 0 <= a < v && 0 <= b < |All| ==>
          ClusterBunchDistances[(a, b)] == if a == b then Finite(0.0) else Max
      {
        for w := 0 to |All|
          modifies this
          invariant forall a, b :: 0 <= a < |All| && 0 <= b < |All| && (a < v || (a == v && b < w)) ==>
            (a, b) in ClusterBunchDistances
          invariant forall a, b :: 0 <= a < |All| && 0 <= b < |All| && (a < v || (a == v && b < w)) ==>
            ClusterBunchDistances[(a, b)] == if a == b then Finite(0.0) else Max
        {
          ClusterBunchDistances := ClusterBunchDistances[(v, w) := Max];
          if v == w {
            ClusterBunchDistances := ClusterBunchDistances[(v, w) := Finite(0.0)];
          }
        }
      }
    }

    // The whole graph is as the reference definitions say.
    ghost predicate Built(s: Space, levels: nat)
      requires Describes(s)
      reads this, Nodes()
    {
      && (forall v :: 0 <= v < |All| ==> PivotsDone(s, v, levels))
      && (forall v :: 0 <= v < |All| ==> All[v].Bunch == s.Bunch(v) && All[v].Cluster == s.Cluster(v))
      && Tabulated(s)
      && forall a, b :: 0 <= a < s.Size() && 0 <= b < s.Size() ==> ClusterBunchDistances[(a, b)] == TableEntry(s, a, b)
    }

    // The optimal maps agree with the maps: nothing has been pruned yet.
    ghost predicate Unpruned()
      reads this, Nodes()
    {
      forall v :: 0 <= v < |All| ==> All[v].OptimalBunch == All[v].Bunch && All[v].OptimalCluster == All[v].Cluster
    }

    // For every assignment of levels below the given number, at least two.
    method CreateLocalityGraph(levels: nat, pingDist: seq<seq<real>>, ghost s: Space)
      requires Describes(s) && s.dist == pingDist && levels >= 2
      requires Below(s, levels)
      requires forall v :: 0 <= v < |All| ==> All[v].PDist == [] && All[v].ADist == []
      requires forall v ::
        0 <= v < |All| ==> All[v].Bunch == All[v].OptimalBunch == All[v].Cluster == All[v].OptimalCluster == {}
      requires Tabulated(s) && UnlinkedUntouched(s)
      modifies Nodes(), this
      ensures Describes(s) && Built(s, levels) && Unpruned()
    {
      AssignPivots(levels, pingDist, s);
      AssignBunches(levels, pingDist, s);
      AssignClusters(pingDist, s);
      assert forall v :: 0 <= v < |All| ==> PivotsDone(s, v, levels);
    }
  }
}
