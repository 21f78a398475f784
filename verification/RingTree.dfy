// gentree/gentree.go: the tree that CreateOnetRings builds for one root and one
// set of allowed nodes. Tree nodes are named by their roster index. A slice of
// children never holds a node twice and its order follows that of a Go map, so
// it is a set here. A slice of parents is a set too, empty for a missing entry.

module RingTrees {
  import opened LocalityGraph

  // The contents of a tree under construction.
  datatype Links = Links(root: nat, nodes: set<nat>, parent: map<nat, nat>, children: map<nat, set<nat>>,
          parents: map<nat, set<nat>>)
  {
    ghost predicate Valid() {
      && nodes == children.Keys && root in nodes
      && parent.Keys == nodes - {root}
      && parents.Keys == nodes
      && forall x :: x in children ==> children[x] <= nodes
    }
  }

  // s after the nodes in kids have become children of x, those in bs being
  // entered as parents of x as well. A node new to the tree gets x as its parent.
  ghost function WithChildren(s: Links, x: nat, kids: set<nat>, bs: set<nat>): (t: Links)
    requires s.Valid() && x in s.nodes
    ensures t.Valid() && x in t.nodes
  {
    Links(
      s.root,
      s.nodes + kids,
      map y | y in s.nodes + kids && y != s.root :: if y in s.nodes then s.parent[y] else x,
      map y | y in s.nodes + kids ::
        if y == x then s.children[x] + kids else if y in s.nodes then s.children[y] else {},
      map y | y in s.nodes + kids :: if y == x then s.parents[x] + bs else if y in s.nodes then s.parents[y] else {})
  }

  // Two trees with the same contents are equal.
  lemma SameLinks(t: Links, u: Links)
    requires t.Valid() && u.Valid() && t.root == u.root && t.nodes == u.nodes
    requires forall y :: y in t.nodes ==> t.children[y] == u.children[y]
    requires forall y :: y in t.parent ==> t.parent[y] == u.parent[y]
    requires forall y :: y in t.nodes ==> t.parents[y] == u.parents[y]
    ensures t == u
  {
    assert t.parent == u.parent && t.children == u.children && t.parents == u.parents;
  }

  lemma ParentEntryCompose(s: Links, x: nat, kids: set<nat>, bs: set<nat>, kids': set<nat>, bs': set<nat>, y: nat)
    requires s.Valid() && x in s.nodes && y in s.nodes + kids + kids' && y != s.root
    ensures WithChildren(WithChildren(s, x, kids, bs), x, kids', bs').parent[y] ==
      WithChildren(s, x, kids + kids', bs + bs').parent[y]
  {
  }

  lemma ChildrenEntryCompose(s: Links, x: nat, kids: set<nat>, bs: set<nat>, kids': set<nat>, bs': set<nat>, y: nat)
    requires s.Valid() && x in s.nodes && y in s.nodes + kids + kids'
    ensures WithChildren(WithChildren(s, x, kids, bs), x, kids', bs').children[y] ==
      WithChildren(s, x, kids + kids', bs + bs').children[y]
    ensures WithChildren(WithChildren(s, x, kids, bs), x, kids', bs').parents[y] ==
      WithChildren(s, x, kids + kids', bs + bs').parents[y]
  {
    assert s.children[x] + kids + kids' == s.children[x] + (kids + kids');
    assert s.parents[x] + bs + bs' == s.parents[x] + (bs + bs');
  }

  lemma ChildrenCompose(s: Links, x: nat, kids: set<nat>, bs: set<nat>, kids': set<nat>, bs': set<nat>)
    requires s.Valid() && x in s.nodes
    ensures WithChildren(WithChildren(s, x, kids, bs), x, kids', bs') == WithChildren(s, x, kids + kids', bs + bs')
  {
    var u := WithChildren(WithChildren(s, x, kids, bs), x, kids', bs');
    var w := WithChildren(s, x, kids + kids', bs + bs');
    forall y | y in u.nodes
      ensures u.children[y] == w.children[y] && u.parents[y] == w.parents[y]
    {
      ChildrenEntryCompose(s, x, kids, bs, kids', bs', y);
    }
    forall y | y in u.parent
      ensures u.parent[y] == w.parent[y]
    {
      ParentEntryCompose(s, x, kids, bs, kids', bs', y);
    }
    SameLinks(u, w);
  }

  lemma NoChildren(s: Links, x: nat)
    requires s.Valid() && x in s.nodes
    ensures WithChildren(s, x, {}, {}) == s
  {
    var t := WithChildren(s, x, {}, {});
    assert t.nodes == s.nodes && t.children[x] == s.children[x] && t.parents[x] == s.parents[x];
    SameLinks(s, t);
  }

  // A child that already has a tree node ...
  lemma KnownChild(s: Links, x: nat, c: nat)
    requires s.Valid() && x in s.nodes && c in s.nodes
    ensures WithChildren(s, x, {c}, {}) ==
            if c in s.children[x] then s else s.(children := s.children[x := s.children[x] + {c}])
  {
    var w := WithChildren(s, x, {c}, {});
    assert w.nodes == s.nodes && w.parents[x] == s.parents[x];
    if c in s.children[x] {
      assert w.children[x] == s.children[x];
      SameLinks(w, s);
    } else {
      SameLinks(w, s.(children := s.children[x := s.children[x] + {c}]));
    }
  }

  // ... and one that does not.
  ghost function WithNewChild(s: Links, x: nat, c: nat): (t: Links)
    requires s.Valid() && x in s.nodes && c !in s.nodes
    ensures t.Valid() && t.nodes == s.nodes + {c}
  {
    Links(s.root, s.nodes + {c}, s.parent[c := x], s.children[c := {}][x := s.children[x] + {c}], s.parents[c := {}])
  }

  lemma NewChildEntry(s: Links, x: nat, c: nat, y: nat)
    requires s.Valid() && x in s.nodes && c !in s.nodes && y in s.nodes + {c}
    ensures WithChildren(s, x, {c}, {}).children[y] == WithNewChild(s, x, c).children[y]
    ensures WithChildren(s, x, {c}, {}).parents[y] == WithNewChild(s, x, c).parents[y]
    ensures y != s.root ==> WithChildren(s, x, {c}, {}).parent[y] == WithNewChild(s, x, c).parent[y]
  {
    assert s.parents[x] + {} == s.parents[x];
  }

  lemma NewChild(s: Links, x: nat, c: nat)
    requires s.Valid() && x in s.nodes && c !in s.nodes
    ensures WithChildren(s, x, {c}, {}) == WithNewChild(s, x, c)
  {
    var t, u := WithChildren(s, x, {c}, {}), WithNewChild(s, x, c);
    forall y | y in t.nodes
      ensures t.children[y] == u.children[y] && t.parents[y] == u.parents[y]
      ensures y != s.root ==> t.parent[y] == u.parent[y]
    {
      NewChildEntry(s, x, c, y);
    }
    SameLinks(t, u);
  }

  // Children that all have tree nodes already.
  lemma KnownChildren(s: Links, x: nat, kids: set<nat>, bs: set<nat>)
    requires s.Valid() && x in s.nodes && kids <= s.nodes
    ensures WithChildren(s, x, kids, bs) ==
            s.(children := s.children[x := s.children[x] + kids], parents := s.parents[x := s.parents[x] + bs])
  {
    var w := WithChildren(s, x, kids, bs);
    assert w.nodes == s.nodes;
    SameLinks(w, s.(children := s.children[x := s.children[x] + kids], parents := s.parents[x := s.parents[x] + bs]));
  }

  // The first step of a traversal.
  lemma RootChildren(root: nat, kids: set<nat>, bs: set<nat>)
    requires root !in kids
    ensures var s := Links(root, {root}, map[], map[root := {}], map[root := {}]);
            var t := WithChildren(s, root, kids, bs);
            && t.root == root && t.nodes == {root} + kids && t.children[root] == kids && t.parents[root] == bs
            && forall y :: y in kids ==> t.parent[y] == root && t.children[y] == {} && t.parents[y] == {}
  {
  }

  // The graph as the traversal reads it: OptimalCluster and OptimalBunch of
  // every node.
  datatype Graph = Graph(clusters: seq<set<nat>>, bunches: seq<set<nat>>) {

    ghost predicate Valid() {
      |clusters| == |bunches|
    }

    ghost function Children(v: nat): set<nat>
      requires Valid() && v < |clusters|
    {
      bunches[v] + clusters[v]
    }

    ghost predicate Holds(root: nat, allowed: set<nat>) {
      Valid() && root in allowed && forall y :: y in allowed ==> y < |clusters|
    }

    // The allowed nodes are the root and some of its neighbours, and the root is
    // a neighbour of each of them in turn.
    ghost predicate Suits(root: nat, allowed: set<nat>) {
      && Holds(root, allowed) && root !in Children(root)
      && (forall y {:trigger y in Children(root)} :: y in allowed && y != root ==> y in Children(root))
      && forall y {:trigger Children(y)} :: y in allowed && y != root ==> root in Children(y)
    }
  }

  // A tree that consists of its root alone.
  ghost function Bare(root: nat): Links {
    Links(root, {root}, map[], map[root := {}], map[root := {}])
  }

  // The tree in which every allowed node hangs below the root, and the nodes in
  // done have all their allowed neighbours as children.
  ghost function TreeOver(root: nat, g: Graph, allowed: set<nat>, done: set<nat>): (t: Links)
    requires g.Holds(root, allowed)
    ensures t.Valid()
  {
    Links(
      root,
      allowed,
      map y | y in allowed && y != root :: root,
      map y | y in allowed :: if y in done then g.Children(y) * allowed else {},
      map y | y in allowed :: if y in done then g.bunches[y] * allowed else {})
  }

  lemma RootCovered(root: nat, g: Graph, allowed: set<nat>)
    requires g.Suits(root, allowed)
    ensures WithChildren(Bare(root), root, g.Children(root) * allowed, g.bunches[root] * allowed) ==
      TreeOver(root, g, allowed, {root})
  {
    var kids := g.Children(root) * allowed;
    RootChildren(root, kids, g.bunches[root] * allowed);
    assert {root} + kids == allowed;
    SameLinks(WithChildren(Bare(root), root, kids, g.bunches[root] * allowed), TreeOver(root, g, allowed, {root}));
  }

  lemma RootChildrenAre(root: nat, g: Graph, allowed: set<nat>, done: set<nat>)
    requires g.Suits(root, allowed) && root in done
    ensures TreeOver(root, g, allowed, done).children[root] == allowed - {root}
  {
  }

  lemma MoreCoveredAt(root: nat, g: Graph, allowed: set<nat>, done: set<nat>, x: nat, y: nat)
    requires g.Holds(root, allowed) && x in allowed && y in allowed
    ensures var s, t := TreeOver(root, g, allowed, done), TreeOver(root, g, allowed, done + {x});
            && t.children[y] == (if y == x then s.children[x] + g.Children(x) * allowed else s.children[y])
            && t.parents[y] == (if y == x then s.parents[x] + g.bunches[x] * allowed else s.parents[y])
  {
    var kids, bs := g.Children(x) * allowed, g.bunches[x] * allowed;
    assert {} + kids == kids && kids + kids == kids && {} + bs == bs && bs + bs == bs;
  }

  lemma MoreCovered(root: nat, g: Graph, allowed: set<nat>, done: set<nat>, x: nat)
    requires g.Holds(root, allowed) && x in allowed
    ensures WithChildren(TreeOver(root, g, allowed, done), x, g.Children(x) * allowed, g.bunches[x] * allowed)
            == TreeOver(root, g, allowed, done + {x})
  {
    var s, t := TreeOver(root, g, allowed, done), TreeOver(root, g, allowed, done + {x});
    var kids, bs := g.Children(x) * allowed, g.bunches[x] * allowed;
    KnownChildren(s, x, kids, bs);
    var u := s.(children := s.children[x := s.children[x] + kids], parents := s.parents[x := s.parents[x] + bs]);
    forall y | y in allowed
      ensures t.children[y] == u.children[y] && t.parents[y] == u.parents[y]
    {
      MoreCoveredAt(root, g, allowed, done, x, y);
    }
    SameLinks(t, u);
  }

  // One more node of a set has been looked at.
  lemma Passed(all: set<nat>, rest: set<nat>, allowed: set<nat>, c: nat)
    requires c in rest && rest <= all
    ensures (all - (rest - {c})) * allowed == (all - rest) * allowed + (if c in allowed then {c} else {})
  {
  }

  class RingTree {
    const Root: nat
    var NodeList: set<nat>
    var Parent: map<nat, nat>
    var Children: map<nat, set<nat>>
    var Parents: map<nat, set<nat>>

    ghost function State(): Links
      reads this
    {
      Links(Root, NodeList, Parent, Children, Parents)
    }

    constructor (root: nat)
      ensures State() == Links(root, {root}, map[], map[root := {}], map[root := {}])
      ensures State().Valid()
    {
      Root, NodeList, Parent := root, {root}, map[];
      Children, Parents := map[root := {}], map[root := {}];
    }

    // The part of both loops of CreateAndSetChildren that makes c a child of x,
    // creating its tree node first when there is none.
    method AddChild(x: nat, c: nat)
      requires State().Valid() && x in NodeList
      modifies this
      ensures State() == WithChildren(old(State()), x, {c}, {})
    {
      ghost var s := State();
      if c in NodeList {
        KnownChild(s, x, c);
      } else {
        NewChild(s, x, c);
      }
      if c !in NodeList {
        Parent := Parent[c := x];
        NodeList := NodeList + {c};
        Children, Parents := Children[c := {}], Parents[c := {}];
      }
      if c !in Children[x] {
        Children := Children[x := Children[x] + {c}];
      }
    }

    // A bunch member becomes a child of x and is entered among its parents.
    method EnterParent(x: nat, b: nat)
      requires State().Valid() && x in NodeList
      modifies this
      ensures State() == WithChildren(old(State()), x, {b}, {b})
    {
      ghost var s := State();
      AddChild(x, b);
      assert WithChildren(s, x, {b}, {}).parents[x] == s.parents[x];
      Parents := Parents[x := Parents[x] + {b}];
      SameLinks(State(), WithChildren(s, x, {b}, {b}));
    }

    method AddClusterChildren(optimalCluster: set<nat>, allowed: set<nat>, x: nat)
      requires State().Valid() && x in NodeList
      modifies this
      ensures State() == WithChildren(old(State()), x, optimalCluster * allowed, {})
    {
      var cluster := optimalCluster;
      ghost var kids: set<nat> := {};
      NoChildren(State(), x);
      while cluster != {}
        invariant kids == (optimalCluster - cluster) * allowed && cluster <= optimalCluster
        invariant State() == WithChildren(old(State()), x, kids, {})
        decreases cluster
      {
        var c :| c in cluster;
        Passed(optimalCluster, cluster, allowed, c);
        cluster := cluster - {c};
        if c in allowed {
          AddChild(x, c);
          ChildrenCompose(old(State()), x, kids, {}, {c}, {});
          kids := kids + {c};
        }
      }
      assert kids == optimalCluster * allowed;
    }

    method AddBunchChildren(optimalBunch: set<nat>, allowed: set<nat>, x: nat)
      requires State().Valid() && x in NodeList
      modifies this
      ensures State() == WithChildren(old(State()), x, optimalBunch * allowed, optimalBunch * allowed)
    {
      var bunch := optimalBunch;
      ghost var kids: set<nat> := {};
      NoChildren(State(), x);
      while bunch != {}
        invariant kids == (optimalBunch - bunch) * allowed && bunch <= optimalBunch
        invariant State() == WithChildren(old(State()), x, kids, kids)
        decreases bunch
      {
        var b :| b in bunch;
        Passed(optimalBunch, bunch, allowed, b);
        bunch := bunch - {b};
        if b in allowed {
          EnterParent(x, b);
          ChildrenCompose(old(State()), x, kids, kids, {b}, {b});
          kids := kids + {b};
        }
      }
      assert kids == optimalBunch * allowed;
    }

    method CreateAndSetChildren(g: Graph, allowed: set<nat>, x: nat)
      requires State().Valid() && x in NodeList && g.Valid() && x < |g.clusters|
      modifies this
      ensures State() == WithChildren(old(State()), x, g.Children(x) * allowed, g.bunches[x] * allowed)
    {
      var cluster, bunch := g.clusters[x], g.bunches[x];
      AddClusterChildren(cluster, allowed, x);
      AddBunchChildren(bunch, allowed, x);
      ChildrenCompose(old(State()), x, cluster * allowed, {}, bunch * allowed, bunch * allowed);
      assert cluster * allowed + bunch * allowed == (bunch + cluster) * allowed;
      assert {} + bunch * allowed == bunch * allowed;
    }

    method CoverMore(g: Graph, allowed: set<nat>, x: nat, ghost done: set<nat>)
      returns (kids: set<nat>)
      requires g.Suits(Root, allowed) && x in allowed
      requires State() == TreeOver(Root, g, allowed, done)
      modifies this
      ensures State() == TreeOver(Root, g, allowed, done + {x})
      ensures kids <= allowed && (x != Root ==> Root in kids)
    {
      MoreCovered(Root, g, allowed, done, x);
      CreateAndSetChildren(g, allowed, x);
      kids := Children[x];
    }

    // The children of the root are visited once each, in any order.
    method VisitRootChildren(g: Graph, allowed: set<nat>)
      returns (nrProcessedNodes: nat, next: set<nat>)
      requires g.Suits(Root, allowed)
      requires State() == TreeOver(Root, g, allowed, {Root})
      modifies this
      ensures State() == TreeOver(Root, g, allowed, allowed)
      ensures next <= allowed && (allowed != {Root} ==> Root in next)
    {
      nrProcessedNodes, next := 1, {};
      var rootChildren := Children[Root];
      RootChildrenAre(Root, g, allowed, {Root});
      assert allowed - rootChildren == {Root};
      while rootChildren != {}
        invariant rootChildren <= allowed && Root !in rootChildren
        invariant State() == TreeOver(Root, g, allowed, allowed - rootChildren)
        invariant next <= allowed && nrProcessedNodes >= 1
        invariant if nrProcessedNodes == 1 then allowed - rootChildren == {Root} else Root in next
        decreases rootChildren
      {
        var childNode :| childNode in rootChildren;
        assert allowed - rootChildren + {childNode} == allowed - (rootChildren - {childNode});
        var kids := CoverMore(g, allowed, childNode, allowed - rootChildren);
        rootChildren := rootChildren - {childNode};
        nrProcessedNodes := nrProcessedNodes + 1;
        next := next + kids;
      }
      assert allowed - rootChildren == allowed;
    }

    // The traversal in CreateOnetRings. The map of nodes to visit is the one
    // being ranged over while its entries are added, so an entry added during a
    // pass may or may not be visited in that pass.
    method Traverse(g: Graph, allowed: set<nat>)
      requires State() == Bare(Root) && g.Suits(Root, allowed)
      modifies this
      ensures State() == TreeOver(Root, g, allowed, allowed)
    {
      RootCovered(Root, g, allowed);
      CreateAndSetChildren(g, allowed, Root);
      var nrProcessedNodes, next := VisitRootChildren(g, allowed);
      while nrProcessedNodes <= |g.clusters|
        invariant State() == TreeOver(Root, g, allowed, allowed)
        invariant next <= allowed && (allowed != {Root} ==> Root in next)
      {
        if Children[Root] == {} {
          break;
        }
        nrProcessedNodes, next := Pass(g, allowed, nrProcessedNodes, next);
      }
    }

    method Pass(g: Graph, allowed: set<nat>, processed: nat, level: set<nat>)
      returns (nrProcessedNodes: nat, next: set<nat>)
      requires g.Suits(Root, allowed) && level <= allowed && level != {}
      requires State() == TreeOver(Root, g, allowed, allowed)
      modifies this
      ensures State() == TreeOver(Root, g, allowed, allowed) && level <= next <= allowed
      ensures nrProcessedNodes > processed
    {
      nrProcessedNodes, next := processed, level;
      var todo := level;
      ghost var visited: set<nat> := {};
      while todo != {}
        invariant State() == TreeOver(Root, g, allowed, allowed)
        invariant level <= next <= allowed && todo <= next && visited <= next && todo !! visited
        invariant nrProcessedNodes >= processed && (visited != {} ==> nrProcessedNodes > processed)
        invariant visited == {} ==> todo == level
        decreases allowed - visited
      {
        var childNode :| childNode in todo;
        todo := todo - {childNode};
        visited := visited + {childNode};
        var kids := CoverMore(g, allowed, childNode, allowed);
        assert allowed + {childNode} == allowed;
        nrProcessedNodes := nrProcessedNodes + 1;
        var added := kids - next;
        next := next + kids;
        var seen :| seen <= added;
        todo := todo + seen;
      }
    }
  }
}
