// gentree/Save.go: one attempt of RemoveLinks to find a node that can leave a
// bunch, and the record of the bunch by level that guides it.

module BunchAttempts {
  import opened Values
  import opened Spaces
  import opened LocalityGraph
  import opened Connectivity
  import opened KeptLinks

  // MapLen2 of an entry of nrPerLevel, an absent map being empty.
  function CountAt(nrPerLevel: map<int, set<nat>>, level: int): nat {
    if level in nrPerLevel then |nrPerLevel[level]| else 0
  }

  function Without(nrPerLevel: map<int, set<nat>>, level: int, x: nat): map<int, set<nat>> {
    if level in nrPerLevel then nrPerLevel[level := nrPerLevel[level] - {x}] else nrPerLevel
  }

  // nrPerLevel holds exactly the given nodes, each at its level.
  ghost predicate LevelsSorted(all: LocalityNodes, nodes: set<nat>, nrPerLevel: map<int, set<nat>>)
    reads all.Nodes()`Level
  {
    && (forall x :: x in nodes ==> x < |all.All| && all.All[x].Level in nrPerLevel && x in nrPerLevel[all.All[x].Level])
    && forall l, x :: l in nrPerLevel && x in nrPerLevel[l] ==> x in nodes && all.All[x].Level == l
  }

  lemma WithoutSorted(all: LocalityNodes, nodes: set<nat>, nrPerLevel: map<int, set<nat>>, x: nat)
    requires LevelsSorted(all, nodes, nrPerLevel) && x < |all.All|
    ensures LevelsSorted(all, nodes - {x}, Without(nrPerLevel, all.All[x].Level, x))
  {
  }

  ghost predicate NoneAt(all: LocalityNodes, nodes: set<nat>, level: int)
    reads all.Nodes()`Level
  {
    forall x :: x in nodes && x < |all.All| ==> all.All[x].Level != level
  }

  lemma CountZero(all: LocalityNodes, nodes: set<nat>, nrPerLevel: map<int, set<nat>>, level: int)
    requires LevelsSorted(all, nodes, nrPerLevel)
    ensures CountAt(nrPerLevel, level) == 0 <==> NoneAt(all, nodes, level)
  {
    if level in nrPerLevel && nrPerLevel[level] != {} {
      var x :| x in nrPerLevel[level];
      assert x in nodes && all.All[x].Level == level;
    }
  }

  ghost predicate AtMostLevel(all: LocalityNodes, nodes: set<nat>, level: int)
    reads all.Nodes()`Level
  {
    forall x :: x in nodes && x < |all.All| ==> all.All[x].Level <= level
  }

  // What an attempt knows: the nodes of the bunch of a that it has not yet found
  // to be needed, sorted by level, none above the level that has priority.
  ghost predicate Record(all: LocalityNodes, g: Neighbours, a: nat, unseen: set<nat>, nrPerLevel: map<int, set<nat>>,
          priorityLevel: int)
    requires a < |all.All|
    reads all.Nodes()
  {
    && LevelsSorted(all, unseen, nrPerLevel) && AtMostLevel(all, unseen, priorityLevel)
    && unseen <= all.All[a].OptimalBunch && BunchSeen(all, g, a, unseen)
  }

  // The members that a record may hold as not yet found to be needed.
  ghost function Records(all: LocalityNodes, g: Neighbours, a: nat, nrPerLevel: map<int, set<nat>>,
          priorityLevel: int): iset<set<nat>>
    requires a < |all.All|
    reads all.Nodes()
  {
    iset unseen | Record(all, g, a, unseen, nrPerLevel, priorityLevel)
  }

  // The bunch of a by level. The source allocates three levels only.
  method CountLevels(all: LocalityNodes, a: nat, ghost s: Space,
          ghost levels: nat) returns (nrPerLevel: map<int, set<nat>>)
    requires Pruned(all, s, levels) && a < |all.All|
    ensures LevelsSorted(all, all.All[a].OptimalBunch, nrPerLevel)
  {
    assert NodeKept(all, s, levels, a);
    nrPerLevel := map[0 := {}, 1 := {}, 2 := {}];
    var bunch := all.All[a].OptimalBunch;
    ghost var done: set<nat> := {};
    while bunch != {}
      invariant done + bunch == all.All[a].OptimalBunch
      invariant LevelsSorted(all, done, nrPerLevel)
      decreases bunch
    {
      var x :| x in bunch;
      bunch := bunch - {x};
      done := done + {x};
      var level := all.All[x].Level;
      if level !in nrPerLevel {
        nrPerLevel := nrPerLevel[level := {}];
      }
      nrPerLevel := nrPerLevel[level := nrPerLevel[level] + {x}];
    }
    assert done == all.All[a].OptimalBunch;
  }

  ghost predicate NeededBelow(all: LocalityNodes, g: Neighbours, a: nat, bound: nat)
    requires a < |all.All|
    reads all.Nodes()
  {
    forall c :: c in all.All[a].OptimalBunch && c < bound ==> Needed(all, g, a, c)
  }

  // An attempt that has passed the nodes below bound, having started with unseen
  // and priority. As long as it has learnt nothing new, those nodes are needed, or
  // the level of priority has members still to come.
  ghost predicate Underway(all: LocalityNodes, g: Neighbours, a: nat, unseen: set<nat>, priority: int, bound: nat,
          rest: set<nat>, nrPerLevel: map<int, set<nat>>, priorityLevel: int)
    requires a < |all.All|
    reads all.Nodes()
  {
    && rest <= unseen && priorityLevel <= priority && Record(all, g, a, rest, nrPerLevel, priorityLevel)
    && (priorityLevel == priority ==> NoneBelowAt(all, rest, bound, priority))
    && (rest == unseen && priorityLevel == priority ==> !NoneAt(all, rest, priority) || NeededBelow(all, g, a, bound))
  }

  // None of the nodes is kept for being a pivot or a reported bridge.
  ghost predicate NoneExempt(all: LocalityNodes, a: nat, bridges: set<(nat, nat)>, nodes: set<nat>)
    requires a < |all.All|
    reads all.Nodes()`PDist
  {
    NoneExemptBelow(all, a, bridges, nodes, |all.All|)
  }

  ghost predicate NoneExemptBelow(all: LocalityNodes, a: nat, bridges: set<(nat, nat)>, nodes: set<nat>, bound: nat)
    requires a < |all.All|
    reads all.Nodes()`PDist
  {
    forall x :: x in nodes && x < bound && x < |all.All| ==> !IsAPivot(all.All[a], x) && (a, x) !in bridges
  }

  // The member b can go; rest are the others not yet found to be needed.
  ghost predicate Removable(all: LocalityNodes, g: Neighbours, a: nat, bridges: set<(nat, nat)>, b: nat,
          rest: set<nat>, nrPerLevel: map<int, set<nat>>, priorityLevel: int)
    requires a < |all.All|
    reads all.Nodes()
  {
    && b in all.All[a].OptimalBunch && b < |all.All| && !IsAPivot(all.All[a], b) && (a, b) !in bridges
    && all.All[b].Level == priorityLevel && b !in rest && BunchSeen(all, g, a, rest + {b})
    && rest <= all.All[a].OptimalBunch && LevelsSorted(all, rest, nrPerLevel) && AtMostLevel(all, rest, priorityLevel)
  }

  // One attempt, up to the removal itself: the first member that can go, if there
  // is one. An attempt that finds none leaves only members in the record that are
  // exempt neither as pivots nor by these bridges. Having begun like that, it has
  // lowered the priority, or else nothing can be removed any more.
  method FindRemovable(all: LocalityNodes, a: nat, perLevel: map<int, set<nat>>, priority: int,
          bridges: set<(nat, nat)>, ghost g: Neighbours, ghost s: Space, ghost levels: nat, ghost unseen: set<nat>)
    returns (found: Option<nat>, nrPerLevel: map<int, set<nat>>, priorityLevel: int, ghost rest: set<nat>)
    requires Pruned(all, s, levels) && a < |all.All| && AllBridges(g, bridges)
    requires Record(all, g, a, unseen, perLevel, priority)
    ensures rest <= unseen && priorityLevel <= priority
    ensures found.Some? ==> Removable(all, g, a, bridges, found.value, rest, nrPerLevel, priorityLevel)
    ensures found.None? ==> Record(all, g, a, rest, nrPerLevel, priorityLevel)
    ensures found.None? ==> NoneExempt(all, a, bridges, rest)
    ensures found.None? && NoneExempt(all, a, bridges, unseen) ==> priorityLevel < priority || BunchSeen(all, g, a, {})
  {
    nrPerLevel, priorityLevel, rest := perLevel, priority, unseen;
    for b := 0 to |all.All|
      invariant Pruned(all, s, levels) && Underway(all, g, a, unseen, priority, b, rest, nrPerLevel, priorityLevel)
      invariant NoneExemptBelow(all, a, bridges, rest, b) && (NoneExempt(all, a, bridges, unseen) ==> rest == unseen)
    {
      if b in all.All[a].OptimalBunch {
        found, nrPerLevel, priorityLevel, rest :=
          LookAt(all, a, b, nrPerLevel, priority, priorityLevel, bridges, g, s, levels, unseen, rest);
        if found.Some? {
          return;
        }
      }
    }
    assert NodeKept(all, s, levels, a);
    found := None;
  }

  // The body of the loop, for a member b of the bunch.
  method LookAt(all: LocalityNodes, a: nat, b: nat, perLevel: map<int, set<nat>>, ghost start: int, priority: int,
          bridges: set<(nat, nat)>, ghost g: Neighbours, ghost s: Space, ghost levels: nat, ghost unseen: set<nat>,
          ghost before: set<nat>)
    returns (found: Option<nat>, nrPerLevel: map<int, set<nat>>, priorityLevel: int, ghost rest: set<nat>)
    requires Pruned(all, s, levels) && a < |all.All| && b < |all.All| && b in all.All[a].OptimalBunch
    requires AllBridges(g, bridges)
    requires Underway(all, g, a, unseen, start, b, before, perLevel, priority)
    requires NoneExemptBelow(all, a, bridges, before, b)
    ensures Pruned(all, s, levels)
    ensures rest <= unseen && priorityLevel <= start
    ensures found.Some? ==> Removable(all, g, a, bridges, found.value, rest, nrPerLevel, priorityLevel)
    ensures found.None? ==> Underway(all, g, a, unseen, start, b + 1, rest, nrPerLevel, priorityLevel)
    ensures found.None? ==> NoneExemptBelow(all, a, bridges, rest, b + 1)
    ensures found.None? && NoneExempt(all, a, bridges, before) ==> rest == before
  {
    nrPerLevel, priorityLevel, rest := perLevel, priority, before;
    found := None;
    var level := all.All[b].Level;
    var isInPDist := Some(b) in all.All[a].PDist;
    WithoutSorted(all, rest, nrPerLevel, b);
    if isInPDist || b == a || (a, b) in bridges {
      assert b != a by {
        assert NodeKept(all, s, levels, a);
      }
      assert isInPDist == IsAPivot(all.All[a], b);
      assert NoneExempt(all, a, bridges, before) ==> b !in before;
      assert b !in rest ==> rest - {b} == rest;
      nrPerLevel, rest := Without(nrPerLevel, level, b), rest - {b};
    } else {
      CountZero(all, rest, nrPerLevel, priorityLevel);
      if CountAt(nrPerLevel, priorityLevel) == 0 {
        priorityLevel := priorityLevel - 1;
      }
      if level == priorityLevel {
        nrPerLevel, rest := Without(nrPerLevel, priorityLevel, b), rest - {b};
        found := Some(b);
      }
    }
  }

  ghost predicate NoneBelowAt(all: LocalityNodes, nodes: set<nat>, bound: nat, level: int)
    reads all.Nodes()`Level
  {
    forall x :: x in nodes && x < bound && x < |all.All| ==> all.All[x].Level != level
  }
}
