// gentree/Save.go: the distance oracle that walks the pivots.

module Oracle {
  import opened Values
  import opened Spaces
  import opened LocalityGraph
  import opened Walks

  // Distance and via node reported for a pair.
  datatype Compact = Compact(Dist: Length, ViaNodeName: Option<nat>)

  // The via node is where the walk from u to v has got to after some number of
  // steps, no more than the top level in use.
  ghost predicate Walked(s: Space, m: nat, u: nat, v: nat, via: nat)
    requires s.Valid() && u < s.Size() && v < s.Size()
  {
    exists i :: 0 <= i <= m && StepOf(s, Ends(u, v, i).0, via, i)
  }

  ghost predicate Answer(s: Space, m: nat, u: nat, v: nat, answer: Compact)
    requires s.Valid() && u < s.Size() && v < s.Size()
  {
    match answer.ViaNodeName
    case None => u == v && answer.Dist == Finite(0.0)
    case Some(via) => (
      && u != v && via < s.Size()
      && Reaches(s, u, via) && Reaches(s, v, via) && Walked(s, m, u, v, via)
      && answer.Dist == TableEntry(s, via, u).Plus(TableEntry(s, via, v))
      && (s.InBunch(v, u) ==> via == u)
      && (s.Metric() ==> Near(s, u, v, via, m)))
  }

  // The answers a query may give.
  ghost function AnswersTo(s: Space, m: nat, u: nat, v: nat): iset<Compact>
    requires s.Valid() && u < s.Size() && v < s.Size()
  {
    iset answer: Compact | Answer(s, m, u, v, answer)
  }

  // The node found first answers the query.
  lemma WalkAnswers(s: Space, m: nat, u: nat, v: nat, i: nat)
    requires s.Valid() && s.TopLevel(m) && u < s.Size() && v < s.Size() && u != v
    requires NoneBefore(s, u, v, i) && Stops(s, u, v, i)
    ensures var (nodeU, nodeV) := Ends(u, v, i);
            var w := Node(s, u, v, i);
            && Compact(TableEntry(s, w, nodeU).Plus(TableEntry(s, w, nodeV)), Some(w)) in AnswersTo(s, m, u, v)
            && TableEntry(s, w, nodeU).Finite? && TableEntry(s, w, nodeV).Finite?
  {
    var (nodeU, nodeV) := Ends(u, v, i);
    var w := Node(s, u, v, i);
    FoundIsReached(s, m, u, v, i);
    assert i > 0 ==> !Stops(s, u, v, 0);
    if s.Metric() {
      WalkStaysNear(s, u, v, i);
      WalkEnds(s, nodeU, nodeV, w, i, m);
    }
    assert TableEntry(s, w, u).Plus(TableEntry(s, w, v)) == TableEntry(s, w, v).Plus(TableEntry(s, w, u));
  }

  lemma FoundIsReached(s: Space, m: nat, u: nat, v: nat, i: nat)
    requires s.Valid() && s.TopLevel(m) && u < s.Size() && v < s.Size() && u != v
    requires NoneBefore(s, u, v, i) && Stops(s, u, v, i)
    ensures Walked(s, m, u, v, Node(s, u, v, i))
    ensures Reaches(s, Ends(u, v, i).0, Node(s, u, v, i)) && Reaches(s, Ends(u, v, i).1, Node(s, u, v, i))
  {
    var a, w := Ends(u, v, i).0, Node(s, u, v, i);
    AtAPivot(s, u, v, i);
    if StepOf(s, a, w, i) {
      LevelOfStep(s, a, w, i);
      if i > 0 {
        PivotInBunch(s, a, i, w);
      }
    } else {
      LevelOfStep(s, Ends(u, v, i - 1).0, w, i - 1);
    }
  }

  // The loop of the query, for every assignment of levels and all distances: it
  // finds the first node of the walk that is in the bunch of the other end, or asks
  // for a row that is not there, as its error message fears.
  method Walk(all: LocalityNodes, u: nat, v: nat, ghost s: Space, levels: nat)
    returns (found: bool, nodeU: nat, nodeV: nat, w: nat, i: nat)
    requires all.Describes(s) && all.Built(s, levels) && u < |all.All| && v < |all.All| && u != v
    requires levels >= 2 && Below(s, levels)
    ensures found <==> !RunsOut(s, u, v, levels)
    ensures found ==> i < levels && NoneBefore(s, u, v, i) && Stops(s, u, v, i)
    ensures found ==> Ends(u, v, i) == (nodeU, nodeV) && w == Node(s, u, v, i)
  {
    nodeU, nodeV := u, v;
    w := nodeU;
    i := 0;
    while true
      invariant i < levels && Ends(u, v, i) == (nodeU, nodeV) && w == Node(s, u, v, i)
      invariant NoneBefore(s, u, v, i)
      decreases levels - i
    {
      BunchTells(all, nodeV, w, s, levels);
      if w in all.All[nodeV].Bunch {
        WalkFinds(s, u, v, i, levels);
        return true, nodeU, nodeV, w, i;
      }
      assert !Stops(s, u, v, i);
      i := i + 1;
      if i == levels {
        NothingFound(s, u, v, levels);
        return false, nodeU, nodeV, w, i;
      }
      nodeU, nodeV := nodeV, nodeU;
      w := NextPivot(all, nodeU, w, i, u, v, s, levels);
    }
  }

  lemma BunchTells(all: LocalityNodes, v: nat, w: nat, s: Space, levels: nat)
    requires all.Describes(s) && all.Built(s, levels) && v < |all.All| && w < |all.All|
    ensures w in all.All[v].Bunch <==> s.InBunch(v, w)
  {
  }

  lemma WalkFinds(s: Space, u: nat, v: nat, i: nat, k: nat)
    requires s.Valid() && u < s.Size() && v < s.Size() && u != v && i < k && k >= 2 && Below(s, k) && Stops(s, u, v, i)
    ensures !RunsOut(s, u, v, k)
  {
    FindsExactly(s, u, v, k);
  }

  // The scan of the nodes for the one named in row i: w stays as it is when there
  // is none of that name.
  method NextPivot(all: LocalityNodes, nodeU: nat, w: nat, i: nat, ghost u: nat, ghost v: nat, ghost s: Space,
          levels: nat)
    returns (next: nat)
    requires all.Describes(s) && all.Built(s, levels) && u < |all.All| && v < |all.All| && 0 < i < levels
    requires nodeU == Ends(u, v, i).0 && w == Node(s, u, v, i - 1)
    ensures next == Node(s, u, v, i)
  {
    assert all.PivotsDone(s, nodeU, levels);
    assert s.PivotEntry(nodeU, i, all.All[nodeU].PDist[i], all.All[nodeU].ADist[i]);
    NodeFromRow(s, u, v, i, all.All[nodeU].PDist[i], all.All[nodeU].ADist[i]);
    next := w;
    if all.All[nodeU].PDist[i].Some? {
      next := all.All[nodeU].PDist[i].value;
    }
  }

  // For every assignment of levels, and all distances over which the query does not
  // exhaust the rows of PDist.
  method ApproxDistance(all: LocalityNodes, u: nat, v: nat, ghost s: Space, ghost m: nat, levels: nat)
    returns (dist: Length, viaName: nat)
    requires all.Describes(s) && all.Built(s, levels) && s.TopLevel(m) && levels >= 2 && Below(s, levels)
    requires u < |all.All| && v < |all.All| && u != v && !RunsOut(s, u, v, levels)
    ensures Compact(dist, Some(viaName)) in AnswersTo(s, m, u, v)
    ensures dist.Finite?
  {
    var found, nodeU, nodeV, w, i := Walk(all, u, v, s, levels);
    WalkAnswers(s, m, u, v, i);
    dist := all.ClusterBunchDistances[(w, nodeU)].Plus(all.ClusterBunchDistances[(w, nodeV)]);
    viaName := w;
  }

  ghost predicate Answered(s: Space, m: nat, u: nat, v: nat, dist2: map<(nat, nat), Compact>)
    requires s.Valid() && u < s.Size() && v < s.Size()
  {
    (u, v) in dist2 && dist2[(u, v)] in AnswersTo(s, m, u, v)
  }

  method AproximateDistanceOracle(all: LocalityNodes, ghost s: Space, ghost m: nat, levels: nat)
    returns (dist2: map<(nat, nat), Compact>)
    requires all.Describes(s) && all.Built(s, levels) && NoneRunsOut(s, levels) && (s.Size() > 0 ==> s.TopLevel(m))
    requires levels >= 2 && Below(s, levels)
    ensures forall u, v :: 0 <= u < s.Size() && 0 <= v < s.Size() ==> Answered(s, m, u, v, dist2)
  {
    dist2 := map[];
    for u := 0 to |all.All|
      invariant forall a, b :: 0 <= a < u && 0 <= b < s.Size() ==> Answered(s, m, a, b, dist2)
    {
      ghost var before := dist2;
      dist2 := AnswersFrom(all, u, dist2, s, m, levels);
      forall a, b | 0 <= a < u && 0 <= b < s.Size()
        ensures Answered(s, m, a, b, dist2)
      {
        assert Answered(s, m, a, b, before);
      }
    }
  }

  // The inner loop: the pairs that begin with u.
  method AnswersFrom(all: LocalityNodes, u: nat, start: map<(nat, nat), Compact>, ghost s: Space, ghost m: nat,
          levels: nat)
    returns (dist2: map<(nat, nat), Compact>)
    requires all.Describes(s) && all.Built(s, levels) && NoneRunsOut(s, levels) && s.TopLevel(m) && u < |all.All|
    requires levels >= 2 && Below(s, levels)
    ensures forall e :: e in start && e.0 != u ==> e in dist2 && dist2[e] == start[e]
    ensures forall v :: 0 <= v < s.Size() ==> Answered(s, m, u, v, dist2)
  {
    dist2 := start;
    for v := 0 to |all.All|
      invariant forall e :: e in start && e.0 != u ==> e in dist2 && dist2[e] == start[e]
      invariant forall b :: 0 <= b < v ==> Answered(s, m, u, b, dist2)
    {
      var answer := AnswerFor(all, u, v, s, m, levels);
      ghost var before := dist2;
      dist2 := dist2[(u, v) := answer];
      forall b | 0 <= b < v
        ensures Answered(s, m, u, b, dist2)
      {
        assert Answered(s, m, u, b, before);
      }
    }
  }

  // The body of the loops over the pairs.
  method AnswerFor(all: LocalityNodes, u: nat, v: nat, ghost s: Space, ghost m: nat,
          levels: nat) returns (answer: Compact)
    requires all.Describes(s) && all.Built(s, levels) && NoneRunsOut(s, levels) && s.TopLevel(m)
    requires levels >= 2 && Below(s, levels)
    requires u < |all.All| && v < |all.All|
    ensures answer in AnswersTo(s, m, u, v)
  {
    if u == v {
      return Compact(Finite(0.0), None);
    }
    var dist, viaNodeName := ApproxDistance(all, u, v, s, m, levels);
    answer := Compact(dist, Some(viaNodeName));
  }

  // The stretch bound: an answer is never below the true distance, and never
  // above it by more than a factor of 2m + 1, where m is the top level in use.
  lemma StretchBound(s: Space, u: nat, v: nat, answer: Compact, m: nat)
    requires s.Valid() && s.Metric() && u < s.Size() && v < s.Size() && s.TopLevel(m)
    requires Answer(s, m, u, v, answer)
    ensures answer.Dist.Finite?
    ensures s.D(u, v) <= answer.Dist.value <= Times(2 * m + 1, s.D(u, v))
    ensures m <= 2 ==> answer.Dist.value <= 5.0 * s.D(u, v)
  {
    var delta := s.D(u, v);
    if u == v {
      TimesMonotone(0, 2 * m + 1, delta);
    } else {
      var via := answer.ViaNodeName.value;
      TableIsExact(s, via, u);
      TableIsExact(s, via, v);
      assert s.D(u, v) <= s.D(u, via) + s.D(via, v) && s.D(u, via) == s.D(via, u);
    }
    if m <= 2 {
      TimesMonotone(2 * m + 1, 5, delta);
      TimesIsProduct(5, delta);
    }
  }

  // From a root to its own cluster the answer is the exact distance.
  lemma ExactOnCluster(s: Space, m: nat, root: nat, v: nat, answer: Compact)
    requires s.Valid() && s.ZeroToOneself() && s.Symmetric() && root < s.Size() && v < s.Size()
    requires Answer(s, m, root, v, answer) && v in s.Cluster(root)
    ensures answer.Dist == Finite(s.D(root, v))
  {
    TableIsExact(s, root, v);
  }

  // Such a query: node 0, of level 1, is at distance zero from node 1, the only one
  // of level 2, and comes before it. The query from 2 to 1 arrives, after two steps,
  // at node 1 itself, which is not in its own bunch.
  lemma RowsRunOut(s: Space)
    requires s.Valid() && s.levels == [1, 2, 0]
    requires s.dist == [[0.0, 0.0, 2.0], [0.0, 0.0, 1.0], [2.0, 1.0, 0.0]]
    ensures s.Symmetric() && s.ZeroToOneself() && s.TopLevel(2) && !s.Answerable() && RunsOut(s, 2, 1, 3)
  {
    assert s.D(1, 0) < s.D(1, 2) && s.D(2, 1) < s.D(2, 0) && s.D(1, 0) == s.D(1, 1);
    assert !s.IsPivot(1, 1, 1) && s.levels[1] == 2;
    assert s.IsPivot(1, 1, 0) && !s.InBunch(2, 0) && s.IsPivot(2, 2, 1) && !s.InBunch(1, 2);
    RunsOutOfThree(s, 2, 1);
  }
}
