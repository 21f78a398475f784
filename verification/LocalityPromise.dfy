// How far the promise of locality carries: when two nodes share a region of a
// radius that is a small multiple of their distance.

module LocalityPromise {
  import opened Values
  import opened Spaces
  import opened LocalityGraph
  import opened Walks
  import opened Oracle
  import opened Rings
  import opened Locality

  // Some node has u and v in its cluster, or is one of them, and both within the
  // radius.
  ghost predicate Meets(s: Space, u: nat, v: nat, radius: real)
    requires s.Valid() && u < s.Size() && v < s.Size()
  {
    exists w :: 0 <= w < s.Size() && MeetsAt(s, u, v, w, radius)
  }

  ghost predicate MeetsAt(s: Space, u: nat, v: nat, w: nat, radius: real)
    requires s.Valid() && u < s.Size() && v < s.Size() && w < s.Size()
  {
    Reaches(s, u, w) && Reaches(s, v, w) && s.D(w, u) <= radius && s.D(w, v) <= radius
  }

  // The index of the largest radius within a bound.
  function LargestIndex(bound: real): (c: nat)
    requires bound >= 1.0
    ensures c < |RADII| && RADII[c] <= bound && forall k :: c < k < |RADII| ==> RADII[k] > bound
  {
    if bound < 2.0 then 0 else if bound < 4.0 then 1 else if bound < 8.0 then 2
    else if bound < 16.0 then 3 else if bound < 10000.0 then 4 else 5
  }

  function Largest(bound: real): real
    requires bound >= 1.0
  {
    RADII[LargestIndex(bound)]
  }

  // A shared region of at most some radius, from what its root knows.
  lemma RegionMeets(s: Space, m: nat, dist2: map<(nat, nat), Compact>, trees: seq<seq<Ring>>, u: nat, v: nat, w: nat,
          bound: real)
    requires s.Valid() && s.Metric() && Regions(s, m, dist2, trees)
    requires u < s.Size() && v < s.Size() && w < s.Size() && bound >= 1.0 && Shares(trees[w], u, v, bound)
    ensures MeetsAt(s, u, v, w, Largest(bound))
  {
    var j :| 0 <= j < |trees[w]| && u in trees[w][j].nodes && v in trees[w][j].nodes && trees[w][j].radius <= bound;
    RegionsAreBalls(s, m, dist2, trees, w, j);
    BallMeets(s, u, v, w, trees[w][j].radius, trees[w][j].nodes, bound);
  }

  lemma BallMeets(s: Space, u: nat, v: nat, w: nat, radius: real, nodes: set<nat>, bound: real)
    requires s.Valid() && s.Metric() && u < s.Size() && v < s.Size() && w < s.Size() && bound >= 1.0
    requires IsBall(s, w, radius, nodes) && radius in RADII && radius <= bound && u in nodes && v in nodes
    ensures MeetsAt(s, u, v, w, Largest(bound))
  {
    assert radius <= Largest(bound) && s.D(w, w) == 0.0;
  }

  // Two nodes share a region of at most some radius exactly when they meet within
  // the largest radius that is not above it.
  lemma SharesExactly(s: Space, m: nat, dist2: map<(nat, nat), Compact>, trees: seq<seq<Ring>>, u: nat, v: nat,
          bound: real)
    requires s.Valid() && s.Metric() && Regions(s, m, dist2, trees)
    requires u < s.Size() && v < s.Size() && bound >= 1.0
    ensures (exists w :: 0 <= w < s.Size() && Shares(trees[w], u, v, bound)) <==> Meets(s, u, v, Largest(bound))
  {
    if w :| 0 <= w < s.Size() && Shares(trees[w], u, v, bound) {
      RegionMeets(s, m, dist2, trees, u, v, w, bound);
    }
    if w :| 0 <= w < s.Size() && MeetsAt(s, u, v, w, Largest(bound)) {
      RegionAt(s, dist2, trees, w);
      RadiusShared(s, m, dist2, w, trees[w], LargestIndex(bound), u, v);
      SharesMore(trees[w], u, v, Largest(bound), bound);
    }
  }

  // The radius promised for a distance: six times as much, or 1.
  function Promised(d: real): (bound: real)
    ensures bound >= 1.0
  {
    AtLeastOne(6.0 * d)
  }

  // The walk of a query leads to a node near both ends.
  lemma WalkLeads(s: Space, u: nat, v: nat, m: nat) returns (via: nat)
    requires s.Valid() && s.Metric() && s.TopLevel(m) && u < s.Size() && v < s.Size() && u != v
    ensures via < s.Size() && Reaches(s, u, via) && Reaches(s, v, via) && Near(s, u, v, via, m)
  {
    var k := m + 2;
    AnswerableRunsOutOfNothing(s, k);
    FindsExactly(s, u, v, k);
    var i := FirstStop(s, u, v, k);
    via := Node(s, u, v, i);
    FoundIsReached(s, m, u, v, i);
    WalkStaysNear(s, u, v, i);
    WalkEnds(s, Ends(u, v, i).0, Ends(u, v, i).1, via, i, m);
  }

  lemma FirstStop(s: Space, u: nat, v: nat, k: nat) returns (i: nat)
    requires s.Valid() && u < s.Size() && v < s.Size() && exists j :: 0 <= j < k && Stops(s, u, v, j)
    ensures NoneBefore(s, u, v, i) && Stops(s, u, v, i)
  {
    i := 0;
    while !Stops(s, u, v, i)
      invariant NoneBefore(s, u, v, i) && exists j :: i <= j < k && Stops(s, u, v, j)
      decreases k - i
    {
      i := i + 1;
    }
  }

  ghost predicate ThreeLevels(s: Space) {
    s.Valid() && s.Metric() && forall y :: 0 <= y < s.Size() ==> s.levels[y] <= 2
  }

  // u and v stand at distance d in a system of three levels.
  ghost predicate Apart(s: Space, u: nat, v: nat, d: real) {
    ThreeLevels(s) && u < s.Size() && v < s.Size() && u != v && s.D(u, v) == d
  }

  lemma MeetNear(s: Space, u: nat, v: nat, d: real)
    requires Apart(s, u, v, d) && d >= 0.0 && 3.0 * d <= Largest(Promised(d))
    ensures Meets(s, u, v, Largest(Promised(d)))
  {
    var m := TopLevelExists(s);
    var via := WalkLeads(s, u, v, m);
    TimesMonotone(m + 1, 3, d);
    TimesIsProduct(3, d);
    assert MeetsAt(s, u, v, via, Largest(Promised(d)));
  }

  // Nodes on a line.
  function Gap(x: real, y: real): real {
    if x <= y then y - x else x - y
  }

  ghost function Line(positions: seq<real>, levels: seq<nat>): (s: Space)
    requires |positions| == |levels|
    ensures s.Valid() && s.levels == levels
    ensures forall i, j :: 0 <= i < |levels| && 0 <= j < |levels| ==> s.D(i, j) == Gap(positions[i], positions[j])
  {
    Space(levels, seq(|levels|, i requires 0 <= i < |levels| =>
                    seq(|levels|, j requires 0 <= j < |levels| => Gap(positions[i], positions[j]))))
  }

  lemma LineIsMetric(positions: seq<real>, levels: seq<nat>)
    requires |positions| == |levels|
    ensures Line(positions, levels).Metric()
  {
  }

  // Six nodes on a line at which the promise fails: u and v, for each of them a
  // node of level 1 that is nearer than the other, and for each of these a node of
  // level 2 that is nearer to the other end, and nearly 3d from its own.
  ghost function FarLine(d: real, radius: real): (s: Space)
    ensures s.Valid() && s.Size() == 6
  {
    var e := (3.0 * d - radius) / 4.0;
    Line([d, 0.0, e - d, 2.0 * d - e, 3.0 * d - 2.0 * e, 2.0 * e - 2.0 * d], [0, 0, 1, 1, 2, 2])
  }

  lemma FarLineFails(d: real, radius: real)
    requires d > 0.0 && 1.0 <= radius < 3.0 * d
    ensures Apart(FarLine(d, radius), 0, 1, d) && !Meets(FarLine(d, radius), 0, 1, radius)
  {
    var s := FarLine(d, radius);
    var e := (3.0 * d - radius) / 4.0;
    assert 0.0 < e < d;
    var positions := [d, 0.0, e - d, 2.0 * d - e, 3.0 * d - 2.0 * e, 2.0 * e - 2.0 * d];
    LineIsMetric(positions, [0, 0, 1, 1, 2, 2]);
    forall w | 0 <= w < 6
      ensures !MeetsAt(s, 0, 1, w, radius)
    {
      if w == 0 {
        assert s.D(1, 2) < s.D(1, 0);
      } else if w == 1 {
        assert s.D(0, 3) < s.D(0, 1);
      } else if w == 2 {
        assert s.D(0, 4) < s.D(0, 2);
      } else if w == 3 {
        assert s.D(1, 5) < s.D(1, 3);
      } else if w == 4 {
        assert s.D(4, 1) > radius;
      } else {
        assert s.D(5, 0) > radius;
      }
    }
  }

  lemma LargeEnough(d: real)
    requires d >= 0.0
    ensures 3.0 * d <= Largest(Promised(d)) <==> 3.0 * d <= 16.0 || 5000.0 <= 3.0 * d <= 10000.0
  {
  }

  // With three levels, the promise holds at a distance, in every system and for
  // every two nodes, exactly up to 16/3 and from 5000/3 to 10000/3.
  lemma PromiseExactly(d: real)
    requires d >= 0.0
    ensures (forall s: Space, u: nat, v: nat :: Apart(s, u, v, d) ==> Meets(s, u, v, Largest(Promised(d))))
       <==> 3.0 * d <= 16.0 || 5000.0 <= 3.0 * d <= 10000.0
  {
    LargeEnough(d);
    if 3.0 * d <= Largest(Promised(d)) {
      forall s: Space, u: nat, v: nat | Apart(s, u, v, d)
        ensures Meets(s, u, v, Largest(Promised(d)))
      {
        MeetNear(s, u, v, d);
      }
    } else {
      FarLineFails(d, Largest(Promised(d)));
    }
  }
}
