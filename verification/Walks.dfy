// gentree/Save.go: the walk over the pivots that a query makes, by the levels and
// distances alone, and exactly when it runs out of rows.

module Walks {
  import opened Values
  import opened Spaces
  import opened LocalityGraph

  // x belongs to the region around w.
  ghost predicate Reaches(s: Space, x: nat, w: nat)
    requires s.Valid() && x < s.Size() && w < s.Size()
  {
    x == w || s.InBunch(x, w)
  }

  // The two ends change roles at every step.
  function Ends(u: nat, v: nat, i: nat): (r: (nat, nat))
    ensures r == (u, v) || r == (v, u)
  {
    if i == 0 then (u, v) else (Ends(u, v, i - 1).1, Ends(u, v, i - 1).0)
  }

  // u itself at first, its level-i pivot after i steps.
  ghost predicate StepOf(s: Space, u: nat, w: nat, i: nat)
    requires s.Valid() && u < s.Size()
  {
    if i == 0 then w == u else s.IsPivot(u, i, w)
  }

  lemma PivotUnique(s: Space, v: nat, i: nat, p: nat, q: nat)
    requires s.Valid() && v < s.Size() && s.IsPivot(v, i, p) && s.IsPivot(v, i, q)
    ensures p == q
  {
    assert s.D(v, p) <= s.D(v, q) && s.D(v, q) <= s.D(v, p);
  }

  // The level-i pivot exists where the level is in use.
  lemma PivotExists(s: Space, v: nat, i: nat) returns (p: nat)
    requires s.Valid() && v < s.Size() && exists y :: 0 <= y < s.Size() && s.levels[y] >= i
    ensures s.IsPivot(v, i, p)
  {
    var node: Option<nat>, min := None, Max;
    for y := 0 to s.Size()
      invariant NearestSoFar(s, v, i, y, node, min)
    {
      if s.levels[y] >= i && Finite(s.D(v, y)).Below(min) {
        node, min := Some(y), Finite(s.D(v, y));
      }
    }
    p := node.value;
  }

  // The node w after i steps. A row without a pivot leaves it as it is.
  ghost function Node(s: Space, u: nat, v: nat, i: nat): (w: nat)
    requires s.Valid() && u < s.Size() && v < s.Size()
    ensures w < s.Size()
  {
    if i == 0 then u
    else if exists p: nat :: s.IsPivot(Ends(u, v, i).0, i, p) then
      var p: nat :| s.IsPivot(Ends(u, v, i).0, i, p);
      p
    else Node(s, u, v, i - 1)
  }

  lemma NodeFromRow(s: Space, u: nat, v: nat, i: nat, next: Option<nat>, a: Length)
    requires s.Valid() && u < s.Size() && v < s.Size() && i > 0 && s.PivotEntry(Ends(u, v, i).0, i, next, a)
    ensures Node(s, u, v, i) == if next.Some? then next.value else Node(s, u, v, i - 1)
  {
    if next.Some? {
      PivotUnique(s, Ends(u, v, i).0, i, next.value, Node(s, u, v, i));
    }
  }

  // The walk finds its node at step i.
  ghost predicate Stops(s: Space, u: nat, v: nat, i: nat)
    requires s.Valid() && u < s.Size() && v < s.Size()
  {
    s.InBunch(Ends(u, v, i).1, Node(s, u, v, i))
  }

  ghost predicate NoneBefore(s: Space, u: nat, v: nat, i: nat)
    requires s.Valid() && u < s.Size() && v < s.Size()
  {
    forall j :: 0 <= j < i ==> !Stops(s, u, v, j)
  }

  // As long as it has not found its node, the walk is at a pivot. Where a level is
  // not in use it stays, and has found its node.
  lemma {:induction false} AtAPivot(s: Space, u: nat, v: nat, i: nat)
    requires s.Valid() && u < s.Size() && v < s.Size() && u != v && NoneBefore(s, u, v, i)
    ensures StepOf(s, Ends(u, v, i).0, Node(s, u, v, i), i) ||
            (i > 0 && Stops(s, u, v, i) && Node(s, u, v, i) == Ends(u, v, i).0
             && StepOf(s, Ends(u, v, i - 1).0, Node(s, u, v, i), i - 1))
  {
    if i > 0 {
      AtAPivot(s, u, v, i - 1);
      assert !Stops(s, u, v, i - 1);
      var (a, b) := Ends(u, v, i - 1);
      var w := Node(s, u, v, i - 1);
      if exists y :: 0 <= y < s.Size() && s.levels[y] >= i {
        var p := PivotExists(s, b, i);
      } else {
        LevelOfStep(s, a, w, i - 1);
        assert w == b;
        PivotInBunch(s, a, i - 1, w);
      }
    }
  }

  lemma LevelOfStep(s: Space, a: nat, w: nat, i: nat)
    requires s.Valid() && a < s.Size() && StepOf(s, a, w, i)
    ensures w < s.Size() && s.levels[w] >= i
  {
  }

  // The way a query from u to v exhausts k rows: the level-(k-1) pivot of u is v
  // itself, which is not in its own bunch; u is not in the bunch of v; and no pivot
  // in between, of v and of u in turn, is in the bunch of the other.
  ghost predicate RunsOut(s: Space, u: nat, v: nat, k: nat)
    requires s.Valid() && u < s.Size() && v < s.Size()
  {
    && u != v && k >= 2 && k % 2 == 1 && s.IsPivot(u, k - 1, v) && !s.InBunch(v, u)
    && forall i :: 1 <= i < k - 1 ==> Passed(s, Ends(u, v, i).0, Ends(u, v, i).1, i)
  }

  ghost predicate Passed(s: Space, a: nat, b: nat, i: nat)
    requires s.Valid() && a < s.Size() && b < s.Size()
  {
    exists p :: s.IsPivot(a, i, p) && !s.InBunch(b, p)
  }

  lemma {:induction false} EndsAlternate(u: nat, v: nat, i: nat)
    ensures Ends(u, v, i) == if i % 2 == 0 then (u, v) else (v, u)
  {
    if i > 0 {
      EndsAlternate(u, v, i - 1);
    }
  }

  lemma StillAtAPivot(s: Space, u: nat, v: nat, i: nat)
    requires s.Valid() && u < s.Size() && v < s.Size() && u != v && NoneBefore(s, u, v, i) && !Stops(s, u, v, i)
    ensures StepOf(s, Ends(u, v, i).0, Node(s, u, v, i), i)
  {
    AtAPivot(s, u, v, i);
  }

  // A pivot of the highest level is in the bunch of the other end, or is it.
  lemma OnlyTheEnd(s: Space, b: nat, w: nat, k: nat)
    requires s.Valid() && b < s.Size() && w < s.Size() && Below(s, k) && s.levels[w] >= k - 1 && !s.InBunch(b, w)
    ensures w == b
  {
  }

  // A walk that finds nothing in its rows runs out of them.
  lemma NothingFound(s: Space, u: nat, v: nat, k: nat)
    requires s.Valid() && u < s.Size() && v < s.Size() && u != v && k >= 2 && Below(s, k)
    requires NoneBefore(s, u, v, k)
    ensures RunsOut(s, u, v, k)
  {
    var (a, b) := Ends(u, v, k - 1);
    var w := Node(s, u, v, k - 1);
    assert !Stops(s, u, v, 0) && !Stops(s, u, v, k - 1);
    StillAtAPivot(s, u, v, k - 1);
    LevelOfStep(s, a, w, k - 1);
    OnlyTheEnd(s, b, w, k);
    PivotInBunch(s, a, k - 1, w);
    EndsAlternate(u, v, k - 1);
    forall i | 1 <= i < k - 1
      ensures Passed(s, Ends(u, v, i).0, Ends(u, v, i).1, i)
    {
      assert !Stops(s, u, v, i);
      StillAtAPivot(s, u, v, i);
    }
  }

  lemma RunsOutOfRows(s: Space, u: nat, v: nat, k: nat, i: nat)
    requires s.Valid() && u < s.Size() && v < s.Size() && RunsOut(s, u, v, k) && i < k
    ensures !Stops(s, u, v, i)
  {
    EndsAlternate(u, v, i);
    var (a, b) := Ends(u, v, i);
    var w := Node(s, u, v, i);
    if i == k - 1 {
      PivotUnique(s, u, i, v, w);
    } else if i > 0 {
      assert Passed(s, a, b, i);
      var p :| s.IsPivot(a, i, p) && !s.InBunch(b, p);
      PivotUnique(s, a, i, p, w);
    }
  }

  // Whatever the distances: a query finds its node within k rows exactly when it
  // does not exhaust them in that way.
  lemma FindsExactly(s: Space, u: nat, v: nat, k: nat)
    requires s.Valid() && u < s.Size() && v < s.Size() && u != v && k >= 2 && Below(s, k)
    ensures (exists i :: 0 <= i < k && Stops(s, u, v, i)) <==> !RunsOut(s, u, v, k)
  {
    if RunsOut(s, u, v, k) {
      forall i | 0 <= i < k
        ensures !Stops(s, u, v, i)
      {
        RunsOutOfRows(s, u, v, k, i);
      }
    } else if NoneBefore(s, u, v, k) {
      NothingFound(s, u, v, k);
    }
  }

  // With the three levels in use: v is the nearest node of level 2 to u, without u
  // in its bunch, and its own pivot at level 1 is not in the bunch of u.
  lemma RunsOutOfThree(s: Space, u: nat, v: nat)
    requires s.Valid() && u < s.Size() && v < s.Size()
    ensures RunsOut(s, u, v, 3) <==>
            u != v && s.IsPivot(u, 2, v) && !s.InBunch(v, u) && exists p :: s.IsPivot(v, 1, p) && !s.InBunch(u, p)
  {
    EndsAlternate(u, v, 1);
    assert Passed(s, v, u, 1) <==> exists p :: s.IsPivot(v, 1, p) && !s.InBunch(u, p);
  }

  // No query exhausts the rows.
  ghost predicate NoneRunsOut(s: Space, k: nat)
    requires s.Valid()
  {
    forall u, v :: 0 <= u < s.Size() && 0 <= v < s.Size() ==> !RunsOut(s, u, v, k)
  }

  // The last pivot but one is in the bunch of the other end, or it is that end.
  lemma LastPivotButOne(s: Space, u: nat, v: nat, k: nat, p: nat)
    requires s.Valid() && s.Answerable() && u < s.Size() && v < s.Size() && u != v && k >= 3
    requires s.IsPivot(u, k - 1, v) && s.IsPivot(v, k - 2, p)
    ensures s.InBunch(u, p) || s.InBunch(v, u)
  {
    PivotInBunch(s, u, k - 1, v);
    if s.OwnPivots() {
      OwnPivot(s, v, k - 2, p);
    } else {
      assert s.D(v, p) <= s.D(v, v) == 0.0;
      assert s.D(u, p) <= s.D(u, v) + s.D(v, p);
      if p == u {
        assert s.D(v, u) <= 0.0;
        NothingBelowZero(s, v, u);
      }
    }
  }

  lemma NothingBelowZero(s: Space, v: nat, u: nat)
    requires s.Valid() && s.Metric() && u < s.Size() && v < s.Size() && u != v && s.D(v, u) <= 0.0
    ensures s.InBunch(v, u)
  {
    forall y | 0 <= y < s.Size() && s.levels[y] > s.levels[u]
      ensures s.D(v, u) <= s.D(v, y)
    {
      DistanceNotNegative(s, v, y);
    }
  }

  lemma LastPassed(s: Space, u: nat, v: nat, k: nat) returns (p: nat)
    requires s.Valid() && u < s.Size() && v < s.Size() && RunsOut(s, u, v, k)
    ensures k >= 3 && s.IsPivot(v, k - 2, p) && !s.InBunch(u, p)
  {
    EndsAlternate(u, v, k - 2);
    assert Passed(s, v, u, k - 2);
    p :| s.IsPivot(v, k - 2, p) && !s.InBunch(u, p);
  }

  // None does over a metric, nor where high nodes are their own pivots, nor with an
  // even number of levels.
  lemma AnswerableRunsOutOfNothing(s: Space, k: nat)
    requires s.Valid() && (s.Answerable() || k % 2 == 0)
    ensures NoneRunsOut(s, k)
  {
    forall u, v | 0 <= u < s.Size() && 0 <= v < s.Size() && k % 2 == 1
      ensures !RunsOut(s, u, v, k)
    {
      if RunsOut(s, u, v, k) {
        var p := LastPassed(s, u, v, k);
        LastPivotButOne(s, u, v, k, p);
      }
    }
  }

  // Over a metric the walk is never at the end it looks from, and stays near.
  ghost predicate Walking(s: Space, u: nat, v: nat, w: nat, i: nat)
    requires s.Valid() && u < s.Size() && v < s.Size()
  {
    && u != v && w != v && StepOf(s, u, w, i)
    && s.D(w, u) <= Times(i, s.D(u, v))
  }

  lemma WalkStarts(s: Space, u: nat, v: nat)
    requires s.Valid() && s.Metric() && u < s.Size() && v < s.Size() && u != v
    ensures Walking(s, u, v, u, 0)
  {
    assert s.D(u, u) == 0.0;
  }

  // The next pivot is not the node the walk would then start from.
  lemma NotBackAtStart(s: Space, u: nat, v: nat, w: nat, i: nat, p: nat)
    requires s.Valid() && s.Metric() && u < s.Size() && v < s.Size()
    requires i > 0 && s.IsPivot(u, i, w) && s.IsPivot(v, i + 1, p) && w != v && u != v && !s.InBunch(v, w)
    ensures p != u
  {
    var y :| 0 <= y < s.Size() && s.levels[y] > s.levels[w] && s.D(v, y) < s.D(v, w);
    assert s.D(v, p) <= s.D(v, y);
    assert s.D(v, w) <= s.D(v, u) + s.D(u, w);
    assert s.levels[u] >= i ==> s.D(u, w) <= s.D(u, u) == 0.0;
  }

  // When w is not in the bunch of v, the next level is occupied, v has a pivot
  // there, and that pivot continues the walk with the roles of u and v swapped.
  lemma WalkContinues(s: Space, u: nat, v: nat, w: nat, i: nat, next: Option<nat>, a: Length)
    requires s.Valid() && s.Metric() && u < s.Size() && v < s.Size()
    requires Walking(s, u, v, w, i) && !s.InBunch(v, w)
    requires s.PivotEntry(v, i + 1, next, a)
    ensures exists y :: 0 <= y < s.Size() && s.levels[y] >= i + 1
    ensures next.Some? && Walking(s, v, u, next.value, i + 1)
  {
    var y :| 0 <= y < s.Size() && s.levels[y] > s.levels[w] && s.D(v, y) < s.D(v, w);
    assert s.levels[y] >= i + 1;
    var p := next.value;
    PivotInBunch(s, v, i + 1, p);
    if p == u && i > 0 {
      NotBackAtStart(s, u, v, w, i, p);
    }
    var delta := s.D(u, v);
    assert s.D(v, p) <= s.D(v, y);
    assert s.D(v, w) <= s.D(v, u) + s.D(u, w);
    assert s.D(p, v) == s.D(v, p) && s.D(u, w) == s.D(w, u) && s.D(v, u) == delta;
  }

  lemma NextIsNear(s: Space, u: nat, v: nat, w: nat, i: nat) returns (p: nat)
    requires s.Valid() && s.Metric() && u < s.Size() && v < s.Size()
    requires Walking(s, u, v, w, i) && !s.InBunch(v, w)
    ensures s.IsPivot(v, i + 1, p) && Walking(s, v, u, p, i + 1)
  {
    assert exists y :: 0 <= y < s.Size() && s.levels[y] >= i + 1 by {
      var y :| 0 <= y < s.Size() && s.levels[y] > s.levels[w];
    }
    p := PivotExists(s, v, i + 1);
    WalkContinues(s, u, v, w, i, Some(p), Finite(s.D(v, p)));
  }

  lemma {:induction false} WalkStaysNear(s: Space, u: nat, v: nat, i: nat)
    requires s.Valid() && s.Metric() && u < s.Size() && v < s.Size() && u != v && NoneBefore(s, u, v, i)
    ensures Walking(s, Ends(u, v, i).0, Ends(u, v, i).1, Node(s, u, v, i), i)
  {
    if i == 0 {
      WalkStarts(s, u, v);
    } else {
      WalkStaysNear(s, u, v, i - 1);
      assert !Stops(s, u, v, i - 1);
      var (a, b) := Ends(u, v, i - 1);
      var p := NextIsNear(s, a, b, Node(s, u, v, i - 1), i - 1);
      NodeFromRow(s, u, v, i, Some(p), Finite(s.D(b, p)));
    }
  }

  // How close the via node is to both ends, in multiples of their distance.
  ghost predicate Near(s: Space, u: nat, v: nat, via: nat, m: nat)
    requires s.Valid() && u < s.Size() && v < s.Size() && via < s.Size()
  {
    && s.D(via, u) + s.D(via, v) <= Times(2 * m + 1, s.D(u, v))
    && s.D(via, u) <= Times(m + 1, s.D(u, v))
    && s.D(via, v) <= Times(m + 1, s.D(u, v))
  }

  // Where the walk stops, the via node is near both ends.
  lemma WalkEnds(s: Space, u: nat, v: nat, w: nat, i: nat, m: nat)
    requires s.Valid() && s.Metric() && u < s.Size() && v < s.Size() && s.TopLevel(m)
    requires Walking(s, u, v, w, i)
    ensures Near(s, u, v, w, m) && Near(s, v, u, w, m)
  {
    var delta := s.D(u, v);
    assert i <= s.levels[w] <= m;
    assert s.D(w, v) <= s.D(w, u) + delta && s.D(v, u) == delta;
    TimesMonotone(i, m, delta);
    TimesTwice(m, delta);
  }
}
