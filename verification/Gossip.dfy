// gossipregistrationprotocol/protocol.go: the announcement going down a tree
// and the confirmations coming back, with losses, timeouts and any interleaving.

module Gossip {
  import opened Basics
  import opened Values

  // parent[x] for every node but the root, which is node 0; parents come first.
  type Tree = seq<nat>

  ghost predicate IsTree(parent: Tree) {
    parent != [] && forall x :: 0 < x < |parent| ==> parent[x] < x
  }

  predicate IsLeaf(parent: Tree, x: nat) {
    forall y :: x < y < |parent| ==> parent[y] != x
  }

  function Kids(parent: Tree, x: nat): set<nat> {
    set y: nat | x < y < |parent| && parent[y] == x
  }

  // What unblocks a node that waits: the replies of all its children, or time.
  datatype Event = Replies(values: seq<nat>) | TimedOut

  // What a node sends: a reply to its parent, or a value on its own channel.
  datatype Outcome = Outcome(reply: Option<nat>, confirmation: Option<nat>)

  function LeafOutcome(isRoot: bool, conf: nat): Outcome {
    Outcome(if isRoot then None else Some(conf), None)
  }

  function InnerOutcome(isRoot: bool, conf: nat, event: Event): Outcome {
    match event
    case Replies(values) =>
      var total := conf + Sum(values);
      if isRoot then Outcome(None, Some(total)) else Outcome(Some(total), None)
    case TimedOut => Outcome(None, Some(conf))
  }

  function Bit(accepted: bool): nat {
    if accepted then 1 else 0
  }

  // The body of Dispatch. A reply of the root goes nowhere, as it has no parent.
  method Dispatch(isRoot: bool, isLeaf: bool, accepted: bool, event: Event) returns (outcome: Outcome, forwarded: bool)
    ensures forwarded == !isLeaf
    ensures outcome == if isLeaf then LeafOutcome(isRoot, Bit(accepted)) else InnerOutcome(isRoot, Bit(accepted), event)
    ensures outcome.reply.Some? <==> !isRoot && (isLeaf || event.Replies?)
    ensures outcome.confirmation.Some? <==> !isLeaf && (isRoot || event.TimedOut?)
    ensures forall value :: outcome.reply == Some(value) || outcome.confirmation == Some(value) ==>
      value == (if accepted then 1 else 0) + if !isLeaf && event.Replies? then Sum(event.values) else 0
  {
    var nConf := 1;
    if !accepted {
      nConf := 0;
    }
    forwarded := false;
    if isLeaf {
      if !isRoot {
        return Outcome(Some(nConf), None), forwarded;
      }
      return Outcome(None, None), forwarded;
    }
    forwarded := true;
    match event {
      case Replies(values) =>
        ghost var own := nConf;
        for i := 0 to |values|
          invariant nConf == own + Sum(values[..i])
        {
          assert values[..i + 1][..i] == values[..i];
          nConf := nConf + values[i];
        }
        assert values[..|values|] == values;
        if !isRoot {
          return Outcome(Some(nConf), None), forwarded;
        }
        outcome := Outcome(None, Some(nConf));
      case TimedOut =>
        outcome := Outcome(None, Some(nConf));
    }
  }

  datatype Stage = Idle | Waiting(conf: nat) | Finished

  // One run of the protocol: what every node answered to the announcement, where
  // it stands, the messages under way, and the value the root has reported.
  datatype State = State(
    parent: Tree,
    verdict: seq<Option<bool>>,
    stage: seq<Stage>,
    announced: set<nat>,
    replies: map<nat, nat>,
    reported: Option<nat>)

  ghost predicate Shape(s: State) {
    && IsTree(s.parent) && |s.verdict| == |s.stage| == |s.parent|
    && (forall x :: x in s.announced ==> x < |s.parent|)
    && (forall x :: x in s.replies ==> 0 < x < |s.parent|)
  }

  ghost predicate Initial(s: State) {
    && Shape(s) && s.announced == {0} && s.replies == map[] && s.reported == None
    && forall x :: 0 <= x < |s.parent| ==> s.verdict[x] == None && s.stage[x] == Idle
  }

  ghost function Put(s: State, x: nat, outcome: Outcome): State
    requires Shape(s) && x < |s.parent|
  {
    s.(stage := s.stage[x := Finished],
       replies := if outcome.reply.Some? && x > 0 then s.replies[x := outcome.reply.value] else s.replies,
       reported := if outcome.confirmation.Some? && x == 0 then outcome.confirmation else s.reported)
  }

  // x takes the announcement from the network and decides on it.
  ghost predicate Receive(s: State, t: State, x: nat, accepted: bool) {
    CanReceive(s, x) && t == Received(s, x, accepted)
  }

  ghost predicate CanReceive(s: State, x: nat) {
    Shape(s) && x in s.announced && s.stage[x] == Idle
  }

  ghost function Received(s: State, x: nat, accepted: bool): State
    requires CanReceive(s, x)
  {
    var u := s.(announced := s.announced - {x}, verdict := s.verdict[x := Some(accepted)]);
    if IsLeaf(s.parent, x) then Put(u, x, LeafOutcome(x == 0, Bit(accepted)))
    else u.(announced := u.announced + Kids(s.parent, x), stage := s.stage[x := Waiting(Bit(accepted))])
  }

  ghost function KidReplies(s: State, x: nat, from: nat): seq<nat>
    requires forall y :: y in Kids(s.parent, x) ==> y in s.replies
    decreases |s.parent| - from
  {
    if from >= |s.parent| then []
    else if from > x && s.parent[from] == x then [s.replies[from]] + KidReplies(s, x, from + 1)
    else KidReplies(s, x, from + 1)
  }

  // The replies of all children of x have arrived.
  ghost predicate Collect(s: State, t: State, x: nat) {
    CanCollect(s, x) && t == Collected(s, x)
  }

  ghost predicate CanCollect(s: State, x: nat) {
    Shape(s) && x < |s.parent| && s.stage[x].Waiting? && forall y :: y in Kids(s.parent, x) ==> y in s.replies
  }

  ghost function Collected(s: State, x: nat): State
    requires CanCollect(s, x)
  {
    Put(s.(replies := s.replies - Kids(s.parent, x)), x,
        InnerOutcome(x == 0, s.stage[x].conf, Replies(KidReplies(s, x, 0))))
  }

  ghost predicate Expire(s: State, t: State, x: nat) {
    && Shape(s) && x < |s.parent| && s.stage[x].Waiting?
    && t == Put(s, x, InnerOutcome(x == 0, s.stage[x].conf, TimedOut))
  }

  // Any messages under way may be lost.
  ghost predicate Lose(s: State, t: State) {
    && Shape(s) && t.announced <= s.announced && t.replies.Keys <= s.replies.Keys
    && (forall x :: x in t.replies ==> t.replies[x] == s.replies[x])
    && t == s.(announced := t.announced, replies := t.replies)
  }

  ghost predicate Next(s: State, t: State) {
    || (exists x, accepted :: Receive(s, t, x, accepted))
    || (exists x :: Collect(s, t, x))
    || (exists x :: Expire(s, t, x))
    || Lose(s, t)
  }

  function VerdictBit(v: Option<bool>): nat {
    if v == Some(true) then 1 else 0
  }

  // The number of nodes in the subtree of x that have accepted ...
  ghost function Count(parent: Tree, verdict: seq<Option<bool>>, x: nat): nat
    requires |verdict| == |parent| && x < |parent|
    decreases |parent| - x, |parent| + 1
  {
    VerdictBit(verdict[x]) + CountKids(parent, verdict, x, x + 1)
  }

  ghost function CountKids(parent: Tree, verdict: seq<Option<bool>>, x: nat, from: nat): nat
    requires |verdict| == |parent| && x < |parent| && x < from
    decreases |parent| - x, |parent| - from
  {
    if from >= |parent| then 0
    else (if parent[from] == x then Count(parent, verdict, from) else 0) + CountKids(parent, verdict, x, from + 1)
  }

  // ... and whether all of them have decided.
  ghost predicate Decided(parent: Tree, verdict: seq<Option<bool>>, x: nat)
    requires |verdict| == |parent| && x < |parent|
    decreases |parent| - x, |parent| + 1
  {
    verdict[x].Some? && KidsDecided(parent, verdict, x, x + 1)
  }

  ghost predicate KidsDecided(parent: Tree, verdict: seq<Option<bool>>, x: nat, from: nat)
    requires |verdict| == |parent| && x < |parent| && x < from
    decreases |parent| - x, |parent| - from
  {
    from >= |parent| ||
    ((parent[from] == x ==> Decided(parent, verdict, from)) && KidsDecided(parent, verdict, x, from + 1))
  }

  ghost predicate Extends(verdict: seq<Option<bool>>, later: seq<Option<bool>>) {
    |verdict| == |later| && forall x :: 0 <= x < |verdict| && verdict[x].Some? ==> later[x] == verdict[x]
  }

  // A decided subtree keeps its count.
  lemma {:induction false} DecidedIsFinal(parent: Tree, verdict: seq<Option<bool>>, later: seq<Option<bool>>, x: nat)
    requires |verdict| == |parent| && Extends(verdict, later) && x < |parent| && Decided(parent, verdict, x)
    ensures Decided(parent, later, x) && Count(parent, later, x) == Count(parent, verdict, x)
    decreases |parent| - x, |parent| + 1
  {
    KidsDecidedIsFinal(parent, verdict, later, x, x + 1);
  }

  lemma {:induction false} KidsDecidedIsFinal(parent: Tree, verdict: seq<Option<bool>>, later: seq<Option<bool>>,
          x: nat, from: nat)
    requires |verdict| == |parent| && Extends(verdict, later) && x < |parent| && x < from
    requires KidsDecided(parent, verdict, x, from)
    ensures KidsDecided(parent, later, x, from)
    ensures CountKids(parent, later, x, from) == CountKids(parent, verdict, x, from)
    decreases |parent| - x, |parent| - from
  {
    if from < |parent| {
      if parent[from] == x {
        DecidedIsFinal(parent, verdict, later, from);
      }
      KidsDecidedIsFinal(parent, verdict, later, x, from + 1);
    }
  }

  // What every step keeps. A reply under way carries the exact count of a
  // subtree that has decided; so does the value of the root, unless it timed out
  // and reports its own verdict alone.
  ghost predicate Inv(s: State) {
    && Shape(s)
    && (forall x :: 0 <= x < |s.parent| ==> (s.stage[x] == Idle <==> s.verdict[x] == None))
    && (forall x :: 0 <= x < |s.parent| && s.stage[x].Waiting? ==>
      !IsLeaf(s.parent, x) && s.stage[x].conf == VerdictBit(s.verdict[x]))
    && (forall x :: x in s.replies ==> ExactReply(s, x, s.replies[x]))
    && (s.reported.Some? ==> |s.parent| > 1 && s.verdict[0].Some? && ExactReport(s, s.reported.value))
  }

  ghost predicate ExactReply(s: State, x: nat, value: nat)
    requires Shape(s)
  {
    x < |s.parent| && Decided(s.parent, s.verdict, x) && value == Count(s.parent, s.verdict, x)
  }

  ghost predicate ExactReport(s: State, value: nat)
    requires Shape(s)
  {
    value == VerdictBit(s.verdict[0]) || ExactReply(s, 0, value)
  }

  lemma InitialInv(s: State)
    requires Initial(s)
    ensures Inv(s)
  {
  }

  lemma LeafIsExact(s: State, x: nat)
    requires Shape(s) && x < |s.parent| && IsLeaf(s.parent, x) && s.verdict[x].Some?
    ensures ExactReply(s, x, VerdictBit(s.verdict[x]))
  {
    NoKids(s.parent, s.verdict, x, x + 1);
  }

  lemma {:induction false} NoKids(parent: Tree, verdict: seq<Option<bool>>, x: nat, from: nat)
    requires |verdict| == |parent| && x < |parent| && x < from && IsLeaf(parent, x)
    ensures KidsDecided(parent, verdict, x, from) && CountKids(parent, verdict, x, from) == 0
    decreases |parent| - from
  {
    if from < |parent| {
      NoKids(parent, verdict, x, from + 1);
    }
  }

  lemma {:induction false} SumAppendFront(v: nat, vs: seq<nat>)
    ensures Sum([v] + vs) == v + Sum(vs)
  {
    if vs != [] {
      assert ([v] + vs)[..|vs|] == [v] + vs[..|vs| - 1];
      SumAppendFront(v, vs[..|vs| - 1]);
    } else {
      assert [v] + vs == [v] && [v][..0] == [];
      assert Sum([v][..0]) == 0;
    }
  }

  // Exact replies of the children add up to the count of their subtrees.
  lemma {:induction false} KidRepliesAddUp(s: State, x: nat, from: nat)
    requires Inv(s) && x < |s.parent|
    requires forall y :: y in Kids(s.parent, x) ==> y in s.replies
    ensures var start := if from > x then from else x + 1;
            && KidsDecided(s.parent, s.verdict, x, start)
            && Sum(KidReplies(s, x, from)) == CountKids(s.parent, s.verdict, x, start)
    decreases |s.parent| - from
  {
    if from < |s.parent| {
      KidRepliesAddUp(s, x, from + 1);
      if from > x && s.parent[from] == x {
        assert from in Kids(s.parent, x);
        assert ExactReply(s, from, s.replies[from]);
        SumAppendFront(s.replies[from], KidReplies(s, x, from + 1));
      }
    }
  }

  lemma VerdictKeepsInv(s: State, t: State)
    requires Inv(s) && Shape(t) && t.parent == s.parent && Extends(s.verdict, t.verdict)
    ensures forall x :: x in s.replies ==> ExactReply(t, x, s.replies[x])
    ensures s.reported.Some? ==> ExactReport(t, s.reported.value)
  {
    forall x | x in s.replies
      ensures ExactReply(t, x, s.replies[x])
    {
      assert ExactReply(s, x, s.replies[x]);
      DecidedIsFinal(s.parent, s.verdict, t.verdict, x);
    }
    if s.reported.Some? && ExactReply(s, 0, s.reported.value) {
      DecidedIsFinal(s.parent, s.verdict, t.verdict, 0);
    }
  }

  lemma ReceiveKeepsInv(s: State, t: State, x: nat, accepted: bool)
    requires Inv(s) && Receive(s, t, x, accepted)
    ensures Inv(t)
  {
    assert Extends(s.verdict, t.verdict);
    assert Shape(t);
    VerdictKeepsInv(s, t);
    if IsLeaf(s.parent, x) {
      LeafIsExact(t, x);
    }
  }

  lemma CollectKeepsInv(s: State, t: State, x: nat)
    requires Inv(s) && Collect(s, t, x)
    ensures Inv(t)
  {
    KidRepliesAddUp(s, x, 0);
    assert Shape(t) && Extends(s.verdict, t.verdict);
    VerdictKeepsInv(s, t);
    var total := s.stage[x].conf + Sum(KidReplies(s, x, 0));
    assert ExactReply(t, x, total);
  }

  lemma ExpireKeepsInv(s: State, t: State, x: nat)
    requires Inv(s) && Expire(s, t, x)
    ensures Inv(t)
  {
    assert Shape(t) && Extends(s.verdict, t.verdict);
    VerdictKeepsInv(s, t);
  }

  lemma NextKeepsInv(s: State, t: State)
    requires Inv(s) && Next(s, t)
    ensures Inv(t) && t.parent == s.parent && Extends(s.verdict, t.verdict)
  {
    if x, accepted :| Receive(s, t, x, accepted) {
      ReceiveKeepsInv(s, t, x, accepted);
    } else if x :| Collect(s, t, x) {
      CollectKeepsInv(s, t, x);
    } else if x :| Expire(s, t, x) {
      ExpireKeepsInv(s, t, x);
    } else {
      VerdictKeepsInv(s, t);
      assert forall x :: x in t.replies ==> ExactReply(s, x, s.replies[x]);
    }
  }

  ghost predicate IsRun(run: seq<State>) {
    run != [] && Initial(run[0]) && forall i :: 0 <= i < |run| - 1 ==> Next(run[i], run[i + 1])
  }

  lemma {:induction false} RunKeepsInv(run: seq<State>, i: nat)
    requires IsRun(run) && i < |run|
    ensures Inv(run[i]) && run[i].parent == run[0].parent
  {
    if i == 0 {
      InitialInv(run[0]);
    } else {
      RunKeepsInv(run, i - 1);
      assert Next(run[i - 1], run[i - 1 + 1]);
      NextKeepsInv(run[i - 1], run[i]);
    }
  }

  // The number of nodes from some index on that have accepted.
  ghost function Accepts(verdict: seq<Option<bool>>, from: nat): nat
    decreases |verdict| - from
  {
    if from >= |verdict| then 0 else VerdictBit(verdict[from]) + Accepts(verdict, from + 1)
  }

  // The counts of the nodes from some index on whose parent lies below limit.
  ghost function Forest(parent: Tree, verdict: seq<Option<bool>>, limit: nat, from: nat): nat
    requires |verdict| == |parent|
    decreases |parent| - from
  {
    if from >= |parent| then 0
    else (if parent[from] < limit then Count(parent, verdict, from) else 0) + Forest(parent, verdict, limit, from + 1)
  }

  lemma {:induction false} ForestSplit(parent: Tree, verdict: seq<Option<bool>>, limit: nat, from: nat)
    requires |verdict| == |parent| && limit < |parent| && limit < from
    ensures Forest(parent, verdict, limit + 1, from) ==
            Forest(parent, verdict, limit, from) + CountKids(parent, verdict, limit, from)
    decreases |parent| - from
  {
    if from < |parent| {
      ForestSplit(parent, verdict, limit, from + 1);
    }
  }

  lemma {:induction false} ForestCountsAll(parent: Tree, verdict: seq<Option<bool>>, i: nat)
    requires IsTree(parent) && |verdict| == |parent| && 0 < i
    ensures Forest(parent, verdict, i, i) == Accepts(verdict, i)
    decreases |parent| - i
  {
    if i < |parent| {
      ForestSplit(parent, verdict, i, i + 1);
      ForestCountsAll(parent, verdict, i + 1);
    }
  }

  lemma {:induction false} NothingBelowZero(parent: Tree, verdict: seq<Option<bool>>, from: nat)
    requires |verdict| == |parent|
    ensures Forest(parent, verdict, 0, from) == 0
    decreases |parent| - from
  {
    if from < |parent| {
      NothingBelowZero(parent, verdict, from + 1);
    }
  }

  // The subtree of the root is the whole tree.
  lemma RootCountsAll(parent: Tree, verdict: seq<Option<bool>>)
    requires IsTree(parent) && |verdict| == |parent|
    ensures Count(parent, verdict, 0) == Accepts(verdict, 0)
  {
    ForestSplit(parent, verdict, 0, 1);
    NothingBelowZero(parent, verdict, 1);
    ForestCountsAll(parent, verdict, 1);
  }

  lemma {:induction false} AllAccept(verdict: seq<Option<bool>>, from: nat)
    requires from <= |verdict|
    ensures Accepts(verdict, from) <= |verdict| - from
    ensures Accepts(verdict, from) == |verdict| - from ==> forall x :: from <= x < |verdict| ==>
      verdict[x] == Some(true)
    decreases |verdict| - from
  {
    if from < |verdict| {
      AllAccept(verdict, from + 1);
    }
  }

  // Whatever the interleaving, the losses and the timeouts: the value of the
  // root is its own verdict, or the exact number of nodes that have accepted, all
  // of them having decided. Only the latter can be the size of the tree.
  lemma ReportIsExact(s: State)
    requires Inv(s) && s.reported.Some?
    ensures s.reported.value == VerdictBit(s.verdict[0]) ||
            (s.reported.value == Accepts(s.verdict, 0) && Decided(s.parent, s.verdict, 0))
    ensures s.reported.value == |s.parent| ==> forall x :: 0 <= x < |s.parent| ==> s.verdict[x] == Some(true)
  {
    RootCountsAll(s.parent, s.verdict);
    AllAccept(s.verdict, 0);
  }

  lemma GossipExactness(run: seq<State>)
    requires IsRun(run)
    ensures var s := run[|run| - 1];
            && Inv(s)
            && (forall x :: x in s.replies ==> ExactReply(s, x, s.replies[x]))
            && (s.reported.Some? && s.reported.value == |s.parent| ==>
                forall x :: 0 <= x < |s.parent| ==> s.verdict[x] == Some(true))
  {
    RunKeepsInv(run, |run| - 1);
    var s := run[|run| - 1];
    if s.reported.Some? {
      ReportIsExact(s);
    }
  }

  // A leaf other than the root replies with its own verdict, and the root alone
  // with nothing; every other node passes the announcement on and waits.
  lemma ReceiveSends(s: State, t: State, x: nat, accepted: bool)
    requires Receive(s, t, x, accepted)
    ensures t.reported == s.reported && t.verdict == s.verdict[x := Some(accepted)]
    ensures IsLeaf(s.parent, x) ==>
      && t.announced == s.announced - {x} && t.stage[x].Finished?
      && t.replies == if x == 0 then s.replies else s.replies[x := if accepted then 1 else 0]
    ensures !IsLeaf(s.parent, x) ==>
      && t.announced == s.announced - {x} + Kids(s.parent, x) && t.stage[x].Waiting? && t.replies == s.replies
  {
  }

  // With the replies of all its children, a node other than the root replies with
  // the count of its subtree ...
  lemma CollectReplies(s: State, t: State, x: nat)
    requires Inv(s) && Collect(s, t, x) && x > 0
    ensures x in t.replies && t.replies[x] == Count(t.parent, t.verdict, x) && t.reported == s.reported
    ensures t.replies.Keys == s.replies.Keys - Kids(s.parent, x) + {x}
  {
    KidRepliesAddUp(s, x, 0);
    assert s.stage[x].conf == VerdictBit(s.verdict[x]);
    assert x !in Kids(s.parent, x);
  }

  // ... and the root reports how many nodes have accepted, all having decided.
  lemma CollectReports(s: State, t: State)
    requires Inv(s) && Collect(s, t, 0)
    ensures t.reported == Some(Accepts(t.verdict, 0)) && ExactReply(t, 0, t.reported.value)
  {
    KidRepliesAddUp(s, 0, 0);
    RootCountsAll(s.parent, s.verdict);
    assert s.stage[0].conf == VerdictBit(s.verdict[0]);
  }

  // When time is up, a node sends no reply, and the root reports its own verdict.
  lemma ExpireSends(s: State, t: State, x: nat)
    requires Inv(s) && Expire(s, t, x)
    ensures t.replies == s.replies && t.stage[x].Finished?
    ensures t.reported == if x > 0 then s.reported else Some(if s.verdict[0] == Some(true) then 1 else 0)
  {
    assert s.stage[x].conf == VerdictBit(s.verdict[x]);
  }

  // Only when all replies are in, or time is up, does the root report, and only in
  // the second case its own verdict alone.
  lemma ReportArises(s: State, t: State)
    requires Inv(s) && Next(s, t) && t.reported != s.reported
    ensures (Collect(s, t, 0) && t.reported == Some(Accepts(t.verdict, 0)))
         || (Expire(s, t, 0) && t.reported == Some(if s.verdict[0] == Some(true) then 1 else 0))
  {
    if x, accepted :| Receive(s, t, x, accepted) {
      ReceiveSends(s, t, x, accepted);
    } else if x :| Collect(s, t, x) {
      if x == 0 {
        CollectReports(s, t);
      }
    } else if x :| Expire(s, t, x) {
      ExpireSends(s, t, x);
    }
  }

  // A step without loss or timeout.
  ghost predicate SmoothNext(s: State, t: State) {
    (exists x, accepted :: Receive(s, t, x, accepted)) || (exists x :: Collect(s, t, x))
  }

  // What such steps keep: no message is missing.
  ghost predicate Complete(s: State) {
    Inv(s) && NoneMissed(s) && NoneUnheard(s) && RootHasReported(s)
  }

  // A node that is idle although its parent is not has the announcement coming.
  ghost predicate NoneMissed(s: State)
    requires Shape(s)
  {
    forall x :: 0 <= x < |s.parent| && s.stage[x] == Idle && (x == 0 || s.stage[s.parent[x]] != Idle) ==>
      x in s.announced
  }

  // The reply of a node that has finished is under way until its parent finishes.
  ghost predicate NoneUnheard(s: State)
    requires Shape(s)
  {
    forall x :: 0 < x < |s.parent| && s.stage[x].Finished? ==> x in s.replies || s.stage[s.parent[x]].Finished?
  }

  ghost predicate RootHasReported(s: State)
    requires Shape(s)
  {
    s.stage[0].Finished? && |s.parent| > 1 ==> s.reported.Some? && ExactReply(s, 0, s.reported.value)
  }

  lemma InitialComplete(s: State)
    requires Initial(s)
    ensures Complete(s)
  {
    InitialInv(s);
  }

  lemma ReceiveMissesNone(s: State, t: State, x: nat, accepted: bool)
    requires Shape(s) && NoneMissed(s) && Receive(s, t, x, accepted)
    ensures NoneMissed(t)
  {
    forall y | 0 <= y < |t.parent| && t.stage[y] == Idle && (y == 0 || t.stage[t.parent[y]] != Idle)
      ensures y in t.announced
    {
      if y > 0 && s.parent[y] == x {
        assert y in Kids(s.parent, x);
      }
    }
  }

  lemma ReceiveLosesNone(s: State, t: State, x: nat, accepted: bool)
    requires Inv(s) && NoneUnheard(s) && RootHasReported(s) && Receive(s, t, x, accepted)
    ensures NoneUnheard(t) && RootHasReported(t)
  {
    assert Extends(s.verdict, t.verdict);
    ReceiveSends(s, t, x, accepted);
    if t.stage[0].Finished? && |t.parent| > 1 {
      assert s.parent[1] == 0;
      DecidedIsFinal(s.parent, s.verdict, t.verdict, 0);
    }
  }

  lemma ReceiveKeepsComplete(s: State, t: State, x: nat, accepted: bool)
    requires Complete(s) && Receive(s, t, x, accepted)
    ensures Complete(t)
  {
    ReceiveKeepsInv(s, t, x, accepted);
    ReceiveMissesNone(s, t, x, accepted);
    ReceiveLosesNone(s, t, x, accepted);
  }

  lemma CollectKeepsComplete(s: State, t: State, x: nat)
    requires Complete(s) && Collect(s, t, x)
    ensures Complete(t)
  {
    CollectKeepsInv(s, t, x);
    if x == 0 {
      CollectReports(s, t);
    }
    forall y | 0 < y < |t.parent| && t.stage[y].Finished?
      ensures y in t.replies || t.stage[t.parent[y]].Finished?
    {
      assert y in Kids(s.parent, x) <==> s.parent[y] == x;
    }
  }

  // No message can be received, and no node has all replies.
  ghost predicate Quiet(s: State) {
    !exists t :: SmoothNext(s, t)
  }

  lemma {:induction false} NoneIdle(s: State, x: nat)
    requires Complete(s) && Quiet(s) && x < |s.parent|
    ensures s.stage[x] != Idle
  {
    if x > 0 {
      NoneIdle(s, s.parent[x]);
    }
    if s.stage[x] == Idle {
      assert CanReceive(s, x);
      assert Receive(s, Received(s, x, true), x, true);
      assert SmoothNext(s, Received(s, x, true));
    }
  }

  lemma {:induction false} AllFinished(s: State, x: nat)
    requires Complete(s) && Quiet(s) && x < |s.parent|
    ensures s.stage[x].Finished?
    decreases |s.parent| - x
  {
    NoneIdle(s, x);
    forall y | y in Kids(s.parent, x)
      ensures s.stage[y].Finished?
    {
      AllFinished(s, y);
    }
    if s.stage[x].Waiting? {
      assert CanCollect(s, x);
      assert Collect(s, Collected(s, x), x);
      assert SmoothNext(s, Collected(s, x));
    }
  }

  ghost predicate AllAccepted(verdict: seq<Option<bool>>) {
    forall x :: 0 <= x < |verdict| ==> verdict[x] == Some(true)
  }

  lemma {:induction false} AcceptsAll(verdict: seq<Option<bool>>, from: nat)
    requires from <= |verdict| && forall x :: from <= x < |verdict| ==> verdict[x] == Some(true)
    ensures Accepts(verdict, from) == |verdict| - from
    decreases |verdict| - from
  {
    if from < |verdict| {
      AcceptsAll(verdict, from + 1);
    }
  }

  // Where nothing is lost and no time runs out, the end of the protocol is that
  // every node has decided and the root has reported how many have accepted: the
  // size of the tree exactly when all have. A root without children reports nothing.
  lemma CompleteEnds(s: State)
    requires Complete(s) && Quiet(s)
    ensures forall x :: 0 <= x < |s.parent| ==> s.verdict[x].Some?
    ensures if |s.parent| > 1 then s.reported == Some(Accepts(s.verdict, 0)) else s.reported == None
    ensures |s.parent| > 1 ==> (s.reported == Some(|s.parent|) <==> AllAccepted(s.verdict))
  {
    forall x | 0 <= x < |s.parent|
      ensures s.verdict[x].Some?
    {
      NoneIdle(s, x);
    }
    AllFinished(s, 0);
    RootCountsAll(s.parent, s.verdict);
    AllAccept(s.verdict, 0);
    if AllAccepted(s.verdict) {
      AcceptsAll(s.verdict, 0);
    }
  }

  // The steps that a run without loss or timeout has left, at most.
  ghost function Work(stage: seq<Stage>): nat {
    if stage == [] then 0
    else Work(stage[..|stage| - 1]) + match stage[|stage| - 1] case Idle => 2 case Waiting(_) => 1 case Finished => 0
  }

  lemma {:induction false} WorkDone(stage: seq<Stage>, x: nat, now: Stage)
    requires x < |stage|
    requires (stage[x].Idle? && !now.Idle?) || (stage[x].Waiting? && now.Finished?)
    ensures Work(stage[x := now]) < Work(stage)
  {
    var last := |stage| - 1;
    if x < last {
      assert stage[x := now][..last] == stage[..last][x := now];
      WorkDone(stage[..last], x, now);
    } else {
      assert stage[x := now][..last] == stage[..last];
    }
  }

  lemma {:induction false} WorkAtFirst(stage: seq<Stage>)
    requires forall x :: 0 <= x < |stage| ==> stage[x] == Idle
    ensures Work(stage) == 2 * |stage|
  {
    if stage != [] {
      WorkAtFirst(stage[..|stage| - 1]);
    }
  }

  lemma ReceiveWorks(s: State, t: State, x: nat, accepted: bool)
    requires Receive(s, t, x, accepted)
    ensures t.parent == s.parent && Work(t.stage) < Work(s.stage)
  {
    assert t.stage == s.stage[x := t.stage[x]];
    WorkDone(s.stage, x, t.stage[x]);
  }

  lemma CollectWorks(s: State, t: State, x: nat)
    requires Collect(s, t, x)
    ensures t.parent == s.parent && Work(t.stage) < Work(s.stage)
  {
    WorkDone(s.stage, x, Finished);
  }

  lemma SmoothKeeps(s: State, t: State)
    requires Complete(s) && SmoothNext(s, t)
    ensures Complete(t) && t.parent == s.parent && Work(t.stage) < Work(s.stage)
  {
    if x, accepted :| Receive(s, t, x, accepted) {
      ReceiveKeepsComplete(s, t, x, accepted);
      ReceiveWorks(s, t, x, accepted);
    } else {
      var x: nat :| Collect(s, t, x);
      CollectKeepsComplete(s, t, x);
      CollectWorks(s, t, x);
    }
  }

  ghost predicate IsSmoothRun(run: seq<State>) {
    run != [] && Initial(run[0]) && forall i :: 0 <= i < |run| - 1 ==> SmoothNext(run[i], run[i + 1])
  }

  lemma {:induction false} SmoothRunKeeps(run: seq<State>, i: nat)
    requires IsSmoothRun(run) && i < |run|
    ensures Complete(run[i]) && run[i].parent == run[0].parent
    ensures Work(run[i].stage) + i <= 2 * |run[0].parent|
  {
    if i == 0 {
      InitialComplete(run[0]);
      WorkAtFirst(run[0].stage);
    } else {
      SmoothRunKeeps(run, i - 1);
      assert SmoothNext(run[i - 1], run[i - 1 + 1]);
      SmoothKeeps(run[i - 1], run[i]);
    }
  }

  // Such a run comes to its end within two steps for each node, and the root then
  // has reported the number of acceptances: the size of the tree exactly when all
  // have accepted.
  lemma SmoothRunReports(run: seq<State>)
    requires IsSmoothRun(run)
    ensures |run| <= 2 * |run[0].parent| + 1 && ReportsAtEnd(run[|run| - 1])
  {
    SmoothRunKeeps(run, |run| - 1);
    CompleteReports(run[|run| - 1]);
  }

  ghost predicate ReportsAtEnd(s: State) {
    Quiet(s) && |s.parent| > 1 ==>
      && s.reported == Some(Accepts(s.verdict, 0))
      && (s.reported == Some(|s.parent|) <==> AllAccepted(s.verdict))
  }

  lemma CompleteReports(s: State)
    requires Complete(s)
    ensures ReportsAtEnd(s)
  {
    if Quiet(s) {
      CompleteEnds(s);
    }
  }
}
