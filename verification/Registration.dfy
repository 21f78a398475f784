// membershipchainservice/service.go: CreateProofForEpoch over many servers. Any
// number of registrations gossip at the same time; every delivery of an
// announcement calls addSigner at the server it reaches.

module Registration {
  import opened Values
  import opened SignerStorage
  import G = Gossip

  // What a server knows: signer sets, its epoch, and whom it has heard of.
  datatype Server = Server(signers: seq<SignersSet>, e: int, known: set<ServerID>)

  // The roster CreateProofForEpoch gathers for epoch e, if it gets that far: the
  // signers of epoch e - 1, and the caller itself.
  function RosterFor(server: Server, self: ServerID, e: int): Option<set<ServerID>> {
    if server.e != e - 1 then None
    else if !(0 <= e - 1 < |server.signers|) then None
    else
      var members := server.signers[e - 1].Keys;
      if !(members <= server.known) then None
      else if members == {} then None
      else Some(members + {self})
  }

  // The part of CreateProofForEpoch that gathers the roster: a signer that is not
  // known among the servers makes the call fail.
  method GatherRoster(server: Server, self: ServerID, e: int) returns (roster: Option<set<ServerID>>)
    ensures roster == RosterFor(server, self, e)
    ensures roster.Some? <==>
      && server.e == e - 1 && 0 <= e - 1 < |server.signers| && server.signers[e - 1] != map[]
      && forall id :: id in server.signers[e - 1] ==> id in server.known
    ensures roster.Some? ==> roster.value == server.signers[e - 1].Keys + {self}
  {
    if server.e != e - 1 {
      return None;
    }
    if |server.signers| <= e - 1 || e - 1 < 0 {
      return None;
    }
    var signers := server.signers[e - 1];
    var ids, members: set<ServerID> := signers.Keys, {};
    while ids != {}
      invariant ids <= signers.Keys && members == signers.Keys - ids && members <= server.known
      decreases ids
    {
      var id :| id in ids;
      if id !in server.known {
        return None;
      }
      members := members + {id};
      ids := ids - {id};
    }
    if |members| == 0 {
      return None;
    }
    if self !in signers {
      members := members + {self};
    }
    assert members == signers.Keys + {self};
    return Some(members);
  }

  // What a server needs to go on to register for epoch e: to be in the epoch before,
  // and a set of signers of that epoch, not empty, all of whom it knows.
  ghost predicate CanGather(server: Server, e: int) {
    && server.e == e - 1 && 0 <= e - 1 < |server.signers| && server.signers[e - 1] != map[]
    && forall id :: id in server.signers[e - 1] ==> id in server.known
  }

  lemma RosterExactly(server: Server, self: ServerID, e: int)
    ensures RosterFor(server, self, e).Some? <==> CanGather(server, e)
    ensures CanGather(server, e) ==>
      forall id :: id in RosterFor(server, self, e).value <==> id in server.signers[e - 1] || id == self
  {
    if 0 <= e - 1 < |server.signers| {
      assert server.signers[e - 1] == map[] <==> server.signers[e - 1].Keys == {};
    }
  }

  // One registration: members[x] is the server at node x of the gossip tree, epoch
  // the epoch asked for, and announced the one put into the announcement.
  datatype Session = Session(
    caller: ServerID,
    epoch: int,
    announced: Option<int>,
    proof: Proof,
    roster: set<ServerID>,
    members: seq<ServerID>,
    gossip: G.State)

  datatype System = System(now: int, guard: Guard, servers: map<ServerID, Server>, sessions: seq<Session>)

  ghost predicate Holds(s: System, id: ServerID, signer: ServerID, e: int) {
    id in s.servers && signer in SetAt(s.servers[id].signers, e)
  }

  // A server starts to register: its roster is gathered and its proof requested.
  ghost predicate Begin(s: System, t: System, id: ServerID, session: Session) {
    && id in s.servers && session.caller == id
    && RosterFor(s.servers[id], id, session.epoch) == Some(session.roster)
    && session.announced == None && G.Initial(session.gossip) && |session.gossip.parent| == |session.members|
    && (forall m :: m in session.members <==> m in session.roster)
    && |session.members| == |session.roster| && session.members[0] == id
    && t == s.(sessions := s.sessions + [session])
  }

  lemma {:induction false} ListingFrom(first: ServerID, rest: set<ServerID>) returns (members: seq<ServerID>)
    requires first !in rest
    ensures |members| == |rest| + 1 && members[0] == first && forall m :: m in members <==> m == first || m in rest
  {
    members := [first];
    if rest != {} {
      var id :| id in rest;
      members := ListingFrom(first, rest - {id});
      members := members + [id];
    }
  }

  // A tree in which all the others are children of the root.
  ghost function Star(n: nat): G.State
    requires n > 0
  {
    G.State(seq(n, x => 0), seq(n, x => None), seq(n, x => G.Idle), {0}, map[], None)
  }

  // A server can start to register for an epoch exactly with what it needs.
  lemma CanBeginExactly(s: System, id: ServerID, e: int)
    ensures (exists t, session :: Begin(s, t, id, session) && session.epoch == e)
       <==> id in s.servers && CanGather(s.servers[id], e)
  {
    if id in s.servers {
      RosterExactly(s.servers[id], id, e);
      if CanGather(s.servers[id], e) {
        var roster := RosterFor(s.servers[id], id, e).value;
        var members := ListingFrom(id, roster - {id});
        assert |roster| == |roster - {id}| + 1;
        var session := Session(id, e, None, [], roster, members, Star(|members|));
        assert Begin(s, s.(sessions := s.sessions + [session]), id, session);
      }
    }
  }

  // With the proof at hand the announcement is made out, for the epoch after the
  // one the caller is in by now.
  ghost predicate Announce(s: System, t: System, k: nat) {
    && k < |s.sessions|
    && var session := s.sessions[k];
       && session.announced == None && session.caller in s.servers
       && t == s.(sessions := s.sessions[k := session.(announced := Some(s.servers[session.caller].e + 1))])
  }

  // The announcement reaches a server, which calls addSigner.
  ghost predicate Deliver(s: System, t: System, k: nat, x: nat, accepted: bool, at: Readings) {
    && k < |s.sessions| == |t.sessions| && s.guard.clock.Total() != 0
    && s.now <= at.t1 && at.Ordered() && at.t3 <= t.now
    && var session := s.sessions[k];
       && session.announced.Some? && x < |session.members| && session.members[x] in s.servers
       && var id := session.members[x];
          var server := s.servers[id];
          var r := SignerAdded(server.signers, server.e, s.guard, at, session.caller, Some(session.proof),
                  session.announced.value);
          && accepted == r.1.None?
          && G.Receive(session.gossip, t.sessions[k].gossip, x, accepted)
          && t == System(t.now, s.guard, s.servers[id := server.(signers := r.0)],
                         s.sessions[k := session.(gossip := t.sessions[k].gossip)])
  }

  // What decides whether a server accepts, when it reads the clock at one instant, q
  // whole cycles and r after its start.
  lemma DeliveryExactly(s: System, t: System, k: nat, x: nat, accepted: bool, now: int, q: int, r: int)
    requires Deliver(s, t, k, x, accepted, Readings(now, now, now)) && s.guard.Valid()
    requires q >= 0 && 0 <= r < s.guard.durations.registration + s.guard.durations.epoch
    requires now - s.guard.clock.startTime == q * (s.guard.durations.registration + s.guard.durations.epoch) + r
    ensures var server, e := s.servers[s.sessions[k].members[x]], s.sessions[k].announced.value;
            accepted <==>
              && 0 <= e <= |server.signers| && server.e <= e
              && q + s.guard.clock.shiftEpoch < e && r <= s.guard.durations.registration - s.guard.consensus
  {
    var session := s.sessions[k];
    var server := s.servers[session.members[x]];
    AddSignerExactly(server.signers, server.e, s.guard, now, q, r, session.caller, Some(session.proof),
            session.announced.value);
  }

  // Replies, timeouts and losses within one registration.
  ghost predicate Relay(s: System, t: System, k: nat) {
    && k < |s.sessions| && |t.sessions| == |s.sessions| && s.sessions[k].announced.Some?
    && var g, g' := s.sessions[k].gossip, t.sessions[k].gossip;
       && ((exists x :: G.Collect(g, g', x)) || (exists x :: G.Expire(g, g', x)) || G.Lose(g, g'))
       && t == s.(sessions := s.sessions[k := s.sessions[k].(gossip := g')])
  }

  // Time passes, the clock is set anew, a server moves to another epoch or hears
  // of more servers. Signer sets stay as they are.
  ghost predicate Drift(s: System, t: System) {
    && t.now >= s.now && t.sessions == s.sessions && t.servers.Keys == s.servers.Keys
    && forall id :: id in s.servers ==> t.servers[id].signers == s.servers[id].signers
  }

  ghost predicate Next(s: System, t: System) {
    || (exists id, session :: Begin(s, t, id, session))
    || (exists k :: Announce(s, t, k))
    || (exists k, x, accepted, at :: Deliver(s, t, k, x, accepted, at))
    || (exists k :: Relay(s, t, k))
    || Drift(s, t)
  }

  // Every node that has accepted stands for a server that holds the caller.
  ghost predicate SessionKept(s: System, session: Session) {
    && G.Inv(session.gossip) && |session.gossip.parent| == |session.members| && |session.members| == |session.roster|
    && (forall m :: m in session.members <==> m in session.roster)
    && session.caller == session.members[0]
    && forall x :: 0 <= x < |session.members| && session.gossip.verdict[x] == Some(true) ==>
      session.announced.Some? && Holds(s, session.members[x], session.caller, session.announced.value)
  }

  ghost predicate Inv(s: System) {
    forall k :: 0 <= k < |s.sessions| ==> SessionKept(s, s.sessions[k])
  }

  // Signer sets only grow.
  ghost predicate Grown(s: System, t: System) {
    forall id, signer, e :: Holds(s, id, signer, e) ==> Holds(t, id, signer, e)
  }

  lemma GrownKeeps(s: System, t: System, session: Session)
    requires Grown(s, t) && SessionKept(s, session)
    ensures SessionKept(t, session)
  {
  }

  lemma DeliverGrows(s: System, t: System, k: nat, x: nat, accepted: bool, at: Readings)
    requires Deliver(s, t, k, x, accepted, at)
    ensures Grown(s, t)
    ensures accepted ==> Holds(t, s.sessions[k].members[x], s.sessions[k].caller, s.sessions[k].announced.value)
  {
    var session := s.sessions[k];
    var id, epoch := session.members[x], session.announced.value;
    var server := s.servers[id];
    forall id', signer, e | Holds(s, id', signer, e)
      ensures Holds(t, id', signer, e)
    {
      if id' == id {
        AddSignerEffect(server.signers, server.e, s.guard, at, session.caller, Some(session.proof), epoch, e);
      }
    }
    AddSignerEffect(server.signers, server.e, s.guard, at, session.caller, Some(session.proof), epoch, epoch);
  }

  lemma DeliverKeepsInv(s: System, t: System, k: nat, x: nat, accepted: bool, at: Readings)
    requires Inv(s) && Deliver(s, t, k, x, accepted, at)
    ensures Inv(t)
  {
    DeliverGrows(s, t, k, x, accepted, at);
    var g, g' := s.sessions[k].gossip, t.sessions[k].gossip;
    assert SessionKept(s, s.sessions[k]);
    GrownKeeps(s, t, s.sessions[k]);
    G.ReceiveKeepsInv(g, g', x, accepted);
    forall j | 0 <= j < |t.sessions|
      ensures SessionKept(t, t.sessions[j])
    {
      assert SessionKept(s, s.sessions[j]);
      if j != k {
        GrownKeeps(s, t, s.sessions[j]);
      }
    }
  }

  lemma RelayKeepsInv(s: System, t: System, k: nat)
    requires Inv(s) && Relay(s, t, k)
    ensures Inv(t)
  {
    var g, g' := s.sessions[k].gossip, t.sessions[k].gossip;
    assert SessionKept(s, s.sessions[k]);
    assert G.Next(g, g');
    G.NextKeepsInv(g, g');
    assert g'.verdict == g.verdict;
    forall j | 0 <= j < |t.sessions|
      ensures SessionKept(t, t.sessions[j])
    {
      assert SessionKept(s, s.sessions[j]);
    }
  }

  lemma BeginKeepsInv(s: System, t: System, id: ServerID, session: Session)
    requires Inv(s) && Begin(s, t, id, session)
    ensures Inv(t)
  {
    G.InitialInv(session.gossip);
    forall j | 0 <= j < |t.sessions|
      ensures SessionKept(t, t.sessions[j])
    {
      if j < |s.sessions| {
        assert SessionKept(s, s.sessions[j]);
        GrownKeeps(s, t, s.sessions[j]);
      }
    }
  }

  // Nobody has accepted before the announcement is made out.
  lemma AnnounceKeepsInv(s: System, t: System, k: nat)
    requires Inv(s) && Announce(s, t, k)
    ensures Inv(t)
  {
    forall j | 0 <= j < |t.sessions|
      ensures SessionKept(t, t.sessions[j])
    {
      assert SessionKept(s, s.sessions[j]);
    }
  }

  lemma NextKeepsInv(s: System, t: System)
    requires Inv(s) && Next(s, t)
    ensures Inv(t)
  {
    if id, session :| Begin(s, t, id, session) {
      BeginKeepsInv(s, t, id, session);
    } else if k :| Announce(s, t, k) {
      AnnounceKeepsInv(s, t, k);
    } else if k, x, accepted, at :| Deliver(s, t, k, x, accepted, at) {
      DeliverKeepsInv(s, t, k, x, accepted, at);
    } else if k :| Relay(s, t, k) {
      RelayKeepsInv(s, t, k);
    } else {
      forall j | 0 <= j < |t.sessions|
        ensures SessionKept(t, t.sessions[j])
      {
        GrownKeeps(s, t, s.sessions[j]);
      }
    }
  }

  ghost predicate IsRun(run: seq<System>) {
    run != [] && run[0].sessions == [] && forall i :: 0 <= i < |run| - 1 ==> StepAt(run, i)
  }

  ghost predicate StepAt(run: seq<System>, i: nat)
    requires i < |run| - 1
  {
    Next(run[i], run[i + 1])
  }

  lemma {:induction false} RunKeepsInv(run: seq<System>, i: nat)
    requires IsRun(run) && i < |run|
    ensures Inv(run[i])
  {
    if i > 0 {
      RunKeepsInv(run, i - 1);
      assert StepAt(run, i - 1);
      NextKeepsInv(run[i - 1], run[i]);
    }
  }

  // CreateProofForEpoch returns no error when the value of the root is the size
  // of the roster.
  ghost predicate Succeeded(session: Session) {
    session.gossip.reported == Some(|session.members|)
  }

  // Registration completeness: in any run from any signer sets, once a
  // registration has succeeded, the caller and every signer of the previous epoch
  // that it asked hold the caller among their own signers of the announced epoch.
  lemma RegistrationComplete(run: seq<System>, i: nat, k: nat)
    requires IsRun(run) && i < |run| && k < |run[i].sessions|
    requires Succeeded(run[i].sessions[k])
    ensures var session := run[i].sessions[k];
            session.caller in session.roster && session.announced.Some? &&
            forall id :: id in session.roster ==> Holds(run[i], id, session.caller, session.announced.value)
  {
    RunKeepsInv(run, i);
    var s := run[i];
    var session := s.sessions[k];
    assert SessionKept(s, session);
    G.ReportIsExact(session.gossip);
    forall id | id in session.roster
      ensures session.announced.Some? && Holds(s, id, session.caller, session.announced.value)
    {
      assert id in session.members;
      var x :| 0 <= x < |session.members| && session.members[x] == id;
      assert session.gossip.verdict[x] == Some(true);
    }
    assert session.members[0] in session.members;
  }

  // Sessions stay in place and keep what they began with.
  ghost predicate Continued(s: System, t: System) {
    && |s.sessions| <= |t.sessions|
    && forall k :: 0 <= k < |s.sessions| ==>
      t.sessions[k].caller == s.sessions[k].caller && t.sessions[k].epoch == s.sessions[k].epoch
  }

  lemma NextContinues(s: System, t: System)
    requires Next(s, t)
    ensures Continued(s, t)
  {
  }

  lemma ContinuedTwice(s: System, t: System, u: System)
    requires Continued(s, t) && Continued(t, u)
    ensures Continued(s, u)
  {
  }

  lemma {:induction false} RunContinues(run: seq<System>, i: nat, j: nat)
    requires IsRun(run) && i <= j < |run|
    ensures Continued(run[i], run[j])
  {
    if i < j {
      RunContinues(run, i, j - 1);
      assert StepAt(run, j - 1);
      NextContinues(run[j - 1], run[j]);
      ContinuedTwice(run[i], run[j - 1], run[j]);
    }
  }

  // The epoch announced is the epoch asked for exactly when the caller's epoch has
  // not moved since the registration began.
  lemma AnnouncedIsAsked(run: seq<System>, i: nat, j: nat, k: nat, id: ServerID, session: Session)
    requires IsRun(run) && i < j < |run| - 1
    requires Begin(run[i], run[i + 1], id, session) && k == |run[i].sessions|
    requires Announce(run[j], run[j + 1], k)
    ensures var now := run[j + 1].sessions[k];
            && now.caller == id && now.epoch == session.epoch && id in run[j].servers
            && (now.announced == Some(now.epoch) <==> run[j].servers[id].e == run[i].servers[id].e)
  {
    RunContinues(run, i + 1, j);
    RosterIsPreviousSigners(run[i], run[i + 1], id, session);
    assert run[i + 1].sessions[k] == session;
  }

  // The roster is what the caller's own storage said when it began.
  lemma RosterIsPreviousSigners(s: System, t: System, id: ServerID, session: Session)
    requires Begin(s, t, id, session)
    ensures session.epoch >= 1 && s.servers[id].e == session.epoch - 1
    ensures session.roster == SetAt(s.servers[id].signers, session.epoch - 1).Keys + {id}
    ensures SetAt(s.servers[id].signers, session.epoch - 1) != map[]
  {
  }

  // Session k has lost no message and no node of it has timed out.
  ghost predicate Undisturbed(s: System, t: System, k: nat) {
    && k < |s.sessions| && k < |t.sessions|
    && (t.sessions[k].gossip == s.sessions[k].gossip || G.SmoothNext(s.sessions[k].gossip, t.sessions[k].gossip))
  }

  ghost predicate UndisturbedAt(run: seq<System>, m: nat, k: nat)
    requires m < |run| - 1
  {
    Undisturbed(run[m], run[m + 1], k)
  }

  // Nothing of session k is missing.
  ghost predicate Whole(s: System, k: nat) {
    k < |s.sessions| && G.Complete(s.sessions[k].gossip)
  }

  lemma BeginsWhole(s: System, t: System, id: ServerID, session: Session)
    requires Begin(s, t, id, session)
    ensures Whole(t, |s.sessions|)
  {
    G.InitialComplete(session.gossip);
  }

  lemma StaysWhole(s: System, t: System, k: nat)
    requires Whole(s, k) && Undisturbed(s, t, k)
    ensures Whole(t, k)
  {
    if t.sessions[k].gossip != s.sessions[k].gossip {
      G.SmoothKeeps(s.sessions[k].gossip, t.sessions[k].gossip);
    }
  }

  lemma {:induction false} UndisturbedIsWhole(run: seq<System>, i: nat, j: nat, k: nat)
    requires i <= j < |run| && Whole(run[i], k) && forall m :: i <= m < j ==> UndisturbedAt(run, m, k)
    ensures Whole(run[j], k)
  {
    if i < j {
      UndisturbedIsWhole(run, i, j - 1, k);
      assert UndisturbedAt(run, j - 1, k);
      StaysWhole(run[j - 1], run[j], k);
    }
  }

  // Where no message of a registration is lost and no time runs out, it succeeds in
  // the end exactly when every server it asked, and the caller, has accepted: among
  // any number of other registrations, and with any of those disturbed.
  lemma RegistrationSucceeds(run: seq<System>, i: nat, j: nat, k: nat, id: ServerID, session: Session)
    requires IsRun(run) && i < j < |run| && Begin(run[i], run[i + 1], id, session) && k == |run[i].sessions|
    requires forall m :: i < m < j ==> UndisturbedAt(run, m, k)
    ensures k < |run[j].sessions|
    ensures var now := run[j].sessions[k];
            G.Quiet(now.gossip) && |now.members| > 1 ==> (Succeeded(now) <==> G.AllAccepted(now.gossip.verdict))
  {
    BeginsWhole(run[i], run[i + 1], id, session);
    UndisturbedIsWhole(run, i + 1, j, k);
    RunKeepsInv(run, j);
    var now := run[j].sessions[k];
    assert SessionKept(run[j], now);
    G.CompleteReports(now.gossip);
  }
}
