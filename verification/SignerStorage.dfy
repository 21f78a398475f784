// membershipchainservice/addsignerservice.go: addSigner and its guards, and the
// freeze of the signer sets that the guards bring about.

module SignerStorage {
  import opened Values
  import opened CycleClock

  type ServerID = nat
  type Proof = seq<int>
  type SignersSet = map<ServerID, Proof>

  datatype Error = NoProof | NegativeEpoch | TooFarInTheFuture | PreviousEpoch

  // The three instants at which one call reads the clock.
  datatype Readings = Readings(t1: int, t2: int, t3: int) {
    ghost predicate Ordered() {
      t1 <= t2 <= t3
    }
  }

  // The package variables and the clock that the guards consult.
  datatype Guard = Guard(clock: Clock, durations: Durations, consensus: int) {
    ghost predicate Valid() {
      clock.Runs(durations) && consensus > 0 && clock.Total() != 0
    }

    predicate Refuses(at: Readings, e: int)
      requires clock.Total() != 0
    {
      clock.GetTimeTillNextEpoch(durations, at.t1, at.t2) < consensus || clock.GetEpoch(at.t3) >= e
    }
  }

  // Storage after a call, and the error if there was one. A call that fails late
  // may already have appended an empty set.
  function SignerAdded(signers: seq<SignersSet>, current: int, g: Guard, at: Readings, signer: ServerID,
          proof: Option<Proof>, e: int)
    : (r: (seq<SignersSet>, Option<Error>))
    requires g.clock.Total() != 0
  {
    if proof.None? then (signers, Some(NoProof))
    else if e < 0 then (signers, Some(NegativeEpoch))
    else if e > |signers| then (signers, Some(TooFarInTheFuture))
    else
      var grown := if e == |signers| then signers + [map[]] else signers;
      if current > e || g.Refuses(at, e) then (grown, Some(PreviousEpoch))
      else (grown[e := grown[e][signer := proof.value]], None)
  }

  class Service {
    var Signers: seq<SignersSet>
    var e: int

    constructor ()
      ensures Signers == [] && e == 0
    {
      Signers, e := [], 0;
    }

    method AddSigner(g: Guard, at: Readings, signer: ServerID, proof: Option<Proof>,
            epoch: int) returns (err: Option<Error>)
      requires g.clock.Total() != 0
      modifies this`Signers
      ensures (Signers, err) == SignerAdded(old(Signers), e, g, at, signer, proof, epoch)
      ensures Outcomes(g, at, |old(Signers)|, e, proof, epoch, err)
      ensures |Signers| == |old(Signers)| + if proof.Some? && epoch == |old(Signers)| then 1 else 0
      ensures err.None? ==> epoch < |Signers| && Signers[epoch] == SetAt(old(Signers), epoch)[signer := proof.value]
      ensures forall f :: err.Some? || f != epoch ==> SetAt(Signers, f) == SetAt(old(Signers), f)
    {
      if proof.Some? {
        if epoch < 0 {
          return Some(NegativeEpoch);
        }
        if epoch > |Signers| {
          return Some(TooFarInTheFuture);
        }
        if epoch == |Signers| {
          Signers := Signers + [map[]];
        }
        if e > epoch {
          return Some(PreviousEpoch);
        }
        if g.clock.GetTimeTillNextEpoch(g.durations, at.t1, at.t2) < g.consensus || g.clock.GetEpoch(at.t3) >= epoch {
          return Some(PreviousEpoch);
        }
        var signers: SignersSet := Signers[epoch][signer := proof.value];
        Signers := Signers[epoch := signers];
        return None;
      }
      return Some(NoProof);
    }

    // The first signers, with empty proofs, become the set of epoch 0; a storage
    // that was not empty also grows by an empty set.
    method SetGenesisSigners(servers: set<ServerID>)
      modifies this`Signers
      ensures |Signers| == |old(Signers)| + 1
      ensures SetAt(Signers, 0).Keys == servers && forall id :: id in servers ==> SetAt(Signers, 0)[id] == []
      ensures forall f :: f != 0 ==> SetAt(Signers, f) == SetAt(old(Signers), f)
    {
      var signers: SignersSet := map[];
      var left := servers;
      while left != {}
        invariant left <= servers && signers == map id | id in servers - left :: []
        decreases left
      {
        var id :| id in left;
        signers := signers[id := []];
        left := left - {id};
      }
      Signers := Signers + [map[]];
      Signers := Signers[0 := signers];
    }
  }

  // The signers of an epoch, none if the storage does not reach it.
  function SetAt(signers: seq<SignersSet>, e: int): SignersSet {
    if 0 <= e < |signers| then signers[e] else map[]
  }

  // When a call succeeds, and which error it returns otherwise: by the proof, the
  // epoch asked for, the size of the storage, the epoch of the server, and the
  // three readings of the clock.
  ghost predicate Outcomes(g: Guard, at: Readings, size: nat, current: int, proof: Option<Proof>, epoch: int,
          err: Option<Error>)
    requires g.clock.Total() != 0
  {
    && (err == Some(NoProof) <==> proof.None?)
    && (err == Some(NegativeEpoch) <==> proof.Some? && epoch < 0)
    && (err == Some(TooFarInTheFuture) <==> proof.Some? && epoch > size)
    && (err.None? <==>
        && proof.Some? && 0 <= epoch <= size && current <= epoch
        && g.clock.GetTimeTillNextEpoch(g.durations, at.t1, at.t2) >= g.consensus && g.clock.GetEpoch(at.t3) < epoch)
  }

  // A call at one instant, q whole cycles and r after the start of the clock: it
  // succeeds exactly in a cycle before the epoch asked for, during registration and
  // with the margin left, if the storage reaches so far and the server is not past
  // that epoch. Only then is anything put in, and it is the proof.
  lemma AddSignerExactly(signers: seq<SignersSet>, current: int, g: Guard, now: int, q: int, r: int, signer: ServerID,
          proof: Option<Proof>, e: int)
    requires g.Valid() && q >= 0 && 0 <= r < g.durations.registration + g.durations.epoch
    requires now - g.clock.startTime == q * (g.durations.registration + g.durations.epoch) + r
    ensures var after := SignerAdded(signers, current, g, Readings(now, now, now), signer, proof, e);
            && (after.1.None? <==>
                && proof.Some? && 0 <= e <= |signers| && current <= e
                && q + g.clock.shiftEpoch < e && r <= g.durations.registration - g.consensus)
            && (after.1.None? ==> e < |after.0| && after.0[e] == SetAt(signers, e)[signer := proof.value])
            && forall f :: after.1.Some? || f != e ==> SetAt(after.0, f) == SetAt(signers, f)
  {
    InstantIs(g.clock, g.durations, now, q, r);
    TimeTillNextEpochIs(g.clock, g.durations, now, q, r);
  }

  // After Set at an instant, the next epoch is open until the margin before the end
  // of registration, in the first cycle.
  lemma OpenAfterSet(c: Clock, d: Durations, consensus: int, start: int, now: int)
    requires d.Valid() && consensus > 0 && start <= now < start + d.registration + d.epoch
    ensures var g := Guard(c.Set(d, start), d, consensus);
            && g.Valid()
            && (g.Refuses(Readings(now, now, now), c.shiftEpoch + 1) <==> now > start + d.registration - consensus)
  {
    var c' := c.Set(d, start);
    TotalIs(c', d);
    SetStartsCycle(c, d, start);
    assert c'.Rest(now) == now - start;
    AcceptedExactly(Guard(c', d, consensus), now, c.shiftEpoch + 1);
  }

  // A call changes at most the entry of its own signer in its own epoch, and
  // that only when it succeeds.
  lemma AddSignerEffect(signers: seq<SignersSet>, current: int, g: Guard, at: Readings, signer: ServerID,
          proof: Option<Proof>, e: int, f: int)
    requires g.clock.Total() != 0
    ensures var r := SignerAdded(signers, current, g, at, signer, proof, e);
            SetAt(r.0, f) == if r.1.None? && f == e then SetAt(signers, f)[signer := proof.value] else SetAt(signers, f)
  {
  }

  // From when on the set of epoch e no longer changes.
  function Deadline(g: Guard, e: int): int {
    g.clock.startTime + (e - 1 - g.clock.shiftEpoch) * (g.durations.registration + g.durations.epoch)
    + g.durations.registration - g.consensus
  }

  // After the deadline of an epoch, every call for it is refused, even when the
  // clock passes the end of a phase or of a cycle between its readings.
  lemma RefusedAfterDeadline(g: Guard, at: Readings, e: int)
    requires g.Valid() && at.Ordered() && at.t1 >= g.clock.startTime
    requires at.t1 > Deadline(g, e)
    ensures g.Refuses(at, e)
  {
    var c, d := g.clock, g.durations;
    TotalIs(c, d);
    var q1, r1 := InstantHas(c, d, at.t1);
    var q2, r2 := InstantHas(c, d, at.t2);
    QuotientMonotone(at.t1 - c.startTime, at.t2 - c.startTime, c.Total());
    QuotientMonotone(at.t2 - c.startTime, at.t3 - c.startTime, c.Total());
    if c.GetEpoch(at.t3) < e {
      var k := e - 1 - c.shiftEpoch;
      assert q1 <= q2 <= k;
      if q1 < k {
        // Only with a registration phase shorter than the margin.
        MultipleMonotone(q1 + 1, k, c.Total());
        assert (q1 + 1) * c.Total() == q1 * c.Total() + c.Total();
        assert r2 >= 0;
      }
    }
  }

  datatype Call = Call(current: int, at: Readings, signer: ServerID, proof: Option<Proof>, epoch: int)

  function AfterCalls(signers: seq<SignersSet>, g: Guard, calls: seq<Call>): seq<SignersSet>
    requires g.clock.Total() != 0
    decreases |calls|
  {
    if calls == [] then signers
    else
      var c := calls[0];
      AfterCalls(SignerAdded(signers, c.current, g, c.at, c.signer, c.proof, c.epoch).0, g, calls[1..])
  }

  // The freeze: no sequence of calls after the deadline changes the set.
  lemma {:induction false} SignersFrozen(signers: seq<SignersSet>, g: Guard, calls: seq<Call>, e: int)
    requires g.Valid()
    requires forall i :: 0 <= i < |calls| ==>
      calls[i].at.Ordered() && calls[i].at.t1 >= g.clock.startTime && calls[i].at.t1 > Deadline(g, e)
    ensures SetAt(AfterCalls(signers, g, calls), e) == SetAt(signers, e)
    decreases |calls|
  {
    if calls != [] {
      var c := calls[0];
      RefusedAfterDeadline(g, c.at, e);
      AddSignerEffect(signers, c.current, g, c.at, c.signer, c.proof, c.epoch, e);
      SignersFrozen(SignerAdded(signers, c.current, g, c.at, c.signer, c.proof, c.epoch).0, g, calls[1..], e);
    }
  }

  // The set of the genesis signers is frozen from the start of the clock.
  lemma GenesisFrozen(signers: seq<SignersSet>, g: Guard, calls: seq<Call>)
    requires g.Valid() && g.clock.shiftEpoch >= 0
    requires forall i :: 0 <= i < |calls| ==> calls[i].at.Ordered() && calls[i].at.t1 >= g.clock.startTime
    ensures SetAt(AfterCalls(signers, g, calls), 0) == SetAt(signers, 0)
  {
    TotalIs(g.clock, g.durations);
    MultipleMonotone(-1 - g.clock.shiftEpoch, -1, g.clock.Total());
    assert Deadline(g, 0) < g.clock.startTime;
    SignersFrozen(signers, g, calls, 0);
  }

  // The deadline is exact: up to and including it, in a cycle before e, a call
  // during registration with enough time left goes through.
  lemma AcceptedExactly(g: Guard, now: int, e: int)
    requires g.Valid() && now >= g.clock.startTime
    ensures var c, d := g.clock, g.durations;
            g.Refuses(Readings(now, now, now), e) <==>
            !(c.GetEpoch(now) < e && c.GetCurrentPhase(d, now) == REGISTRATION &&
              c.Rest(now) <= d.registration - g.consensus)
    ensures now == Deadline(g, e) && g.durations.registration >= g.consensus ==> !g.Refuses(Readings(now, now, now), e)
  {
    var c, d := g.clock, g.durations;
    var q, r := InstantHas(c, d, now);
    if now == Deadline(g, e) && d.registration >= g.consensus {
      TotalIs(c, d);
      var k := e - 1 - c.shiftEpoch;
      assert now - c.startTime == k * c.Total() + (d.registration - g.consensus);
      if k < 0 {
        MultipleMonotone(k, -1, c.Total());
      }
      InstantIs(c, d, now, k, d.registration - g.consensus);
    }
  }
}
