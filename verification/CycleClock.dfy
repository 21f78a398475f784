// membershipchainservice/cycleclock.go. Durations and instants are whole
// nanoseconds; time.Now() is a parameter, one for each reading of the clock.

module CycleClock {
  import opened Basics

  datatype Phase = REGISTRATION | EPOCH

  // The package variables that hold the durations.
  datatype Durations = Durations(registration: int, epoch: int) {
    ghost predicate Valid() {
      registration >= 0 && epoch >= 0 && registration + epoch > 0
    }
  }

  // Go's division and remainder truncate toward zero.
  function Quotient(a: int, b: int): int
    requires b != 0
  {
    if a >= 0 then a / b else -((-a) / b)
  }

  function Remainder(a: int, b: int): int
    requires b != 0
  {
    a - Quotient(a, b) * b
  }

  // The fields of a Cycle, with its readings as functions of the instant.
  datatype Clock = Clock(sequence: seq<int>, startTime: int, shiftEpoch: int) {

    ghost predicate Runs(d: Durations) {
      d.Valid() && sequence == [d.registration, d.epoch]
    }

    function Total(): int {
      Sum(sequence)
    }

    function Rest(now: int): int
      requires Total() != 0
    {
      Remainder(now - startTime, Total())
    }

    function GetCurrentPhase(d: Durations, now: int): Phase
      requires Total() != 0
    {
      if Rest(now) < d.registration then REGISTRATION else EPOCH
    }

    function GetTimeTillNextCycle(now: int): int
      requires Total() != 0
    {
      Total() - Rest(now)
    }

    // Reads the clock for the phase and again for the time left.
    function GetTimeTillNextEpoch(d: Durations, now: int, later: int): int
      requires Total() != 0
    {
      if GetCurrentPhase(d, now) == EPOCH then 0 else GetTimeTillNextCycle(later) - d.epoch
    }

    function GetEpoch(now: int): int
      requires Total() != 0
    {
      Quotient(now - startTime, Total()) + shiftEpoch
    }

    // Set at an instant, with the durations of that moment.
    function Set(d: Durations, now: int): Clock {
      this.(sequence := [d.registration, d.epoch], startTime := now)
    }

    // CheckPoint reads the clock for the phase and the epoch, and for both again.
    function CheckPoint(d: Durations, t1: int, t2: int, t3: int, t4: int): Clock
      requires Total() != 0
    {
      var c := if GetCurrentPhase(d, t1) == REGISTRATION then this.(shiftEpoch := GetEpoch(t2)) else this;
      if c.GetCurrentPhase(d, t3) == EPOCH then c.(shiftEpoch := c.GetEpoch(t4) + 1) else c
    }
  }

  // The object itself.
  class Cycle {
    var Sequence: seq<int>
    var StartTime: int
    var ShiftEpoch: int

    ghost function State(): Clock
      reads this
    {
      Clock(Sequence, StartTime, ShiftEpoch)
    }

    constructor ()
      ensures State() == Clock([], 0, 0)
    {
      Sequence, StartTime, ShiftEpoch := [], 0, 0;
    }

    method TotalCycleTime() returns (total: int)
      ensures total == State().Total()
    {
      total := 0;
      for i := 0 to |Sequence|
        invariant total == Sum(Sequence[..i])
      {
        assert Sequence[..i + 1][..i] == Sequence[..i];
        total := total + Sequence[i];
      }
      assert Sequence[..|Sequence|] == Sequence;
    }

    method GetCurrentPhase(d: Durations, now: int) returns (phase: Phase)
      requires State().Total() != 0
      ensures phase == State().GetCurrentPhase(d, now)
    {
      var total := TotalCycleTime();
      var rest := Remainder(now - StartTime, total);
      if rest < d.registration {
        return REGISTRATION;
      } else {
        return EPOCH;
      }
    }

    method GetTimeTillNextCycle(now: int) returns (time: int)
      requires State().Total() != 0
      ensures time == State().GetTimeTillNextCycle(now)
    {
      var total := TotalCycleTime();
      time := total - Remainder(now - StartTime, total);
    }

    method GetTimeTillNextEpoch(d: Durations, now: int, later: int) returns (time: int)
      requires State().Total() != 0
      ensures time == State().GetTimeTillNextEpoch(d, now, later)
    {
      var phase := GetCurrentPhase(d, now);
      if phase == EPOCH {
        return 0;
      }
      time := GetTimeTillNextCycle(later);
      time := time - d.epoch;
    }

    method GetEpoch(now: int) returns (epoch: int)
      requires State().Total() != 0
      ensures epoch == State().GetEpoch(now)
    {
      var total := TotalCycleTime();
      epoch := Quotient(now - StartTime, total) + ShiftEpoch;
    }

    method Set(d: Durations, now: int)
      modifies this
      ensures State() == old(State()).Set(d, now)
      ensures d.Valid() ==> AtStartOfCycle(State(), d, now) && State().GetEpoch(now) == old(ShiftEpoch)
    {
      Sequence := [d.registration, d.epoch];
      StartTime := now;
      if d.Valid() {
        SetStartsCycle(old(State()), d, now);
      }
    }

    method CheckPoint(d: Durations, t1: int, t2: int, t3: int, t4: int)
      requires State().Total() != 0
      modifies this
      ensures State() == old(State()).CheckPoint(d, t1, t2, t3, t4)
    {
      var phase := GetCurrentPhase(d, t1);
      if phase == REGISTRATION {
        ShiftEpoch := GetEpoch(t2);
      }
      phase := GetCurrentPhase(d, t3);
      if phase == EPOCH {
        var epoch := GetEpoch(t4);
        ShiftEpoch := epoch + 1;
      }
    }
  }

  lemma TotalIs(c: Clock, d: Durations)
    requires c.Runs(d)
    ensures c.Total() == d.registration + d.epoch > 0
  {
    assert c.sequence[..1] == [d.registration];
    assert Sum(c.sequence[..1]) == d.registration;
  }

  lemma MultipleMonotone(p: int, q: int, t: int)
    requires p <= q && t > 0
    ensures p * t <= q * t
  {
  }

  // Whole cycles and the rest determine the instant, and the other way round.
  lemma DivisionUnique(x: int, t: int, q: int, r: int)
    requires t > 0 && 0 <= r < t && x == q * t + r && q >= 0
    ensures x >= 0 && Quotient(x, t) == q && Remainder(x, t) == r
  {
    assert x >= 0 by {
      assert q * t >= 0;
    }
    var q' := x / t;
    assert x == q' * t + x % t;
    if q' < q {
      MultipleMonotone(q' + 1, q, t);
    } else if q < q' {
      MultipleMonotone(q + 1, q', t);
    }
  }

  lemma DivisionHolds(x: int, t: int)
    requires t > 0 && x >= 0
    ensures Quotient(x, t) >= 0 && 0 <= Remainder(x, t) < t && x == Quotient(x, t) * t + Remainder(x, t)
  {
    assert x == (x / t) * t + x % t;
  }

  lemma QuotientMonotone(x: int, y: int, t: int)
    requires t > 0 && 0 <= x <= y
    ensures Quotient(x, t) <= Quotient(y, t)
  {
    DivisionHolds(x, t);
    DivisionHolds(y, t);
    var p, q := Quotient(x, t), Quotient(y, t);
    if q < p {
      MultipleMonotone(q + 1, p, t);
    }
  }

  // An instant is q whole cycles and r after the start.
  lemma InstantIs(c: Clock, d: Durations, now: int, q: int, r: int)
    requires c.Runs(d) && q >= 0 && 0 <= r < d.registration + d.epoch
    requires now - c.startTime == q * (d.registration + d.epoch) + r
    ensures c.Total() != 0 && c.Rest(now) == r && c.GetEpoch(now) == q + c.shiftEpoch
    ensures c.GetTimeTillNextCycle(now) == d.registration + d.epoch - r
  {
    TotalIs(c, d);
    DivisionUnique(now - c.startTime, c.Total(), q, r);
  }

  lemma InstantHas(c: Clock, d: Durations, now: int) returns (q: int, r: int)
    requires c.Runs(d) && now >= c.startTime
    ensures q >= 0 && 0 <= r < d.registration + d.epoch
    ensures now - c.startTime == q * (d.registration + d.epoch) + r
    ensures c.Total() != 0 && c.Rest(now) == r && c.GetEpoch(now) == q + c.shiftEpoch
    ensures c.GetTimeTillNextCycle(now) == d.registration + d.epoch - r
  {
    TotalIs(c, d);
    q, r := Quotient(now - c.startTime, c.Total()), c.Rest(now);
    DivisionHolds(now - c.startTime, c.Total());
  }

  // The quotient and the remainder take the sign of the dividend, also for an
  // instant before the start.
  lemma TruncatesTowardZero(a: int, b: int)
    requires b > 0
    ensures a == Quotient(a, b) * b + Remainder(a, b) && -b < Remainder(a, b) < b
    ensures if a >= 0 then Quotient(a, b) >= 0 && Remainder(a, b) >= 0 else Quotient(a, b) <= 0 && Remainder(a, b) <= 0
  {
    if a >= 0 {
      DivisionHolds(a, b);
    } else {
      DivisionHolds(-a, b);
      assert Quotient(a, b) == -Quotient(-a, b);
      assert Quotient(a, b) * b == -(Quotient(-a, b) * b);
    }
  }

  // The two readings apart: the phase is that of the first, the time left that of the
  // second, negative when registration has ended in between.
  lemma TimeTillNextEpochReads(c: Clock, d: Durations, now: int, later: int, q: int, r: int, q': int, r': int)
    requires c.Runs(d) && q >= 0 && 0 <= r < d.registration + d.epoch && c.Total() != 0
    requires q' >= 0 && 0 <= r' < d.registration + d.epoch
    requires now - c.startTime == q * (d.registration + d.epoch) + r
    requires later - c.startTime == q' * (d.registration + d.epoch) + r'
    ensures c.GetTimeTillNextEpoch(d, now, later) == if r < d.registration then d.registration - r' else 0
  {
    InstantIs(c, d, now, q, r);
    InstantIs(c, d, later, q', r');
  }

  // q whole cycles and r after the start, what is left of registration: nothing
  // in the epoch phase, and something before it.
  lemma TimeTillNextEpochIs(c: Clock, d: Durations, now: int, q: int, r: int)
    requires c.Runs(d) && q >= 0 && 0 <= r < d.registration + d.epoch && c.Total() != 0
    requires now - c.startTime == q * (d.registration + d.epoch) + r
    ensures c.GetTimeTillNextEpoch(d, now, now) == if r < d.registration then d.registration - r else 0
    ensures c.GetTimeTillNextEpoch(d, now, now) > 0 <==> c.GetCurrentPhase(d, now) == REGISTRATION
    ensures c.GetTimeTillNextEpoch(d, now, now) == 0 <==> c.GetCurrentPhase(d, now) == EPOCH
  {
    InstantIs(c, d, now, q, r);
  }

  // A clock stands at the first instant of a cycle of the given durations.
  ghost predicate AtStartOfCycle(c: Clock, d: Durations, now: int) {
    && c.Runs(d) && c.Total() == d.registration + d.epoch != 0
    && c.Rest(now) == 0 && c.GetTimeTillNextCycle(now) == d.registration + d.epoch
    && c.GetCurrentPhase(d, now) == (if d.registration > 0 then REGISTRATION else EPOCH)
    && c.GetTimeTillNextEpoch(d, now, now) == d.registration
  }

  // Set puts the clock there, and the epoch at the shift; after that time runs on
  // from this instant.
  lemma SetStartsCycle(c: Clock, d: Durations, now: int)
    requires d.Valid()
    ensures AtStartOfCycle(c.Set(d, now), d, now) && c.Set(d, now).GetEpoch(now) == c.shiftEpoch
    ensures forall t :: now <= t < now + d.registration + d.epoch ==>
      c.Set(d, now).Rest(t) == t - now && c.Set(d, now).GetEpoch(t) == c.shiftEpoch
  {
    var c' := c.Set(d, now);
    TotalIs(c', d);
    InstantIs(c', d, now, 0, 0);
    TimeTillNextEpochIs(c', d, now, 0, 0);
    forall t | now <= t < now + d.registration + d.epoch
      ensures c'.Rest(t) == t - now && c'.GetEpoch(t) == c.shiftEpoch
    {
      InstantIs(c', d, t, 0, t - now);
    }
  }

  // Waiting for the next epoch during registration ends at the first instant of
  // the epoch phase of the same epoch.
  lemma WaitForEpoch(c: Clock, d: Durations, now: int)
    requires c.Runs(d) && d.epoch > 0 && now >= c.startTime && c.Total() != 0
    requires c.GetCurrentPhase(d, now) == REGISTRATION
    ensures var later := now + c.GetTimeTillNextEpoch(d, now, now);
            && later > now && c.GetCurrentPhase(d, later) == EPOCH && c.GetEpoch(later) == c.GetEpoch(now)
            && c.Rest(later) == d.registration
            && forall t :: now <= t < later ==> c.GetCurrentPhase(d, t) == REGISTRATION
  {
    var q, r := InstantHas(c, d, now);
    var later := now + c.GetTimeTillNextEpoch(d, now, now);
    InstantIs(c, d, later, q, d.registration);
    forall t | now <= t < later
      ensures c.GetCurrentPhase(d, t) == REGISTRATION
    {
      InstantIs(c, d, t, q, r + (t - now));
    }
  }

  // Waiting for the next cycle ends at its first instant, one epoch later.
  lemma WaitForCycle(c: Clock, d: Durations, now: int)
    requires c.Runs(d) && now >= c.startTime && c.Total() != 0
    ensures var later := now + c.GetTimeTillNextCycle(now);
            && later > now && c.Rest(later) == 0 && c.GetEpoch(later) == c.GetEpoch(now) + 1
            && (d.registration > 0 ==> c.GetCurrentPhase(d, later) == REGISTRATION)
            && forall t :: now <= t < later ==> c.GetEpoch(t) == c.GetEpoch(now)
  {
    var q, r := InstantHas(c, d, now);
    var later := now + c.GetTimeTillNextCycle(now);
    assert (q + 1) * (d.registration + d.epoch) == q * (d.registration + d.epoch) + (d.registration + d.epoch);
    InstantIs(c, d, later, q + 1, 0);
    forall t | now <= t < later
      ensures c.GetEpoch(t) == c.GetEpoch(now)
    {
      InstantIs(c, d, t, q, r + (t - now));
    }
  }

  // A clock in use: time passes, and now and then the durations are changed by a
  // CheckPoint and a Set at the same instant.
  datatype World = World(clock: Clock, durations: Durations, now: int) {
    ghost predicate Valid() {
      clock.Runs(durations) && now >= clock.startTime
    }

    ghost function Epoch(): int
      requires Valid()
    {
      TotalIs(clock, durations);
      clock.GetEpoch(now)
    }

    ghost function Phase(): Phase
      requires Valid()
    {
      TotalIs(clock, durations);
      clock.GetCurrentPhase(durations, now)
    }
  }

  ghost predicate Advance(w: World, w': World) {
    w'.clock == w.clock && w'.durations == w.durations && w'.now >= w.now
  }

  ghost predicate Rescale(w: World, w': World) {
    && w.Valid() && w'.durations.Valid() && w'.now == w.now
    && (TotalIs(w.clock, w.durations);
        w'.clock == w.clock.CheckPoint(w.durations, w.now, w.now, w.now, w.now).Set(w'.durations, w.now))
  }

  lemma AdvanceKeepsEpoch(w: World, w': World)
    requires w.Valid() && Advance(w, w')
    ensures w'.Valid() && w.Epoch() <= w'.Epoch()
  {
    TotalIs(w.clock, w.durations);
    QuotientMonotone(w.now - w.clock.startTime, w'.now - w.clock.startTime, w.clock.Total());
  }

  // A rescaling keeps the epoch during registration, and otherwise starts the next.
  lemma RescaleKeepsEpoch(w: World, w': World)
    requires w.Valid() && Rescale(w, w')
    ensures w'.Valid() && w'.Epoch() == w.Epoch() + if w.Phase() == EPOCH then 1 else 0
  {
    TotalIs(w.clock, w.durations);
    TotalIs(w'.clock, w'.durations);
    assert Quotient(0, w'.clock.Total()) == 0;
  }

  // Whatever the phase before, the new clock stands at the first instant of
  // registration.
  lemma RescaleStartsCycle(w: World, w': World)
    requires w.Valid() && Rescale(w, w')
    ensures w'.now == w.now && AtStartOfCycle(w'.clock, w'.durations, w.now)
  {
    TotalIs(w.clock, w.durations);
    SetStartsCycle(w.clock.CheckPoint(w.durations, w.now, w.now, w.now, w.now), w'.durations, w.now);
  }

  ghost predicate IsRun(run: seq<World>) {
    run != [] && run[0].Valid() && forall i :: 0 <= i < |run| - 1 ==>
      Advance(run[i], run[i + 1]) || Rescale(run[i], run[i + 1])
  }

  // Over any run the epoch never decreases.
  lemma {:induction false} RunKeepsEpoch(run: seq<World>)
    requires IsRun(run)
    ensures run[|run| - 1].Valid() && run[0].Epoch() <= run[|run| - 1].Epoch()
  {
    if |run| > 1 {
      var init := run[..|run| - 1];
      forall i | 0 <= i < |init| - 1
        ensures Advance(init[i], init[i + 1]) || Rescale(init[i], init[i + 1])
      {
        assert init[i] == run[i] && init[i + 1] == run[i + 1];
      }
      RunKeepsEpoch(init);
      var last, w' := run[|run| - 2], run[|run| - 1];
      if Advance(last, w') {
        AdvanceKeepsEpoch(last, w');
      } else {
        RescaleKeepsEpoch(last, w');
      }
    }
  }

  // CheckPoint reads the clock more than once. It overshoots the next epoch exactly
  // when registration ends between its two readings of the phase and the clock has
  // run at least one whole cycle since it was set ...
  lemma CheckPointOvershoots(c: Clock, d: Durations, t1: int, t2: int, t3: int, t4: int)
    requires c.Runs(d) && c.startTime <= t1 <= t2 <= t3 <= t4 && c.Total() != 0
    ensures c.CheckPoint(d, t1, t2, t3, t4).shiftEpoch > c.GetEpoch(t4) + 1 <==>
            (c.GetCurrentPhase(d, t1) == REGISTRATION && c.GetCurrentPhase(d, t3) == EPOCH &&
              c.GetEpoch(t2) > c.shiftEpoch)
  {
    TotalIs(c, d);
    QuotientMonotone(t1 - c.startTime, t2 - c.startTime, c.Total());
    QuotientMonotone(t2 - c.startTime, t3 - c.startTime, c.Total());
    QuotientMonotone(t3 - c.startTime, t4 - c.startTime, c.Total());
    DivisionHolds(t1 - c.startTime, c.Total());
  }

  // ... and it falls back behind the epoch exactly when the epoch phase ends
  // between the two, again after a whole cycle: then neither branch is taken.
  lemma CheckPointFallsBack(c: Clock, d: Durations, t1: int, t2: int, t3: int, t4: int)
    requires c.Runs(d) && c.startTime <= t1 <= t2 <= t3 <= t4 && c.Total() != 0
    ensures c.CheckPoint(d, t1, t2, t3, t4).shiftEpoch < c.GetEpoch(t1) <==>
            (c.GetCurrentPhase(d, t1) == EPOCH && c.GetCurrentPhase(d, t3) == REGISTRATION &&
              c.GetEpoch(t1) > c.shiftEpoch)
  {
    TotalIs(c, d);
    QuotientMonotone(t1 - c.startTime, t2 - c.startTime, c.Total());
    QuotientMonotone(t2 - c.startTime, t3 - c.startTime, c.Total());
    QuotientMonotone(t3 - c.startTime, t4 - c.startTime, c.Total());
    DivisionHolds(t1 - c.startTime, c.Total());
  }

  // A rescaling whose five readings need not agree: the epoch the new clock starts
  // from lies between the first epoch read and the one after the last, unless a
  // phase ends between the two readings of the phase.
  lemma RescaleWithinOne(c: Clock, d: Durations, d': Durations, t1: int, t2: int, t3: int, t4: int, t5: int)
    requires c.Runs(d) && d'.Valid() && c.startTime <= t1 <= t2 <= t3 <= t4 <= t5 && c.Total() != 0
    ensures var c' := c.CheckPoint(d, t1, t2, t3, t4).Set(d', t5);
            && c'.Total() != 0 && c'.GetEpoch(t5) == c.CheckPoint(d, t1, t2, t3, t4).shiftEpoch
            && (c.GetEpoch(t1) <= c'.GetEpoch(t5) <= c.GetEpoch(t4) + 1 <==>
                !(c.GetEpoch(t2) > c.shiftEpoch && c.GetCurrentPhase(d, t1) == REGISTRATION &&
                  c.GetCurrentPhase(d, t3) == EPOCH)
                && !(c.GetEpoch(t1) > c.shiftEpoch && c.GetCurrentPhase(d, t1) == EPOCH &&
                  c.GetCurrentPhase(d, t3) == REGISTRATION))
  {
    var c' := c.CheckPoint(d, t1, t2, t3, t4).Set(d', t5);
    TotalIs(c', d');
    assert Quotient(0, c'.Total()) == 0;
    CheckPointOvershoots(c, d, t1, t2, t3, t4);
    CheckPointFallsBack(c, d, t1, t2, t3, t4);
  }

  // The last instant of cycle q, and the first of the next: the epoch q falls
  // back to 0.
  lemma FallsBackToZero(c: Clock, d: Durations, d': Durations, q: nat) returns (t: int)
    requires c.Runs(d) && d'.Valid() && d.registration > 0 && d.epoch > 0 && c.shiftEpoch == 0 && c.Total() != 0
    ensures c.startTime <= t && c.GetEpoch(t) == q
    ensures var c' := c.CheckPoint(d, t, t + 1, t + 1, t + 1).Set(d', t + 1); c'.Total() != 0 && c'.GetEpoch(t + 1) == 0
  {
    var total := d.registration + d.epoch;
    t := c.startTime + q * total + total - 1;
    InstantIs(c, d, t, q, total - 1);
    assert (q + 1) * total == q * total + total;
    InstantIs(c, d, t + 1, q + 1, 0);
    InstantIs(c.CheckPoint(d, t, t + 1, t + 1, t + 1).Set(d', t + 1), d', t + 1, 0, 0);
  }

  // The last instant of registration in cycle q, and the first after it: the epoch
  // q becomes 2q + 1.
  lemma OvershootsTwice(c: Clock, d: Durations, d': Durations, q: nat) returns (t: int)
    requires c.Runs(d) && d'.Valid() && d.registration > 0 && d.epoch > 0 && c.shiftEpoch == 0 && c.Total() != 0
    ensures c.startTime <= t && c.GetEpoch(t) == q
    ensures var c' := c.CheckPoint(d, t, t, t + 1, t + 1).Set(d', t + 1);
            c'.Total() != 0 && c'.GetEpoch(t + 1) == 2 * q + 1
  {
    t := c.startTime + q * (d.registration + d.epoch) + d.registration - 1;
    InstantIs(c, d, t, q, d.registration - 1);
    InstantIs(c, d, t + 1, q, d.registration);
    var once := c.(shiftEpoch := q);
    InstantIs(once, d, t + 1, q, d.registration);
    InstantIs(c.CheckPoint(d, t, t, t + 1, t + 1).Set(d', t + 1), d', t + 1, 0, 0);
  }
}
