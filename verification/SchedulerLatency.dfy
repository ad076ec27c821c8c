/** On one CPU a queued task is dispatched in time. */
module SchedulerLatency {
  import opened TaskLists
  import opened SchedulerState
  import opened SchedulerSteps
  import opened SchedulerBalance
  import opened SchedulerRuns
  import opened SchedulerFacts

  function Position(q: seq<nat>, t: nat): nat
    requires t in q
  {
    if q[0] == t then 0 else 1 + Position(q[1..], t)
  }

  lemma {:induction false} PositionPrefix(q: seq<nat>, q': seq<nat>, t: nat)
    requires t in q && q <= q'
    ensures t in q' && Position(q', t) == Position(q, t)
  {
    if q[0] != t {
      PositionPrefix(q[1..], q'[1..], t);
    }
  }

  /** The queue of the one CPU at a level. */
  function QueueAt(s: State, p: nat): seq<nat> {
    if RunQueue(0, p) in s.queues then s.queues[RunQueue(0, p)] else []
  }

  /** Nothing of a level better than `p` is queued or runs, and the CPU is in use. */
  ghost predicate Calm(s: State, p: nat) {
    |s.cpus| == 1 && s.cpus[0].current != NONE && (forall l :: 0 <= l < p ==> QueueAt(s, l) == []) &&
    (RunsTask(s, 0) ==> s.tasks[s.cpus[0].current].priority >= p)
  }

  /** Slot `t` is queued at level `p` of the one CPU. */
  ghost predicate WaitsAt(s: State, t: nat, p: nat) {
    t < |s.tasks| && s.tasks[t].state == Runnable && s.tasks[t].priority == p && s.tasks[t].cpu == 0 &&
    t in QueueAt(s, p)
  }

  ghost predicate RunsNow(s: State, t: nat) {
    |s.cpus| == 1 && s.cpus[0].current == t && RunsTask(s, 0)
  }

  /** Ticks until the running task must leave the CPU to a task of level `p`. */
  function Rest(s: State, p: nat): int
    requires |s.cpus| == 1
  {
    if RunsTask(s, 0) &&
    s.tasks[s.cpus[0].current].priority == p then Slice(p) - s.tasks[s.cpus[0].current].slice else 1
  }

  /** Ticks until slot `t` must be dispatched. */
  function Bound(s: State, t: nat, p: nat): int
    requires |s.cpus| == 1 && t in QueueAt(s, p)
  {
    Rest(s, p) + Position(QueueAt(s, p), t) * Slice(p)
  }

  lemma {:induction false} RestPositive(s: State, p: nat)
    requires Inv(s) && |s.cpus| == 1
    ensures 1 <= Rest(s, p) <= Slice(p)
  {
    if RunsTask(s, 0) {
      CpuFacts(s, 0);
      TaskFacts(s, s.cpus[0].current);
    }
  }

  // ------------------------------------------------------------------------------------
  // Sections that only add to the queues
  // ------------------------------------------------------------------------------------

  /** The queues only grow at their ends, and the CPU goes on as before. */
  ghost predicate Adds(s: State, r: State) {
    |s.cpus| == |r.cpus| == 1 && |s.tasks| == |r.tasks| &&
    (forall p :: 0 <= p < LEVELS ==> QueueAt(s, p) <= QueueAt(r, p)) &&
    r.cpus[0].current == s.cpus[0].current &&
    (0 <= s.cpus[0].current < |s.tasks| ==> r.tasks[s.cpus[0].current] == s.tasks[s.cpus[0].current])
  }

  lemma {:induction false} AddsTrans(a: State, b: State, c: State)
    requires Adds(a, b) && Adds(b, c)
    ensures Adds(a, c)
  {
  }

  lemma {:induction false} RouseAdds(s: State, n: Name, t: nat, x: Task, w: Wait)
    requires Inv(s) && |s.cpus| == 1 && n in {SleepingList, BlockedList} && t < |s.tasks| &&
      s.tasks[t].state !in {Running, Zombie}
    ensures n in s.queues && Adds(s, Rouse(s, n, t, x, w))
  {
    NotCurrent(s, t, 0);
  }

  lemma {:induction false} WakeSleepersAdds(s: State, rest: seq<nat>)
    requires Inv(s) && |s.cpus| == 1 && AllIn(s, rest, Sleeping)
    ensures Slots(rest, |s.tasks|) && Adds(s, WakeSleepers(s, rest))
    decreases |rest|
  {
    if rest != [] {
      var t := rest[0];
      TaskFacts(s, t);
      RouseOthers(s, SleepingList, t, s.tasks[t], s.waits[t], rest, Sleeping);
      if s.tasks[t].wakeup <= s.ticks {
        var s1 := Rouse(s, SleepingList, t, s.tasks[t], s.waits[t]);
        RouseInv(s, SleepingList, t, s.tasks[t], s.waits[t]);
        RouseAdds(s, SleepingList, t, s.tasks[t], s.waits[t]);
        WakeSleepersAdds(s1, rest[1..]);
        AddsTrans(s, s1, WakeSleepers(s1, rest[1..]));
      } else {
        WakeSleepersAdds(s, rest[1..]);
      }
    }
  }

  lemma {:induction false} ExpireWaitsAdds(s: State, rest: seq<nat>)
    requires Inv(s) && |s.cpus| == 1 && AllIn(s, rest, Blocked)
    ensures Slots(rest, |s.tasks|) && Adds(s, ExpireWaits(s, rest))
    decreases |rest|
  {
    if rest != [] {
      var t := rest[0];
      if Due(s.tasks[t], s.ticks) {
        var s1 := ExpireOne(s, t);
        ExpireOneInv(s, rest);
        RouseAdds(s, BlockedList, t, s.tasks[t].(channel := 0, result := false, wakeup := 0),
                  Expired(s.tasks[t].wakeup, s.ticks));
        ExpireWaitsAdds(s1, rest[1..]);
        AddsTrans(s, s1, ExpireWaits(s1, rest[1..]));
      } else {
        ExpireWaitsAdds(s, rest[1..]);
      }
    }
  }

  lemma {:induction false} WakesAdds(s: State, channel: nat, rest: seq<nat>, limit: nat)
    requires Inv(s) && |s.cpus| == 1 && AllIn(s, rest, Blocked)
    ensures Slots(rest, |s.tasks|) && Adds(s, Wakes(s, channel, rest, limit))
    decreases |rest|
  {
    if rest != [] && limit > 0 {
      var t := rest[0];
      WakeOneInv(s, rest);
      if s.tasks[t].channel == channel {
        var s1 := WakeOne(s, t);
        RouseAdds(s, BlockedList, t, s.tasks[t].(channel := 0, result := true, wakeup := 0), Woken(s.tasks[t].channel));
        WakesAdds(s1, channel, rest[1..], limit - 1);
        AddsTrans(s, s1, Wakes(s1, channel, rest[1..], limit - 1));
      } else {
        WakesAdds(s, channel, rest[1..], limit);
      }
    }
  }

  lemma {:induction false} TimersAdds(s: State)
    requires Inv(s) && |s.cpus| == 1
    ensures Adds(s, AdvanceTimers(s))
  {
    ListStates(s);
    WakeSleepersAdds(s, s.queues[SleepingList]);
    WakeSleepersInv(s, s.queues[SleepingList]);
    var s1 := WakeSleepers(s, s.queues[SleepingList]);
    ListStates(s1);
    ExpireWaitsAdds(s1, s1.queues[BlockedList]);
    AddsTrans(s, s1, AdvanceTimers(s));
  }

  lemma {:induction false} TickFrontAdds(s: State, smp: bool)
    requires Inv(s) && |s.cpus| == 1
    ensures Adds(s, TickFront(s, 0, smp))
  {
    ClockInv(s, s.ticks + 1, s.lastBalance);
    TimersAdds(s.(ticks := s.ticks + 1));
  }

  // ------------------------------------------------------------------------------------
  // Switching
  // ------------------------------------------------------------------------------------

  /** A queued slot is still queued after a section that only adds. */
  lemma {:induction false} StillWaits(s: State, r: State, t: nat, p: nat)
    requires Inv(s) && Inv(r) && p < LEVELS && WaitsAt(s, t, p) && Adds(s, r)
    ensures WaitsAt(r, t, p) && Bound(r, t, p) == Bound(s, t, p)
  {
    PositionPrefix(QueueAt(s, p), QueueAt(r, p), t);
    QueuedSlots(r, 0, p);
  }

  /** The CPU, free to choose, and no better level in use afterwards: the slot is dispatched or is
      one place further. */
  lemma {:induction false} DispatchOnward(s: State, t: nat, p: nat)
    requires Inv(s) && |s.cpus| == 1 && s.cpus[0].current == NONE && p < LEVELS && WaitsAt(s, t, p)
    requires InBounds(s, 0) && Dispatch(s, 0).Done? && Calm(Dispatch(s, 0).s, p)
    ensures var r := Dispatch(s, 0).s;
      RunsNow(r, t) ||
      (WaitsAt(r, t, p) && Rest(r, p) == Slice(p) && Position(QueueAt(s, p), t) == Position(QueueAt(r, p), t) + 1)
  {
    var l, r := NextLevel(s.queues, 0, 0), Dispatch(s, 0).s;
    NextLevelFirst(s.queues, 0, 0);
    DispatchBest(s, 0);
    QueuedSlots(s, 0, l);
    assert QueueAt(s, l)[0] in QueueAt(s, l);
    assert QueueLength(s.queues, 0, p) > 0;
    assert l == p;
    if QueueAt(s, p)[0] != t {
      assert QueueAt(r, p) == QueueAt(s, p)[1..];
    }
  }

  /** The slot runs, or it is still queued and its bound has fallen by at least `d`. */
  ghost predicate Onward(s: State, r: State, t: nat, p: nat, d: nat)
    requires |s.cpus| == 1 && t in QueueAt(s, p)
  {
    RunsNow(r, t) || (|r.cpus| == 1 && WaitsAt(r, t, p) && Bound(r, t, p) + d <= Bound(s, t, p))
  }

  lemma {:induction false} SwitchOnward(s: State, u: State, t: nat, p: nat)
    requires Inv(s) && |s.cpus| == 1 && p < LEVELS && WaitsAt(s, t, p)
    requires Inv(u) && |u.cpus| == 1 && u.cpus[0].current == NONE && WaitsAt(u, t, p) && QueueAt(s, p) <= QueueAt(u, p)
    requires InBounds(u, 0) && Dispatch(u, 0).Done? && Calm(Dispatch(u, 0).s, p)
    ensures Onward(s, Dispatch(u, 0).s, t, p, 1)
  {
    DispatchOnward(u, t, p);
    PositionPrefix(QueueAt(s, p), QueueAt(u, p), t);
    RestPositive(s, p);
    if !RunsNow(Dispatch(u, 0).s, t) {
      OneLess(Position(QueueAt(s, p), t), Slice(p));
    }
  }

  lemma {:induction false} OneLess(k: nat, n: nat)
    requires k > 0
    ensures n + (k - 1) * n == k * n
  {
  }

  lemma {:induction false} PreemptWaits(s: State, t: nat, p: nat)
    requires Inv(s) && |s.cpus| == 1 && RunsTask(s, 0) && p < LEVELS && WaitsAt(s, t, p)
    ensures var u := Unseat(Enqueue(s, 0, s.cpus[0].current), 0);
      Inv(u) && WaitsAt(u, t, p) && QueueAt(s, p) <= QueueAt(u, p)
  {
    PreemptInv(s, 0);
    CpuFacts(s, 0);
    PositionPrefix(QueueAt(s, p), QueueAt(Unseat(Enqueue(s, 0, s.cpus[0].current), 0), p), t);
  }

  lemma {:induction false} ScheduleOnward(s: State, t: nat, p: nat)
    requires Inv(s) && |s.cpus| == 1 && p < LEVELS && WaitsAt(s, t, p) && InBounds(s, 0)
    requires Schedule(s, 0).Done? && Calm(Schedule(s, 0).s, p)
    ensures Onward(s, Schedule(s, 0).s, t, p, 1)
  {
    if RunsTask(s, 0) {
      var s1 := Enqueue(s, 0, s.cpus[0].current);
      PreemptWaits(s, t, p);
      InvBounds(Unseat(s1, 0), 0);
      assert InBounds(s1, 0);
      DispatchUnseated(s1, 0);
      SwitchOnward(s, Unseat(s1, 0), t, p);
    } else {
      UnseatInv(s, 0);
      DispatchUnseated(s, 0);
      SwitchOnward(s, Unseat(s, 0), t, p);
    }
  }

  /** A tick brings the slot one tick nearer, or onto the CPU. */
  lemma {:induction false} TickOnward(s: State, smp: bool, t: nat, p: nat)
    requires Inv(s) && p < LEVELS && WaitsAt(s, t, p) && Calm(s, p) && Tick(s, 0, smp).Done? &&
      Calm(Tick(s, 0, smp).s, p)
    ensures Onward(s, Tick(s, 0, smp).s, t, p, 1)
  {
    var r := TickFront(s, 0, smp);
    TickFrontAdds(s, smp);
    StillWaits(s, r, t, p);
    TickBackOnward(r, t, p);
  }

  lemma {:induction false} TickBackOnward(s: State, t: nat, p: nat)
    requires Inv(s) && |s.cpus| == 1 && p < LEVELS && WaitsAt(s, t, p) &&
      (RunsTask(s, 0) ==> s.tasks[s.cpus[0].current].priority >= p)
    requires TickBack(s, 0).Done? && Calm(TickBack(s, 0).s, p)
    ensures Onward(s, TickBack(s, 0).s, t, p, 1)
  {
    InvBounds(s, 0);
    if !RunsTask(s, 0) {
      ScheduleOnward(s, t, p);
    } else if Expires(s, 0) {
      Charged(s, 0);
      ScheduleOnward(s, t, p);
    } else {
      NextLevelFirst(s.queues, 0, 0);
      TaskFacts(s, s.cpus[0].current);
      assert QueueLength(s.queues, 0, p) > 0;
      assert QueueAt(Charge(s, 0), p) == QueueAt(s, p);
    }
  }

  /** Sections other than ticks and priority changes do not set the slot back. */
  predicate Ordinary(op: Op) {
    !op.TickOn? && !op.SetLevel?
  }

  /** The running task has been parked and the CPU switches. */
  lemma {:induction false} ParkedOnward(s: State, u: State, t: nat, p: nat)
    requires Inv(s) && |s.cpus| == 1 && p < LEVELS && WaitsAt(s, t, p)
    requires |u.cpus| == 1 && Parked(u, 0) && WaitsAt(u, t, p) && QueueAt(s, p) <= QueueAt(u, p)
    requires Schedule(u, 0).Done? && Calm(Schedule(u, 0).s, p)
    ensures Onward(s, Schedule(u, 0).s, t, p, 0)
  {
    DispatchUnseated(u, 0);
    SwitchOnward(s, Unseat(u, 0), t, p);
  }

  lemma {:induction false} AddsOnward(s: State, r: State, t: nat, p: nat)
    requires Inv(s) && Inv(r) && |s.cpus| == 1 && p < LEVELS && WaitsAt(s, t, p) && Adds(s, r)
    ensures Onward(s, r, t, p, 0)
  {
    StillWaits(s, r, t, p);
  }

  lemma {:induction false} CreateAdds(s: State, op: Op)
    requires Inv(s) && |s.cpus| == 1 && Enabled(s, op) && (op.CreateTask? || op.AbandonSlot? || op.ReserveSlot?)
    ensures Step(s, op).Done? && Adds(s, Step(s, op).s)
  {
    ReservedSlots(s);
    ListStates(s);
    if op.ReserveSlot? {
      if s.queues[FreeList] != [] { NotCurrent(s, s.queues[FreeList][0], 0); }
    } else {
      TaskFacts(s, op.t);
      NotCurrent(s, op.t, 0);
    }
  }

  lemma {:induction false} FreeAdds(s: State, t: nat)
    requires Inv(s) && |s.cpus| == 1 && t < |s.tasks| && Reapable(s, t)
    ensures Adds(s, Free(s, t))
  {
    CpuFacts(s, 0);
  }

  lemma {:induction false} ExitOnward(s: State, t: nat, p: nat)
    requires Inv(s) && |s.cpus| == 1 && p < LEVELS && WaitsAt(s, t, p) && RunsTask(s, 0)
    ensures Onward(s, ExitMark(s, 0), t, p, 0)
  {
    RestPositive(s, p);
    var r := ExitMark(s, 0);
    assert QueueAt(r, p) == QueueAt(s, p);
  }

  lemma {:induction false} OtherOnward(s: State, op: Op, t: nat, p: nat)
    requires Inv(s) && Enabled(s, op) && Ordinary(op) && p < LEVELS && WaitsAt(s, t, p) && Calm(s, p)
    requires Step(s, op).Done? && Calm(Step(s, op).s, p)
    ensures Onward(s, Step(s, op).s, t, p, 0)
  {
    if op.YieldOn? || op.SleepOn? || op.WaitOnChannel? {
      SwitchingOnward(s, op, t, p);
    } else if op.ExitOn? {
      ExitOnward(s, t, p);
    } else {
      AddingOnward(s, op);
      AddsOnward(s, Step(s, op).s, t, p);
    }
  }

  lemma {:induction false} SwitchingOnward(s: State, op: Op, t: nat, p: nat)
    requires Inv(s) && Enabled(s, op) && (op.YieldOn? || op.SleepOn? || op.WaitOnChannel?) && p < LEVELS &&
      WaitsAt(s, t, p) && Calm(s, p)
    requires Step(s, op).Done? && Calm(Step(s, op).s, p)
    ensures Onward(s, Step(s, op).s, t, p, 0)
  {
    InvBounds(s, 0);
    if op.YieldOn? || (op.SleepOn? && op.ticks == 0) {
      ScheduleOnward(s, t, p);
    } else if op.SleepOn? {
      SleepOnward(s, op.ticks, t, p);
    } else if op.channel != 0 && op.timeout != 0 {
      WaitOnward(s, op.channel, op.timeout, t, p);
    }
  }

  lemma {:induction false} AddingOnward(s: State, op: Op)
    requires Inv(s) && Enabled(s, op) && Ordinary(op) && !op.YieldOn? && !op.SleepOn? && !op.WaitOnChannel? &&
      !op.ExitOn?
    requires |s.cpus| == 1 && s.cpus[0].current != NONE && Step(s, op).Done?
    ensures Adds(s, Step(s, op).s)
  {
    ListStates(s);
    match op {
      case WakeChannel(channel, max) => WakesAdds(s, channel, s.queues[BlockedList], Limit(max));
      case JoinTask(id) =>
        var u := FindTask(s.tasks, id, 0);
        if u != NONE && Reapable(s, u) { FreeAdds(s, u); }
      case ReapOne =>
        var u := FirstReapable(s, s.queues[ZombieList]);
        if u != NONE { FreeAdds(s, u); }
      case Boot(_, _) =>
      case _ => CreateAdds(s, op);
    }
  }

  lemma {:induction false} SleepOnward(s: State, ticks: nat, t: nat, p: nat)
    requires Inv(s) && |s.cpus| == 1 && RunsTask(s, 0) && p < LEVELS && WaitsAt(s, t, p) && InBounds(s, 0)
    requires ticks > 0 && Sleep(s, 0, ticks).Done? && Calm(Sleep(s, 0, ticks).s, p)
    ensures Onward(s, Sleep(s, 0, ticks).s, t, p, 0)
  {
    AsleepInv(s, 0, ticks);
    ParkedOnward(s, Asleep(s, 0, ticks), t, p);
  }

  lemma {:induction false} WaitOnward(s: State, channel: nat, timeout: nat, t: nat, p: nat)
    requires Inv(s) && |s.cpus| == 1 && RunsTask(s, 0) && p < LEVELS && WaitsAt(s, t, p) && InBounds(s, 0) &&
      channel != 0 && timeout != 0
    requires WaitOn(s, 0, channel, timeout).Done? && Calm(WaitOn(s, 0, channel, timeout).s, p)
    ensures Onward(s, WaitOn(s, 0, channel, timeout).s, t, p, 0)
  {
    WaitsInv(s, 0, channel, timeout);
    ParkedOnward(s, Waits(s, 0, channel, timeout), t, p);
  }

  // ------------------------------------------------------------------------------------
  // Over runs
  // ------------------------------------------------------------------------------------

  /** The run is possible, nothing better than level `p` comes up in it, and no level changes. */
  ghost predicate CalmRun(s: State, ops: seq<Op>, p: nat)
    requires Inv(s)
    decreases |ops|
  {
    Calm(s, p) && (ops != [] ==>
      !ops[0].SetLevel? && Enabled(s, ops[0]) && Step(s, ops[0]).Done? && CalmRun(Step(s, ops[0]).s, ops[1..], p))
  }

  function Ticks(ops: seq<Op>): nat {
    if ops == [] then 0 else (if ops[0].TickOn? then 1 else 0) + Ticks(ops[1..])
  }

  /** Slot `t` gets the CPU at some point of the run. */
  ghost predicate RunsWithin(s: State, ops: seq<Op>, t: nat)
    requires Inv(s)
    decreases |ops|
  {
    RunsNow(s, t) ||
    (ops != [] && Enabled(s, ops[0]) && Step(s, ops[0]).Done? && RunsWithin(Step(s, ops[0]).s, ops[1..], t))
  }

  lemma {:induction false} StepOnward(s: State, op: Op, t: nat, p: nat)
    requires Inv(s) && Enabled(s, op) && !op.SetLevel? && p < LEVELS && WaitsAt(s, t, p) && Calm(s, p)
    requires Step(s, op).Done? && Calm(Step(s, op).s, p)
    ensures Onward(s, Step(s, op).s, t, p, if op.TickOn? then 1 else 0)
  {
    if op.TickOn? {
      TickOnward(s, op.smp, t, p);
    } else {
      OtherOnward(s, op, t, p);
    }
  }

  lemma {:induction false} RunsWithinBound(s: State, ops: seq<Op>, t: nat, p: nat)
    requires Inv(s) && p < LEVELS && CalmRun(s, ops, p) &&
      (RunsNow(s, t) || (WaitsAt(s, t, p) && Ticks(ops) >= Bound(s, t, p)))
    ensures RunsWithin(s, ops, t)
    decreases |ops|
  {
    if !RunsNow(s, t) {
      RestPositive(s, p);
      if ops != [] {
        assert Calm(Step(s, ops[0]).s, p);
        StepOnward(s, ops[0], t, p);
        RunsWithinBound(Step(s, ops[0]).s, ops[1..], t, p);
      }
    }
  }

  /** A task at position `k` of level `p` is dispatched within (k + 1) slices of that level. */
  lemma {:induction false} DispatchedInTime(s: State, ops: seq<Op>, t: nat, p: nat, k: nat)
    requires Inv(s) && p < LEVELS && CalmRun(s, ops, p) && k < |QueueAt(s, p)| && QueueAt(s, p)[k] == t
    requires Ticks(ops) >= (k + 1) * Slice(p)
    ensures RunsWithin(s, ops, t)
  {
    QueuedSlots(s, 0, p);
    assert t in QueueAt(s, p);
    RestPositive(s, p);
    PositionAt(QueueAt(s, p), k);
    PositionMonotone(Position(QueueAt(s, p), t), k, Slice(p));
    RunsWithinBound(s, ops, t, p);
  }

  lemma {:induction false} PositionAt(q: seq<nat>, k: nat)
    requires k < |q|
    ensures Position(q, q[k]) <= k
  {
    if k > 0 && q[0] != q[k] {
      PositionAt(q[1..], k - 1);
    }
  }

  lemma {:induction false} PositionMonotone(a: nat, b: nat, n: nat)
    requires a <= b
    ensures n + a * n <= (b + 1) * n
  {
    assert (b + 1) * n == n + b * n;
    assert b * n - a * n == (b - a) * n >= 0;
  }
}
