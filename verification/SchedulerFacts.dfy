/** What holds in every run of the scheduler. */
module SchedulerFacts {
  import opened TaskLists
  import opened SchedulerState
  import opened SchedulerSteps
  import opened SchedulerBalance
  import opened SchedulerRuns

  // ------------------------------------------------------------------------------------
  // Every reachable state
  // ------------------------------------------------------------------------------------

  /** State `r` is reached from `s` by the sections `ops`, one after the other. */
  ghost predicate Reaches(s: State, ops: seq<Op>, r: State)
    requires Inv(s)
    decreases |ops|
  {
    if ops == [] then r == s
    else Enabled(s, ops[0]) && Step(s, ops[0]).Done? && Reaches(Step(s, ops[0]).s, ops[1..], r)
  }

  lemma {:induction false} RunKeepsInv(s: State, ops: seq<Op>, r: State)
    requires Inv(s) && Reaches(s, ops, r)
    ensures Inv(r) && Alike(s, r)
    decreases |ops|
  {
    if ops != [] {
      RunKeepsInv(Step(s, ops[0]).s, ops[1..], r);
    }
  }

  /** The slots fill the free list in order; CPUs as configured, nothing runs. */
  ghost function Start(slots: nat, cpus: seq<Cpu>, boot: nat, nodes: nat): State {
    State(ResetTable(slots, boot), cpus, FreeQueues(|cpus|, slots), 0, 1, boot, false, nodes, 0, {}, Unwaited(slots),
          {}, [])
  }

  function ResetTable(slots: nat, boot: nat): seq<Task> { seq(slots, _ => ResetTask(boot)) }

  function Unwaited(slots: nat): seq<Wait> { seq(slots, _ => NoWait) }

  function FirstSlots(n: nat): (q: seq<nat>)
    ensures |q| == n && forall i :: 0 <= i < n ==> q[i] == i
  {
    if n == 0 then [] else FirstSlots(n - 1) + [n - 1]
  }

  function FreeQueues(cpus: nat, n: nat): map<Name, seq<nat>> {
    map m | m in Names(cpus) :: if m == FreeList then FirstSlots(n) else []
  }

  function Names(cpus: nat): set<Name> {
    {FreeList, SleepingList, BlockedList, ZombieList} + (set c, l | 0 <= c < cpus && 0 <= l < LEVELS :: RunQueue(c, l))
  }

  ghost predicate Configured(cpus: seq<Cpu>, boot: nat) {
    boot < |cpus| && cpus[boot].online && forall c :: 0 <= c < |cpus| ==> cpus[c].current == NONE && cpus[c].queued == 0
  }

  lemma {:induction false} NamesAre(cpus: nat, n: Name)
    ensures n in Names(cpus) <==> IsName(n, cpus)
  {
    if n.RunQueue? && IsName(n, cpus) {
      assert RunQueue(n.cpu, n.level) in Names(cpus);
    }
  }

  lemma {:induction false} StartPlaced(slots: nat, cpus: seq<Cpu>, boot: nat, nodes: nat)
    ensures var s := Start(slots, cpus, boot, nodes);
      Placed(Homes(s.tasks, s.reserved), s.queues)
  {
    var s := Start(slots, cpus, boot, nodes);
    var home := Homes(s.tasks, s.reserved);
    forall n | n in s.queues ensures Member(home, s.queues[n], n) {
      if n == FreeList {
        assert forall i :: 0 <= i < slots ==> s.queues[n][i] == i;
      }
    }
    forall x | 0 <= x < |home| ensures Listed(s.queues, home[x], x) {
      assert s.queues[FreeList][x] == x;
    }
  }

  lemma {:induction false} StartInv(slots: nat, cpus: seq<Cpu>, boot: nat, nodes: nat)
    requires Configured(cpus, boot)
    ensures Inv(Start(slots, cpus, boot, nodes))
  {
    var s := Start(slots, cpus, boot, nodes);
    forall n ensures n in s.queues <==> IsName(n, |cpus|) {
      NamesAre(|cpus|, n);
    }
    StartPlaced(slots, cpus, boot, nodes);
    forall c | 0 <= c < |cpus| ensures CpuAt(s, c) {
      assert forall l :: 0 <= l < LEVELS ==> QueueLength(s.queues, c, l) == 0;
    }
    forall t | 0 <= t < slots ensures TaskAt(s, t) {
    }
    forall t, u | 0 <= t < slots && 0 <= u < slots ensures Differ(s.tasks, t, u) {
    }
  }

  /** How often a slot is on a list. */
  function Times(q: seq<nat>, t: nat): nat {
    if q == [] then 0 else (if q[0] == t then 1 else 0) + Times(q[1..], t)
  }

  lemma {:induction false} TimesDistinct(q: seq<nat>, t: nat)
    requires Distinct(q)
    ensures Times(q, t) == if t in q then 1 else 0
  {
    if q != [] {
      TimesDistinct(q[1..], t);
      assert t in q <==> t == q[0] || t in q[1..];
    }
  }

  /** In every reachable state a slot is once on the list that its state names and on no other;
      if its state names none it is on no list, and then it runs on exactly its CPU or is being
      created.  A live task's CPU is online and in its mask, and every count is exact. */
  lemma {:induction false} ReachableLists(slots: nat, cpus: seq<Cpu>, boot: nat, nodes: nat, ops: seq<Op>, r: State,
                                          t: nat, n: Name)
    requires Configured(cpus, boot) && Inv(Start(slots, cpus, boot, nodes)) &&
      Reaches(Start(slots, cpus, boot, nodes), ops, r)
    requires t < slots && IsName(n, |cpus|)
    ensures n in r.queues && t < |r.tasks| && |r.cpus| == |cpus|
    ensures Times(r.queues[n], t) == if HomeOf(r.tasks[t], t in r.reserved) == On(n) then 1 else 0
    ensures r.tasks[t].state == Running ==>
              forall c :: 0 <= c < |cpus| ==> (r.cpus[c].current == t <==> c == r.tasks[t].cpu)
    ensures r.tasks[t].state != Unused ==>
              r.tasks[t].cpu < |cpus| && r.cpus[r.tasks[t].cpu].online && r.tasks[t].cpu in r.tasks[t].affinity &&
              t !in r.reserved
    ensures forall c :: 0 <= c < |cpus| ==> r.cpus[c].queued == Queued(r.queues, c)
  {
    RunKeepsInv(Start(slots, cpus, boot, nodes), ops, r);
    SlotOnList(r, t, n);
    SlotOnCpu(r, t);
  }

  lemma {:induction false} SlotOnCpu(s: State, t: nat)
    requires Inv(s) && t < |s.tasks|
    ensures s.tasks[t].state == Running ==>
        forall c :: 0 <= c < |s.cpus| ==> (s.cpus[c].current == t <==> c == s.tasks[t].cpu)
    ensures s.tasks[t].state != Unused ==>
              s.tasks[t].cpu < |s.cpus| && s.cpus[s.tasks[t].cpu].online && s.tasks[t].cpu in s.tasks[t].affinity &&
              t !in s.reserved
    ensures forall c :: 0 <= c < |s.cpus| ==> s.cpus[c].queued == Queued(s.queues, c)
  {
    TaskFacts(s, t);
    forall c | 0 <= c < |s.cpus|
      ensures s.cpus[c].queued == Queued(s.queues, c) && (s.cpus[c].current == t ==> c == s.tasks[t].cpu)
    {
      CpuFacts(s, c);
    }
  }

  lemma {:induction false} SlotOnList(s: State, t: nat, n: Name)
    requires Inv(s) && t < |s.tasks| && n in s.queues
    ensures Times(s.queues[n], t) == if HomeOf(s.tasks[t], t in s.reserved) == On(n) then 1 else 0
  {
    assert Unlocked(s, 0);
    var home := Homes(s.tasks, s.reserved);
    assert Member(home, s.queues[n], n) && Listed(s.queues, home[t], t);
    TimesDistinct(s.queues[n], t);
  }

  // ------------------------------------------------------------------------------------
  // Dispatch follows priorities
  // ------------------------------------------------------------------------------------

  /** The CPU runs a task and no better level has one queued. */
  ghost predicate BestRuns(s: State, c: nat) {
    c < |s.cpus| && RunsTask(s, c) &&
    forall l :: 0 <= l < s.tasks[s.cpus[c].current].priority ==> QueueLength(s.queues, c, l) == 0
  }

  lemma {:induction false} ScheduleBest(s: State, c: nat)
    requires Inv(s) && c < |s.cpus| && InBounds(s, c) && Schedule(s, c).Done?
    ensures BestRuns(Schedule(s, c).s, c)
  {
    var s1 := if RunsTask(s, c) then Enqueue(s, c, s.cpus[c].current) else s;
    if RunsTask(s, c) {
      PreemptInv(s, c);
      InvBounds(Unseat(s1, c), c);
      DispatchUnseated(s1, c);
      DispatchBest(Unseat(s1, c), c);
    } else {
      UnseatInv(s, c);
      DispatchUnseated(s, c);
      DispatchBest(Unseat(s, c), c);
    }
  }

  lemma {:induction false} DispatchBest(s: State, c: nat)
    requires Inv(s) && c < |s.cpus| && InBounds(s, c) && s.cpus[c].current == NONE && Dispatch(s, c).Done?
    ensures BestRuns(Dispatch(s, c).s, c)
  {
    var l := NextLevel(s.queues, c, 0);
    NextLevelFirst(s.queues, c, 0);
    var q := s.queues[RunQueue(c, l)];
    assert q[0] in q;
    QueuedSlots(s, c, l);
    var r := Dispatch(s, c).s;
    forall k | 0 <= k < l ensures QueueLength(r.queues, c, k) == 0 {
      assert QueueLength(s.queues, c, k) == 0;
    }
  }

  /** Each tick and each yield ends with the best: no queued task of the CPU has a strictly higher
      priority than the running one. */
  lemma {:induction false} TickAndYieldBest(s: State, c: nat, op: Op)
    requires Inv(s) && Enabled(s, op) && (op == YieldOn(c) || (op.TickOn? && op.c == c)) && Step(s, op).Done?
    ensures BestRuns(Step(s, op).s, c)
  {
    if op.YieldOn? {
      InvBounds(s, c);
      ScheduleBest(s, c);
    } else {
      var r := TickFront(s, c, op.smp);
      InvBounds(r, c);
      if !RunsTask(r, c) {
        ScheduleBest(r, c);
      } else if Expires(r, c) {
        Charged(r, c);
        ScheduleBest(r, c);
      } else {
        TaskFacts(r, r.cpus[c].current);
        NextLevelFirst(r.queues, c, 0);
      }
    }
  }

  // ------------------------------------------------------------------------------------
  // Exactly-once release
  // ------------------------------------------------------------------------------------

  predicate Logged(log: seq<Release>, id: nat) {
    exists i :: 0 <= i < |log| && log[i].id == id
  }

  /** What a section may do to the release log: nothing, or add one task that has exited, sits on
      no CPU and is not in the log yet. */
  ghost predicate LogStep(s: State, r: State)
    requires |r.tasks| == |s.tasks|
  {
    r.released == s.released ||
    exists t ::
      0 <= t < |s.tasks| && s.tasks[t].state == Zombie && s.tasks[t].id in s.exited &&
      !Logged(s.released, s.tasks[t].id) &&
                (forall c :: 0 <= c < |s.cpus| ==> s.cpus[c].current != t) &&
                r.released == s.released + [Release(s.tasks[t].id, s.tasks[t].stack, s.tasks[t].space)] &&
                r.tasks[t].state == Unused
  }

  lemma {:induction false} FreeLog(s: State, t: nat)
    requires Inv(s) && t < |s.tasks| && Reapable(s, t)
    ensures LogStep(s, Free(s, t))
  {
    TaskFacts(s, t);
    forall c | 0 <= c < |s.cpus| ensures s.cpus[c].current != t {
      CpuFacts(s, c);
    }
  }

  lemma {:induction false} WakeSleepersLog(s: State, rest: seq<nat>)
    requires Shape(s) && Slots(rest, |s.tasks|)
    ensures WakeSleepers(s, rest).released == s.released
    decreases |rest|
  {
    if rest != [] {
      var t := rest[0];
      WakeSleepersLog(if s.tasks[t].wakeup <= s.ticks then Rouse(s, SleepingList, t, s.tasks[t], s.waits[t]) else s,
                      rest[1..]);
    }
  }

  lemma {:induction false} ExpireWaitsLog(s: State, rest: seq<nat>)
    requires Shape(s) && Slots(rest, |s.tasks|)
    ensures ExpireWaits(s, rest).released == s.released
    decreases |rest|
  {
    if rest != [] {
      ExpireWaitsLog(if Due(s.tasks[rest[0]], s.ticks) then ExpireOne(s, rest[0]) else s, rest[1..]);
    }
  }

  lemma {:induction false} WakesLog(s: State, channel: nat, rest: seq<nat>, limit: nat)
    requires Shape(s) && Slots(rest, |s.tasks|)
    ensures Wakes(s, channel, rest, limit).released == s.released
    decreases |rest|
  {
    if rest != [] && limit > 0 {
      if s.tasks[rest[0]].channel == channel {
        WakesLog(WakeOne(s, rest[0]), channel, rest[1..], limit - 1);
      } else {
        WakesLog(s, channel, rest[1..], limit);
      }
    }
  }

  lemma {:induction false} TimersLog(s: State)
    requires Inv(s)
    ensures AdvanceTimers(s).released == s.released
  {
    ListStates(s);
    WakeSleepersLog(s, s.queues[SleepingList]);
    WakeSleepersInv(s, s.queues[SleepingList]);
    var s1 := WakeSleepers(s, s.queues[SleepingList]);
    ListStates(s1);
    ExpireWaitsLog(s1, s1.queues[BlockedList]);
  }

  lemma {:induction false} TickFrontLog(s: State, c: nat, smp: bool)
    requires Inv(s)
    ensures TickFront(s, c, smp).released == s.released
  {
    ClockInv(s, s.ticks + 1, s.lastBalance);
    TimersLog(s.(ticks := s.ticks + 1));
    var s1 := AdvanceTimers(s.(ticks := s.ticks + 1));
    ClockInv(s1, s1.ticks, s1.ticks);
  }

  lemma {:induction false} TickLog(s: State, c: nat, smp: bool)
    requires Inv(s) && c < |s.cpus| && Tick(s, c, smp).Done?
    ensures Tick(s, c, smp).s.released == s.released
  {
    TickFrontLog(s, c, smp);
    TickBackLog(TickFront(s, c, smp), c);
  }

  lemma {:induction false} TickBackLog(s: State, c: nat)
    requires Inv(s) && c < |s.cpus| && TickBack(s, c).Done?
    ensures TickBack(s, c).s.released == s.released
  {
    InvBounds(s, c);
    if RunsTask(s, c) && Expires(s, c) { Charged(s, c); }
  }

  lemma {:induction false} KeepsLog(s: State, op: Op)
    requires Inv(s) && Enabled(s, op) && Step(s, op).Done? && !op.JoinTask? && !op.ReapOne?
    ensures Step(s, op).s.released == s.released
  {
    match op {
      case TickOn(c, smp) => TickLog(s, c, smp);
      case WakeChannel(channel, max) =>
        ListStates(s);
        WakesLog(s, channel, s.queues[BlockedList], Limit(max));
      case _ =>
    }
  }

  /** Every section respects the log. */
  lemma {:induction false} StepLog(s: State, op: Op)
    requires Inv(s) && Enabled(s, op) && Step(s, op).Done?
    ensures LogStep(s, Step(s, op).s)
  {
    match op {
      case JoinTask(id) =>
        var t := FindTask(s.tasks, id, 0);
        if t != NONE && Reapable(s, t) { FreeLog(s, t); }
      case ReapOne =>
        ListStates(s);
        var t := FirstReapable(s, s.queues[ZombieList]);
        if t != NONE { FreeLog(s, t); }
      case _ => KeepsLog(s, op);
    }
  }

  /** A join succeeds when it releases the task. */
  ghost predicate JoinSucceeds(s: State, id: nat)
    requires Inv(s)
  {
    var t := FindTask(s.tasks, id, 0);
    t != NONE && Reapable(s, t)
  }

  /** Over any run the log only grows, and no id is in it twice. */
  lemma {:induction false} LogGrows(s: State, ops: seq<Op>, r: State)
    requires Inv(s) && Reaches(s, ops, r)
    ensures s.released <= r.released
    ensures forall i, j :: 0 <= i < j < |r.released| ==> r.released[i].id != r.released[j].id
    decreases |ops|
  {
    RunKeepsInv(s, ops, r);
    assert Unlocked(r, 0);
    if ops != [] {
      StepLog(s, ops[0]);
      LogGrows(Step(s, ops[0]).s, ops[1..], r);
    }
  }

  /** Once a task has been released, by a join or by the reaper, no join for its id succeeds any
      more, in any run. */
  lemma {:induction false} JoinOnce(s: State, ops: seq<Op>, r: State, id: nat)
    requires Inv(s) && Logged(s.released, id) && Reaches(s, ops, r)
    ensures Inv(r) && !JoinSucceeds(r, id) && Logged(r.released, id)
  {
    LogGrows(s, ops, r);
    RunKeepsInv(s, ops, r);
    var i :| 0 <= i < |s.released| && s.released[i].id == id;
    assert r.released[i].id == id;
    LoggedIsGone(r, id, i);
  }

  /** A join that succeeds releases the task. */
  lemma {:induction false} JoinLogs(s: State, id: nat)
    requires Inv(s) && JoinSucceeds(s, id)
    ensures Logged(Join(s, id).released, id)
  {
    assert Join(s, id).released[|s.released|].id == id;
  }

  lemma {:induction false} LoggedIsGone(s: State, id: nat, i: nat)
    requires Inv(s) && i < |s.released| && s.released[i].id == id
    ensures FindTask(s.tasks, id, 0) == NONE
  {
    var t := FindTask(s.tasks, id, 0);
    if t != NONE {
      TaskFacts(s, t);
    }
  }
}
