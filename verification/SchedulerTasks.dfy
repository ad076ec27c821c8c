/** What the sections do to the tasks themselves: how a task is created, what it keeps for life and
    what is released of it, how its state changes, how long it sleeps and what its level is. */
module SchedulerTasks {
  import opened TaskLists
  import opened SchedulerState
  import opened SchedulerSteps
  import opened SchedulerBalance
  import opened SchedulerRuns
  import opened SchedulerFacts
  import opened SchedulerWaits

  // ------------------------------------------------------------------------------------
  // The clock
  // ------------------------------------------------------------------------------------

  lemma {:induction false} WakesTicks(s: State, channel: nat, rest: seq<nat>, limit: nat)
    requires Shape(s) && Slots(rest, |s.tasks|)
    ensures Wakes(s, channel, rest, limit).ticks == s.ticks
    decreases |rest|
  {
    if rest != [] && limit > 0 {
      if s.tasks[rest[0]].channel == channel {
        WakesTicks(WakeOne(s, rest[0]), channel, rest[1..], limit - 1);
      } else {
        WakesTicks(s, channel, rest[1..], limit);
      }
    }
  }

  lemma {:induction false} ExpiryTicks(s: State, rest: seq<nat>)
    requires Shape(s) && Slots(rest, |s.tasks|)
    ensures ExpireWaits(s, rest).ticks == s.ticks
    decreases |rest|
  {
    if rest != [] {
      ExpiryTicks(if Due(s.tasks[rest[0]], s.ticks) then ExpireOne(s, rest[0]) else s, rest[1..]);
    }
  }

  lemma {:induction false} SleepersTicks(s: State, rest: seq<nat>)
    requires Shape(s) && Slots(rest, |s.tasks|)
    ensures WakeSleepers(s, rest).ticks == s.ticks
    decreases |rest|
  {
    if rest != [] {
      var t := rest[0];
      SleepersTicks(if s.tasks[t].wakeup <= s.ticks then Rouse(s, SleepingList, t, s.tasks[t], s.waits[t]) else s,
                    rest[1..]);
    }
  }

  /** Time in a section: only a tick moves the clock. */
  lemma {:induction false} StepTicks(s: State, op: Op)
    requires Inv(s) && Enabled(s, op) && Step(s, op).Done? && !op.TickOn?
    ensures Step(s, op).s.ticks == s.ticks
  {
    match op {
      case WakeChannel(channel, max) => ListStates(s); WakesTicks(s, channel, s.queues[BlockedList], Limit(max));
      case YieldOn(c) => InvBounds(s, c); ScheduleNoWaits(s, c);
      case SleepOn(c, n) =>
        InvBounds(s, c);
        if n == 0 { ScheduleNoWaits(s, c); } else { ScheduleNoWaits(Asleep(s, c, n), c); }
      case WaitOnChannel(c, channel, n) =>
        InvBounds(s, c);
        if channel != 0 && n != 0 { ScheduleNoWaits(Waits(s, c, channel, n), c); }
      case _ =>
    }
  }

  lemma {:induction false} TimersTicks(s: State)
    requires Inv(s)
    ensures AdvanceTimers(s).ticks == s.ticks
  {
    ListStates(s);
    SleepersTicks(s, s.queues[SleepingList]);
    WakeSleepersInv(s, s.queues[SleepingList]);
    var s1 := WakeSleepers(s, s.queues[SleepingList]);
    ListStates(s1);
    ExpiryTicks(s1, s1.queues[BlockedList]);
  }

  lemma {:induction false} FrontTicks(s: State, c: nat, smp: bool)
    requires Inv(s)
    ensures TickFront(s, c, smp).ticks == s.ticks + 1
  {
    ClockInv(s, s.ticks + 1, s.lastBalance);
    TimersTicks(s.(ticks := s.ticks + 1));
    var s1 := AdvanceTimers(s.(ticks := s.ticks + 1));
    ClockInv(s1, s1.ticks, s1.ticks);
    BalanceNoWaits(s1.(lastBalance := s1.ticks));
    BalanceNoWaits(BalanceOnce(s1.(lastBalance := s1.ticks)));
  }

  lemma {:induction false} TickClock(s: State, c: nat, smp: bool)
    requires Inv(s) && c < |s.cpus| && Tick(s, c, smp).Done?
    ensures Tick(s, c, smp).s.ticks == s.ticks + 1
  {
    FrontTicks(s, c, smp);
    TickBackNoWaits(TickFront(s, c, smp), c);
  }

  // ------------------------------------------------------------------------------------
  // Scheduling and balancing
  // ------------------------------------------------------------------------------------

  /** The slot can run. */
  predicate CanRun(x: Task) { x.state == Runnable || x.state == Running }

  /** What scheduling and balancing do to a task: one that can run still can, any other is not
      touched. */
  predicate Stirred(x: Task, y: Task) {
    Persists(x, y) && (!CanRun(x) ==> y == x) &&
    (CanRun(x) ==> CanRun(y) && y.wakeup == x.wakeup && y.channel == x.channel && y.result == x.result)
  }

  ghost predicate StirredAt(s: State, r: State, t: nat) {
    t < |s.tasks| == |r.tasks| && Stirred(s.tasks[t], r.tasks[t])
  }

  /** What stands in the queues of the CPU can run, and so can its current task if it does. */
  ghost predicate QueueReady(s: State, c: nat) {
    Shape(s) && c < |s.cpus| &&
    (forall l, x :: 0 <= l < LEVELS && x in s.queues[RunQueue(c, l)] ==>
      x < |s.tasks| && s.tasks[x].state == Runnable) &&
    (RunsTask(s, c) ==> s.tasks[s.cpus[c].current].priority < LEVELS)
  }

  lemma {:induction false} InvReady(s: State, c: nat)
    requires Inv(s) && c < |s.cpus|
    ensures QueueReady(s, c) && InBounds(s, c)
  {
    InvBounds(s, c);
    forall l, x | 0 <= l < LEVELS && x in s.queues[RunQueue(c, l)]
      ensures x < |s.tasks| && s.tasks[x].state == Runnable
    {
      QueuedSlots(s, c, l);
    }
    if RunsTask(s, c) { TaskFacts(s, s.cpus[c].current); }
  }

  lemma {:induction false} DispatchStirs(s: State, c: nat, t: nat)
    requires Shape(s) && InBounds(s, c) && t < |s.tasks| && Dispatch(s, c).Done?
    requires forall l, x :: 0 <= l < LEVELS && x in s.queues[RunQueue(c, l)] ==> x < |s.tasks| && CanRun(s.tasks[x])
    ensures StirredAt(s, Dispatch(s, c).s, t)
  {
    var l := NextLevel(s.queues, c, 0);
    if l < LEVELS {
      NextLevelFirst(s.queues, c, 0);
      var q := s.queues[RunQueue(c, l)];
      assert q[0] in q;
    }
  }

  lemma {:induction false} ScheduleStirs(s: State, c: nat, t: nat)
    requires QueueReady(s, c) && InBounds(s, c) && t < |s.tasks| && Schedule(s, c).Done?
    ensures StirredAt(s, Schedule(s, c).s, t)
  {
    if RunsTask(s, c) {
      var s1 := Enqueue(s, c, s.cpus[c].current);
      DispatchStirs(s1, c, t);
      assert StirredAt(s, s1, t);
    } else {
      DispatchStirs(s, c, t);
    }
  }

  lemma {:induction false} BalanceStirs(s: State, t: nat)
    requires Inv(s) && t < |s.tasks|
    ensures StirredAt(s, BalanceOnce(s), t)
  {
    InvSlots(s);
    CpuSearch(s, 0);
    var u := FirstMovable(s, 0);
    if u != NONE { TaskFacts(s, u); }
  }

  lemma {:induction false} TickBackStirs(s: State, c: nat, t: nat)
    requires Inv(s) && c < |s.cpus| && TickBack(s, c).Done? && t < |s.tasks|
    ensures StirredAt(s, TickBack(s, c).s, t)
  {
    InvReady(s, c);
    if !RunsTask(s, c) {
      ScheduleStirs(s, c, t);
    } else if Expires(s, c) {
      Charged(s, c);
      ScheduleStirs(s, c, t);
    }
  }

  // ------------------------------------------------------------------------------------
  // Timers
  // ------------------------------------------------------------------------------------

  lemma {:induction false} SleepingListed(s: State, u: nat)
    requires Inv(s) && u < |s.tasks| && s.tasks[u].state == Sleeping
    ensures u in s.queues[SleepingList]
  {
    assert Unlocked(s, 0);
    assert Listed(s.queues, Homes(s.tasks, s.reserved)[u], u);
  }

  /** The timers wake the sleepers and end the waits whose time has come, and touch nobody else. */
  ghost predicate Timed(s: State, r: State, t: nat) {
    t < |s.tasks| == |r.tasks| && Persists(s.tasks[t], r.tasks[t]) &&
    match s.tasks[t].state
    case Sleeping => if s.tasks[t].wakeup <= s.ticks then r.tasks[t].state == Runnable else r.tasks[t] == s.tasks[t]
    case Blocked => if Due(s.tasks[t], s.ticks) then r.tasks[t].state == Runnable else r.tasks[t] == s.tasks[t]
    case _ => r.tasks[t] == s.tasks[t]
  }

  lemma {:induction false} TimersTime(s: State, t: nat)
    requires Inv(s) && t < |s.tasks|
    ensures Timed(s, AdvanceTimers(s), t)
  {
    ListStates(s);
    SleepersEffect(s, s.queues[SleepingList], t);
    WakeSleepersInv(s, s.queues[SleepingList]);
    var s1 := WakeSleepers(s, s.queues[SleepingList]);
    ListStates(s1);
    if s.tasks[t].state == Sleeping { SleepingListed(s, t); }
    if s1.tasks[t].state == Blocked { BlockedListed(s1, t); }
    ExpireEffect(s1, s1.queues[BlockedList], t);
  }

  /** A tick: the timers, then scheduling and balancing. */
  ghost predicate Ticked(s: State, r: State, t: nat) {
    t < |s.tasks| == |r.tasks| && Persists(s.tasks[t], r.tasks[t]) &&
    match s.tasks[t].state
    case Sleeping => if s.tasks[t].wakeup <= r.ticks then CanRun(r.tasks[t]) else r.tasks[t] == s.tasks[t]
    case Blocked => if Due(s.tasks[t], r.ticks) then CanRun(r.tasks[t]) else r.tasks[t] == s.tasks[t]
    case _ => Stirred(s.tasks[t], r.tasks[t])
  }

  lemma {:induction false} TickTicks(s: State, c: nat, smp: bool, t: nat)
    requires Inv(s) && c < |s.cpus| && Tick(s, c, smp).Done? && t < |s.tasks|
    ensures Ticked(s, Tick(s, c, smp).s, t) && Tick(s, c, smp).s.ticks == s.ticks + 1
  {
    TickClock(s, c, smp);
    ClockInv(s, s.ticks + 1, s.lastBalance);
    var s0 := s.(ticks := s.ticks + 1);
    TimersTicks(s0);
    TimersTime(s0, t);
    FrontStirs(s, c, smp, t);
    TickBackStirs(TickFront(s, c, smp), c, t);
  }

  lemma {:induction false} FrontStirs(s: State, c: nat, smp: bool, t: nat)
    requires Inv(s) && t < |s.tasks|
    ensures Inv(s.(ticks := s.ticks + 1))
    ensures StirredAt(AdvanceTimers(s.(ticks := s.ticks + 1)), TickFront(s, c, smp), t)
  {
    ClockInv(s, s.ticks + 1, s.lastBalance);
    var s1 := AdvanceTimers(s.(ticks := s.ticks + 1));
    ClockInv(s1, s1.ticks, s1.ticks);
    BalanceTwiceStirs(s1.(lastBalance := s1.ticks), t);
  }

  lemma {:induction false} BalanceTwiceStirs(s: State, t: nat)
    requires Inv(s) && t < |s.tasks|
    ensures StirredAt(s, BalancePeriodic(s), t)
  {
    BalanceStirs(s, t);
    BalanceStirs(BalanceOnce(s), t);
  }

  // ------------------------------------------------------------------------------------
  // Every section
  // ------------------------------------------------------------------------------------

  /** The section is started by the task itself, on the CPU that runs it. */
  predicate By(s: State, op: Op, t: nat) {
    (op.SleepOn? || op.WaitOnChannel? || op.ExitOn?) && op.c < |s.cpus| && s.cpus[op.c].current == t
  }

  /** What a section does to a slot.  Creation and boot make tasks of unused slots; a task that can
      run goes on doing so unless it sleeps, waits or exits itself; a sleeper sleeps until its tick;
      a waiter waits for a wake or its deadline; a zombie is released with what it was given. */
  ghost predicate Lives(s: State, op: Op, r: State, t: nat) {
    t < |s.tasks| == |r.tasks| &&
    var x, y := s.tasks[t], r.tasks[t];
    match x.state
    case Unused => y.state == Unused || (op.CreateTask? && op.t == t) || op.Boot?
    case Runnable => SameTask(x, y) && CanRun(y)
    case Running =>
      SameTask(x, y) &&
      (CanRun(y) ||
       (By(s, op, t) && y.state == if op.SleepOn? then Sleeping else if op.ExitOn? then Zombie else Blocked))
    case Sleeping =>
      SameTask(x, y) &&
      if op.TickOn? && x.wakeup <= r.ticks then CanRun(y) else y.state == Sleeping && y.wakeup == x.wakeup
    case Blocked =>
      SameTask(x, y) &&
      ((y.state == Blocked && y.channel == x.channel && y.wakeup == x.wakeup) ||
       (CanRun(y) && ((op.TickOn? && Due(x, r.ticks)) || (op.WakeChannel? && op.channel == x.channel))))
    case Zombie =>
      (y == x || (op.SetLevel? && y == x.(priority := y.priority))) ||
      ((op.JoinTask? || op.ReapOne?) && y.state == Unused &&
       r.released == s.released + [Release(x.id, x.stack, x.space)])
  }

  lemma {:induction false} TickLives(s: State, c: nat, smp: bool, t: nat)
    requires Inv(s) && c < |s.cpus| && Tick(s, c, smp).Done? && t < |s.tasks|
    ensures Lives(s, TickOn(c, smp), Tick(s, c, smp).s, t)
    ensures Persists(s.tasks[t], Tick(s, c, smp).s.tasks[t])
  {
    TickTicks(s, c, smp, t);
  }

  lemma {:induction false} WakeLives(s: State, channel: nat, max: nat, t: nat)
    requires Inv(s) && t < |s.tasks|
    ensures Lives(s, WakeChannel(channel, max), Wake(s, channel, max), t)
    ensures Persists(s.tasks[t], Wake(s, channel, max).tasks[t])
  {
    ListStates(s);
    WakesEffect(s, channel, s.queues[BlockedList], Limit(max), t);
    ChosenIn(s.tasks, channel, s.queues[BlockedList], Limit(max));
  }

  lemma {:induction false} ParkReady(s: State, c: nat, n: Name, x: Task, w: Wait)
    requires Inv(s) && c < |s.cpus| && RunsTask(s, c) && n in {SleepingList, BlockedList} && !CanRun(x)
    ensures n in s.queues && QueueReady(Park(s, c, n, x, w), c) && InBounds(Park(s, c, n, x, w), c)
  {
    InvReady(s, c);
    var r := Park(s, c, n, x, w);
    forall l, u | 0 <= l < LEVELS && u in r.queues[RunQueue(c, l)]
      ensures u < |r.tasks| && r.tasks[u].state == Runnable
    {
      assert u in s.queues[RunQueue(c, l)];
    }
  }

  /** A task that parks is what it was made; everybody else is stirred. */
  lemma {:induction false} ParkStirs(s: State, c: nat, n: Name, x: Task, w: Wait, t: nat)
    requires Inv(s) && c < |s.cpus| && RunsTask(s, c) && n in {SleepingList, BlockedList} && !CanRun(x) && t < |s.tasks|
    ensures n in s.queues && InBounds(Park(s, c, n, x, w), c)
    ensures Schedule(Park(s, c, n, x, w), c).Done? ==>
      var r := Schedule(Park(s, c, n, x, w), c).s;
      |r.tasks| == |s.tasks| && if t == s.cpus[c].current then r.tasks[t] == x else Stirred(s.tasks[t], r.tasks[t])
  {
    ParkReady(s, c, n, x, w);
    if Schedule(Park(s, c, n, x, w), c).Done? { ScheduleStirs(Park(s, c, n, x, w), c, t); }
  }

  /** A sleep: the task is due that many ticks from now. */
  lemma {:induction false} SleepBegins(s: State, c: nat, n: nat)
    requires Inv(s) && c < |s.cpus| && RunsTask(s, c) && n > 0 && Step(s, SleepOn(c, n)).Done?
    ensures var t, r := s.cpus[c].current, Step(s, SleepOn(c, n)).s;
      SleepsUntil(r, t, s.ticks + n) && r.ticks == s.ticks && Persists(s.tasks[t], r.tasks[t])
  {
    SleepStirs(s, c, n, s.cpus[c].current);
    StepTicks(s, SleepOn(c, n));
  }

  ghost predicate SleepsUntil(s: State, t: nat, due: nat) {
    t < |s.tasks| && s.tasks[t].state == Sleeping && s.tasks[t].wakeup == due
  }

  /** Everybody on a sleep. */
  lemma {:induction false} YieldStirs(s: State, c: nat, t: nat)
    requires Inv(s) && c < |s.cpus| && RunsTask(s, c) && t < |s.tasks| && Step(s, SleepOn(c, 0)).Done?
    ensures var r := Step(s, SleepOn(c, 0)).s; |r.tasks| == |s.tasks| && Stirred(s.tasks[t], r.tasks[t])
  {
    InvReady(s, c);
    ScheduleStirs(s, c, t);
  }

  lemma {:induction false} SleepStirs(s: State, c: nat, n: nat, t: nat)
    requires Inv(s) && c < |s.cpus| && RunsTask(s, c) && t < |s.tasks| && Step(s, SleepOn(c, n)).Done?
    ensures var r := Step(s, SleepOn(c, n)).s;
      |r.tasks| == |s.tasks| &&
      if n > 0 && t == s.cpus[c].current then r.tasks[t] == s.tasks[t].(state := Sleeping, wakeup := s.ticks + n)
      else Stirred(s.tasks[t], r.tasks[t])
  {
    if n == 0 {
      YieldStirs(s, c, t);
    } else {
      var u := s.cpus[c].current;
      var x := s.tasks[u].(state := Sleeping, wakeup := s.ticks + n);
      ParkStirs(s, c, SleepingList, x, s.waits[u], t);
      SleepIs(s, c, n, x);
    }
  }

  lemma {:induction false} SleepIs(s: State, c: nat, n: nat, x: Task)
    requires Inv(s) && c < |s.cpus| && RunsTask(s, c) && n > 0 && SleepingList in s.queues
    requires x == s.tasks[s.cpus[c].current].(state := Sleeping, wakeup := s.ticks + n)
    requires InBounds(Park(s, c, SleepingList, x, s.waits[s.cpus[c].current]), c)
    ensures Step(s, SleepOn(c, n)) == Schedule(Park(s, c, SleepingList, x, s.waits[s.cpus[c].current]), c)
  {
    InvBounds(s, c);
    assert Asleep(s, c, n) == Park(s, c, SleepingList, x, s.waits[s.cpus[c].current]);
    assert Step(s, SleepOn(c, n)) == Sleep(s, c, n);
  }

  lemma {:induction false} SleepLives(s: State, c: nat, n: nat, t: nat)
    requires Inv(s) && c < |s.cpus| && RunsTask(s, c) && t < |s.tasks| && Step(s, SleepOn(c, n)).Done?
    ensures Lives(s, SleepOn(c, n), Step(s, SleepOn(c, n)).s, t)
    ensures Persists(s.tasks[t], Step(s, SleepOn(c, n)).s.tasks[t])
  {
    SleepStirs(s, c, n, t);
  }

  lemma {:induction false} WaitLives(s: State, c: nat, channel: nat, n: nat, t: nat)
    requires Inv(s) && c < |s.cpus| && RunsTask(s, c) && t < |s.tasks| && Step(s, WaitOnChannel(c, channel, n)).Done?
    ensures Lives(s, WaitOnChannel(c, channel, n), Step(s, WaitOnChannel(c, channel, n)).s, t)
    ensures Persists(s.tasks[t], Step(s, WaitOnChannel(c, channel, n)).s.tasks[t])
  {
    if channel != 0 && n != 0 {
      var u := s.cpus[c].current;
      var x := s.tasks[u].(state := Blocked, channel := channel, result := false, wakeup := Deadline(s, n));
      ParkStirs(s, c, BlockedList, x, Waiting(channel, Deadline(s, n)), t);
    }
  }

  /** The sections that change one slot at most. */
  lemma {:induction false} OtherLives(s: State, op: Op, t: nat)
    requires Inv(s) && Enabled(s, op) && t < |s.tasks| && TaskAt(s, t)
    requires op.Boot? || op.ReserveSlot? || op.AbandonSlot? || op.ExitOn? || op.JoinTask? || op.ReapOne?
    ensures Step(s, op).Done? && Lives(s, op, Step(s, op).s, t)
    ensures s.tasks[t].state != Unused && Step(s, op).s.tasks[t].state != Unused ==>
      Persists(s.tasks[t], Step(s, op).s.tasks[t])
  {
    ListStates(s);
  }

  /** Every section, every slot. */
  lemma {:induction false} StepLives(s: State, op: Op, t: nat)
    requires Inv(s) && Enabled(s, op) && Step(s, op).Done? && t < |s.tasks|
    ensures Lives(s, op, Step(s, op).s, t)
    ensures var x, y := s.tasks[t], Step(s, op).s.tasks[t];
      x.state != Unused && y.state != Unused && !(op.SetLevel? && op.id == x.id) ==> y.priority == x.priority
  {
    TaskFacts(s, t);
    match op {
      case TickOn(c, smp) => TickLives(s, c, smp, t);
      case WakeChannel(channel, max) => WakeLives(s, channel, max, t);
      case YieldOn(c) => InvReady(s, c); ScheduleStirs(s, c, t);
      case SleepOn(c, n) => SleepLives(s, c, n, t);
      case WaitOnChannel(c, channel, n) => WaitLives(s, c, channel, n, t);
      case CreateTask(u, _, _, _, _, _, _) => ReservedSlots(s);
      case SetLevel(id, p) => FindFacts(s, id); LevelEffect(s, id, p);
      case _ => OtherLives(s, op, t);
    }
  }

  lemma {:induction false} FindFacts(s: State, id: nat)
    requires Inv(s)
    ensures var t := FindTask(s.tasks, id, 0);
      if t == NONE then forall u :: 0 <= u < |s.tasks| && s.tasks[u].state != Unused ==> s.tasks[u].id != id
      else 0 <= t < |s.tasks| && s.tasks[t].state != Unused && s.tasks[t].id == id && s.tasks[t].priority < LEVELS
  {
    FindFrom(s.tasks, id, 0);
    var t := FindTask(s.tasks, id, 0);
    if t != NONE { TaskFacts(s, t); }
  }

  lemma {:induction false} FindFrom(tasks: seq<Task>, id: nat, i: nat)
    requires i <= |tasks|
    ensures var t := FindTask(tasks, id, i);
      if t == NONE then forall u :: i <= u < |tasks| && tasks[u].state != Unused ==> tasks[u].id != id
      else i <= t < |tasks| && tasks[t].state != Unused && tasks[t].id == id
    decreases |tasks| - i
  {
    if i < |tasks| && !(tasks[i].state != Unused && tasks[i].id == id) { FindFrom(tasks, id, i + 1); }
  }

  /** A new level: the task with the id has it, whatever it does; if it was queued at another level it
      is the last at the new one, if it runs its slice begins anew, and nobody else is touched. */
  lemma {:induction false} LevelEffect(s: State, id: nat, p: nat)
    requires Inv(s)
    ensures Step(s, SetLevel(id, p)).Done?
    ensures var r := Step(s, SetLevel(id, p)).s;
      var level := if p < LEVELS then p else NORMAL;
      (forall u :: 0 <= u < |s.tasks| && (s.tasks[u].state == Unused || s.tasks[u].id != id) ==>
        r.tasks[u] == s.tasks[u]) &&
      (forall t :: 0 <= t < |s.tasks| && s.tasks[t].state != Unused && s.tasks[t].id == id ==>
        LevelSet(s, r, t, level))
  {
    FindFacts(s, id);
    var t := FindTask(s.tasks, id, 0);
    if t != NONE {
      TaskFacts(s, t);
      OneTask(s, t);
      LevelSetAt(s, t, p);
    }
  }

  lemma {:induction false} OneTask(s: State, t: nat)
    requires Inv(s) && t < |s.tasks| && s.tasks[t].state != Unused
    ensures forall u :: 0 <= u < |s.tasks| && u != t && s.tasks[u].state != Unused ==> s.tasks[u].id != s.tasks[t].id
  {
    assert Unlocked(s, 0);
    forall u | 0 <= u < |s.tasks| && u != t && s.tasks[u].state != Unused ensures s.tasks[u].id != s.tasks[t].id {
      assert Differ(s.tasks, u, t);
    }
  }

  /** Task `t` has been given a level. */
  ghost predicate LevelSet(s: State, r: State, t: nat, level: nat) {
    Shape(s) && Shape(r) && t < |s.tasks| == |r.tasks| && level < LEVELS && |r.cpus| == |s.cpus| &&
    var x, y := s.tasks[t], r.tasks[t];
    if x.priority == level then r == s
    else if x.state == Runnable then
      x.cpu < |s.cpus| && x.priority < LEVELS &&
      y == x.(priority := level, slice := 0, node := s.cpus[x.cpu].node) &&
      r.queues[RunQueue(x.cpu, level)] == s.queues[RunQueue(x.cpu, level)] + [t] &&
      r.queues[RunQueue(x.cpu, x.priority)] == Without(s.queues[RunQueue(x.cpu, x.priority)], t) &&
      forall n :: n in s.queues && n != RunQueue(x.cpu, level) && n != RunQueue(x.cpu, x.priority) ==>
        r.queues[n] == s.queues[n]
    else
      y == x.(priority := level, slice := if x.state == Running then 0 else x.slice) && r.queues == s.queues
  }

  lemma {:induction false} LevelSetAt(s: State, t: nat, p: nat)
    requires Shape(s) && TaskAt(s, t) && s.tasks[t].state != Unused
    ensures s.tasks[t].priority < LEVELS && LevelSet(s, SetPriority(s, t, p), t, if p < LEVELS then p else NORMAL)
    ensures forall u :: 0 <= u < |s.tasks| && u != t ==> SetPriority(s, t, p).tasks[u] == s.tasks[u]
  {
  }

  // ------------------------------------------------------------------------------------
  // Sleeping over runs
  // ------------------------------------------------------------------------------------

  /** The task is in the queue of its CPU at its level, or its CPU runs it. */
  ghost predicate IsAwake(s: State, t: nat) {
    t < |s.tasks| &&
    var x := s.tasks[t];
    (x.state == Runnable && RunQueue(x.cpu, x.priority) in s.queues && t in s.queues[RunQueue(x.cpu, x.priority)]) ||
    (x.state == Running && x.cpu < |s.cpus| && s.cpus[x.cpu].current == t)
  }

  lemma {:induction false} AwakeFacts(s: State, t: nat)
    requires Inv(s) && t < |s.tasks| && CanRun(s.tasks[t])
    ensures IsAwake(s, t)
  {
    assert Unlocked(s, 0);
    assert TaskAt(s, t);
    assert Listed(s.queues, Homes(s.tasks, s.reserved)[t], t);
  }

  /** One section: the sleeper sleeps on below its tick, and the tick that reaches it wakes it. */
  lemma {:induction false} StepSleeps(s: State, op: Op, t: nat, due: nat)
    requires Inv(s) && Enabled(s, op) && Step(s, op).Done? && SleepsUntil(s, t, due) && s.ticks < due
    ensures var r := Step(s, op).s;
      if r.ticks < due then SleepsUntil(r, t, due) else op.TickOn? && r.ticks == due == s.ticks + 1 && IsAwake(r, t)
  {
    StepLives(s, op, t);
    if op.TickOn? {
      TickClock(s, op.c, op.smp);
      if s.ticks + 1 == due { AwakeFacts(Step(s, op).s, t); }
    } else {
      StepTicks(s, op);
    }
  }

  /** In the run the task sleeps until the tick `due`, and that tick wakes it. */
  ghost predicate WokenOnTime(s: State, ops: seq<Op>, t: nat, due: nat)
    requires Inv(s)
    decreases |ops|
  {
    ops != [] && SleepsUntil(s, t, due) && Enabled(s, ops[0]) && Step(s, ops[0]).Done? &&
    var r := Step(s, ops[0]).s;
    if s.ticks + 1 == due && ops[0].TickOn? then r.ticks == due && IsAwake(r, t) else WokenOnTime(r, ops[1..], t, due)
  }

  /** Over any run a sleeper sleeps on while the clock is below its tick, and is awake after the
      first tick that reaches it. */
  lemma {:induction false} SleepOverRun(s: State, ops: seq<Op>, r: State, t: nat, due: nat)
    requires Inv(s) && Reaches(s, ops, r) && SleepsUntil(s, t, due) && s.ticks < due
    ensures if r.ticks < due then SleepsUntil(r, t, due) else WokenOnTime(s, ops, t, due)
    decreases |ops|
  {
    if ops != [] {
      var s1 := Step(s, ops[0]).s;
      StepSleeps(s, ops[0], t, due);
      if s1.ticks < due {
        if ops[0].TickOn? { TickClock(s, ops[0].c, ops[0].smp); }
        SleepOverRun(s1, ops[1..], r, t, due);
      } else {
        TicksGrow(s1, ops[1..], r);
      }
    }
  }

  lemma {:induction false} TicksGrow(s: State, ops: seq<Op>, r: State)
    requires Inv(s) && Reaches(s, ops, r)
    ensures s.ticks <= r.ticks
    decreases |ops|
  {
    if ops != [] {
      if ops[0].TickOn? { TickClock(s, ops[0].c, ops[0].smp); } else { StepTicks(s, ops[0]); }
      TicksGrow(Step(s, ops[0]).s, ops[1..], r);
    }
  }

  // ------------------------------------------------------------------------------------
  // Creation and release
  // ------------------------------------------------------------------------------------

  /** A CPU on which a task with this mask may be put: online, and in the mask if that has an online
      CPU. */
  ghost predicate Eligible(cpus: seq<Cpu>, mask: set<nat>, c: nat) {
    c < |cpus| && cpus[c].online && (c in mask || forall d: nat :: d < |cpus| && cpus[d].online ==> d !in mask)
  }

  /** Of those, the ones on the wished node if there are any. */
  ghost predicate Wished(cpus: seq<Cpu>, mask: set<nat>, node: nat, c: nat) {
    Eligible(cpus, mask, c) &&
    (node == NODE_ANY || cpus[c].node == node ||
     forall d: nat :: Eligible(cpus, mask, d) && d < |cpus| ==> cpus[d].node != node)
  }

  /** Of those, one with the least load. */
  ghost predicate WellPlaced(cpus: seq<Cpu>, loads: seq<nat>, mask: set<nat>, node: nat, c: nat)
    requires |loads| == |cpus|
  {
    Wished(cpus, mask, node, c) &&
    forall d: nat :: Wished(cpus, mask, node, d) && d < |cpus| && c < |cpus| ==> loads[c] <= loads[d]
  }

  lemma {:induction false} AllowedIs(cpus: seq<Cpu>, mask: set<nat>)
    ensures forall c: nat :: c in Allowed(cpus, mask) <==> Eligible(cpus, mask, c)
    ensures Allowed(cpus, Allowed(cpus, mask)) == Allowed(cpus, mask)
  {
    if mask * OnlineMask(cpus) == {} {
      forall d: nat | d < |cpus| && cpus[d].online ensures d !in mask {
        assert d in mask ==> d in mask * OnlineMask(cpus);
      }
    } else {
      var d :| d in mask * OnlineMask(cpus);
      assert d < |cpus| && cpus[d].online && d in mask;
    }
  }

  lemma {:induction false} SelectPlaces(cpus: seq<Cpu>, loads: seq<nat>, mask: set<nat>, node: nat, local: nat)
    requires |cpus| == |loads| && OnlineMask(cpus) != {}
    ensures var r := SelectBest(cpus, loads, mask, node, local);
      r != NONE && 0 <= r && WellPlaced(cpus, loads, mask, node, r)
  {
    AllowedIs(cpus, mask);
    SelectAllowed(cpus, loads, mask, node, local);
    var a := Allowed(cpus, mask);
    BestIsLeast(cpus, loads, a, node, node != NODE_ANY, local, |cpus|);
    BestIsLeast(cpus, loads, a, node, false, local, |cpus|);
    assert forall d: nat :: d < |cpus| ==> (Candidate(cpus, a, node, false, d) <==> Eligible(cpus, mask, d));
    assert forall d: nat :: d < |cpus| && Eligible(cpus, mask, d) ==>
      (Candidate(cpus, a, node, node != NODE_ANY, d) <==> node == NODE_ANY || cpus[d].node == node);
  }

  /** A creation: the slot holds a runnable task with the next id, the stack and the space it was
      given, the level, the online part of the mask and the node if there is such a node; it is the
      last of its level on a well-placed CPU; and nobody else is touched. */
  lemma {:induction false} CreateEffect(s: State, t: nat, priority: nat, mask: set<nat>, preferred: nat, local: nat,
                                        stack: nat, space: nat)
    requires Inv(s) && t in s.reserved
    ensures t < |s.tasks| && Step(s, CreateTask(t, priority, mask, preferred, local, stack, space)).Done?
    ensures var r := Step(s, CreateTask(t, priority, mask, preferred, local, stack, space)).s;
      Created(s, r, t, if priority < LEVELS then priority else NORMAL, mask,
              if preferred < s.nodes then preferred else NODE_ANY, stack, space)
  {
    ReservedSlots(s);
    assert Unlocked(s, 0);
    assert s.boot in OnlineMask(s.cpus);
    AllowedIs(s.cpus, mask);
    SelectPlaces(s.cpus, Loads(s), Allowed(s.cpus, mask), NodeWish(s, preferred), local);
    AllowedIs(s.cpus, Allowed(s.cpus, mask));
  }

  ghost predicate Created(s: State, r: State, t: nat, level: nat, mask: set<nat>, node: nat, stack: nat, space: nat) {
    Shape(s) && Shape(r) && t < |s.tasks| == |r.tasks| && level < LEVELS && |r.cpus| == |s.cpus| &&
    var x := r.tasks[t];
    x.id == s.nextId && r.nextId == s.nextId + 1 && x.state == Runnable && x.stack == stack && x.space == space &&
    x.priority == level && x.preferred == node && (forall c: nat :: c in x.affinity <==> Eligible(s.cpus, mask, c)) &&
    x.slice == 0 && x.wakeup == 0 && x.channel == 0 && !x.result && t !in r.reserved && r.waits[t] == NoWait &&
    WellPlaced(s.cpus, Loads(s), mask, node, x.cpu) && x.cpu < |s.cpus| && x.node == s.cpus[x.cpu].node &&
    r.queues == s.queues[RunQueue(x.cpu, level) := s.queues[RunQueue(x.cpu, level)] + [t]] &&
    forall u :: 0 <= u < |s.tasks| && u != t ==> r.tasks[u] == s.tasks[u]
  }

  /** Boot makes a running task of the first free slot: the next id, the space it was given, no stack
      of its own, every online CPU in its mask. */
  lemma {:induction false} BootEffect(s: State, c: nat, space: nat)
    requires Inv(s) && CanBoot(s, c)
    ensures s.queues[FreeList][0] < |s.tasks| && Step(s, Boot(c, space)).Done?
    ensures var t, r := s.queues[FreeList][0], Step(s, Boot(c, space)).s;
      var x := r.tasks[t];
      x.id == s.nextId && r.nextId == s.nextId + 1 && x.state == Running && x.stack == 0 && x.space == space &&
      x.priority == NORMAL && x.preferred == NODE_ANY && x.cpu == c && x.node == s.cpus[c].node &&
      (forall d: nat :: d in x.affinity <==> d < |s.cpus| && s.cpus[d].online) && x.slice == 0 &&
      r.cpus[c].current == t && r.queues == s.queues[FreeList := s.queues[FreeList][1..]] &&
      forall u :: 0 <= u < |s.tasks| && u != t ==> r.tasks[u] == s.tasks[u]
  {
    ListStates(s);
  }

  /** Whoever has this id, now or in the release log, has this stack and space. */
  ghost predicate Given(s: State, id: nat, stack: nat, space: nat) {
    id < s.nextId &&
    (forall t :: 0 <= t < |s.tasks| && s.tasks[t].state != Unused && s.tasks[t].id == id ==>
      s.tasks[t].stack == stack && s.tasks[t].space == space) &&
    (forall i :: 0 <= i < |s.released| && s.released[i].id == id ==> s.released[i] == Release(id, stack, space))
  }

  lemma {:induction false} NextIdGrows(s: State, op: Op)
    requires Inv(s) && Enabled(s, op) && Step(s, op).Done?
    ensures s.nextId <= Step(s, op).s.nextId
  {
    match op {
      case TickOn(c, smp) => TickIds(s, c, smp);
      case WakeChannel(channel, max) => ListStates(s); WakesIds(s, channel, s.queues[BlockedList], Limit(max));
      case _ =>
    }
  }

  lemma {:induction false} WakesIds(s: State, channel: nat, rest: seq<nat>, limit: nat)
    requires Shape(s) && Slots(rest, |s.tasks|)
    ensures Wakes(s, channel, rest, limit).nextId == s.nextId
    decreases |rest|
  {
    if rest != [] && limit > 0 {
      if s.tasks[rest[0]].channel == channel {
        WakesIds(WakeOne(s, rest[0]), channel, rest[1..], limit - 1);
      } else {
        WakesIds(s, channel, rest[1..], limit);
      }
    }
  }

  lemma {:induction false} SleepersIds(s: State, rest: seq<nat>)
    requires Shape(s) && Slots(rest, |s.tasks|)
    ensures WakeSleepers(s, rest).nextId == s.nextId
    decreases |rest|
  {
    if rest != [] {
      var t := rest[0];
      SleepersIds(if s.tasks[t].wakeup <= s.ticks then Rouse(s, SleepingList, t, s.tasks[t], s.waits[t]) else s,
                  rest[1..]);
    }
  }

  lemma {:induction false} ExpiryIds(s: State, rest: seq<nat>)
    requires Shape(s) && Slots(rest, |s.tasks|)
    ensures ExpireWaits(s, rest).nextId == s.nextId
    decreases |rest|
  {
    if rest != [] {
      ExpiryIds(if Due(s.tasks[rest[0]], s.ticks) then ExpireOne(s, rest[0]) else s, rest[1..]);
    }
  }

  lemma {:induction false} TimersIds(s: State)
    requires Inv(s)
    ensures AdvanceTimers(s).nextId == s.nextId
  {
    ListStates(s);
    SleepersIds(s, s.queues[SleepingList]);
    WakeSleepersInv(s, s.queues[SleepingList]);
    var s1 := WakeSleepers(s, s.queues[SleepingList]);
    ListStates(s1);
    ExpiryIds(s1, s1.queues[BlockedList]);
  }

  lemma {:induction false} TickIds(s: State, c: nat, smp: bool)
    requires Inv(s) && c < |s.cpus| && Tick(s, c, smp).Done?
    ensures Tick(s, c, smp).s.nextId == s.nextId
  {
    ClockInv(s, s.ticks + 1, s.lastBalance);
    TimersIds(s.(ticks := s.ticks + 1));
    var s1 := AdvanceTimers(s.(ticks := s.ticks + 1));
    ClockInv(s1, s1.ticks, s1.ticks);
    BackIds(TickFront(s, c, smp), c);
  }

  lemma {:induction false} BackIds(s: State, c: nat)
    requires Inv(s) && c < |s.cpus| && TickBack(s, c).Done?
    ensures TickBack(s, c).s.nextId == s.nextId
  {
    InvBounds(s, c);
    if RunsTask(s, c) && Expires(s, c) { Charged(s, c); }
  }

  lemma {:induction false} GivenStep(s: State, op: Op, id: nat, stack: nat, space: nat)
    requires Inv(s) && Enabled(s, op) && Step(s, op).Done? && Given(s, id, stack, space)
    ensures Given(Step(s, op).s, id, stack, space)
  {
    var r := Step(s, op).s;
    NextIdGrows(s, op);
    StepLog(s, op);
    forall t | 0 <= t < |r.tasks| && r.tasks[t].state != Unused && r.tasks[t].id == id
      ensures r.tasks[t].stack == stack && r.tasks[t].space == space
    {
      StepLives(s, op, t);
      if s.tasks[t].state == Unused { NewTask(s, op, t); }
    }
  }

  /** A slot that comes into use has a new id. */
  lemma {:induction false} NewTask(s: State, op: Op, t: nat)
    requires Inv(s) && Enabled(s, op) && Step(s, op).Done? && t < |s.tasks| && s.tasks[t].state == Unused
    requires Lives(s, op, Step(s, op).s, t) && Step(s, op).s.tasks[t].state != Unused
    ensures Step(s, op).s.tasks[t].id == s.nextId
  {
    if op.CreateTask? {
      CreateEffect(s, t, op.priority, op.mask, op.preferred, op.local, op.stack, op.space);
    } else if CanBoot(s, op.c) {
      BootEffect(s, op.c, op.space);
    }
  }

  lemma {:induction false} GivenRun(s: State, ops: seq<Op>, r: State, id: nat, stack: nat, space: nat)
    requires Inv(s) && Reaches(s, ops, r) && Given(s, id, stack, space)
    ensures Given(r, id, stack, space)
    decreases |ops|
  {
    if ops != [] {
      GivenStep(s, ops[0], id, stack, space);
      GivenRun(Step(s, ops[0]).s, ops[1..], r, id, stack, space);
    }
  }

  /** What is released for a task is what it was given: in every run after its creation, whoever has
      its id has its stack and space, and they are what the release log holds for it. */
  lemma {:induction false} ReleasedAsGiven(s: State, t: nat, priority: nat, mask: set<nat>, preferred: nat, local: nat,
                                           stack: nat, space: nat, s1: State, ops: seq<Op>, r: State)
    requires Inv(s) && t in s.reserved
    requires Step(s, CreateTask(t, priority, mask, preferred, local, stack, space)) == Done(s1)
    requires Reaches(s1, ops, r)
    ensures Given(r, s.nextId, stack, space)
  {
    CreateEffect(s, t, priority, mask, preferred, local, stack, space);
    StepLog(s, CreateTask(t, priority, mask, preferred, local, stack, space));
    IdsBelow(s);
    GivenRun(s1, ops, r, s.nextId, stack, space);
  }

  lemma {:induction false} IdsBelow(s: State)
    requires Inv(s)
    ensures forall t :: 0 <= t < |s.tasks| && s.tasks[t].state != Unused ==> s.tasks[t].id < s.nextId
    ensures forall i :: 0 <= i < |s.released| ==> s.released[i].id < s.nextId
  {
    assert Unlocked(s, 0);
    forall t | 0 <= t < |s.tasks| && s.tasks[t].state != Unused ensures s.tasks[t].id < s.nextId {
      assert TaskAt(s, t);
    }
  }

  // ------------------------------------------------------------------------------------
  // Slices and the balancing interval
  // ------------------------------------------------------------------------------------

  /** No CPU switches and no running task is touched. */
  ghost predicate Seated(s: State, r: State) {
    |r.cpus| == |s.cpus| && |r.tasks| == |s.tasks| && r.boot == s.boot && r.bootstrapped == s.bootstrapped &&
    (forall c :: 0 <= c < |s.cpus| ==> r.cpus[c].current == s.cpus[c].current) &&
    forall t :: 0 <= t < |s.tasks| && s.tasks[t].state == Running ==> r.tasks[t] == s.tasks[t]
  }

  /** No task changes its CPU. */
  ghost predicate SameCpus(s: State, r: State) {
    |r.tasks| == |s.tasks| && r.lastBalance == s.lastBalance &&
    forall t :: 0 <= t < |s.tasks| ==> r.tasks[t].cpu == s.tasks[t].cpu
  }

  lemma {:induction false} SleepersSeated(s: State, rest: seq<nat>)
    requires Inv(s) && AllIn(s, rest, Sleeping)
    ensures Slots(rest, |s.tasks|) && Seated(s, WakeSleepers(s, rest)) && SameCpus(s, WakeSleepers(s, rest))
    decreases |rest|
  {
    if rest != [] {
      var t := rest[0];
      TaskFacts(s, t);
      RouseOthers(s, SleepingList, t, s.tasks[t], s.waits[t], rest, Sleeping);
      if s.tasks[t].wakeup <= s.ticks {
        RouseInv(s, SleepingList, t, s.tasks[t], s.waits[t]);
        SleepersSeated(Rouse(s, SleepingList, t, s.tasks[t], s.waits[t]), rest[1..]);
      } else {
        SleepersSeated(s, rest[1..]);
      }
    }
  }

  lemma {:induction false} ExpirySeated(s: State, rest: seq<nat>)
    requires Inv(s) && AllIn(s, rest, Blocked)
    ensures Slots(rest, |s.tasks|) && Seated(s, ExpireWaits(s, rest)) && SameCpus(s, ExpireWaits(s, rest))
    decreases |rest|
  {
    if rest != [] {
      var t := rest[0];
      TaskFacts(s, t);
      if Due(s.tasks[t], s.ticks) {
        ExpireOneInv(s, rest);
        ExpirySeated(ExpireOne(s, t), rest[1..]);
      } else {
        ExpirySeated(s, rest[1..]);
      }
    }
  }

  lemma {:induction false} TimersSeated(s: State)
    requires Inv(s)
    ensures Seated(s, AdvanceTimers(s)) && SameCpus(s, AdvanceTimers(s))
  {
    ListStates(s);
    SleepersSeated(s, s.queues[SleepingList]);
    WakeSleepersInv(s, s.queues[SleepingList]);
    var s1 := WakeSleepers(s, s.queues[SleepingList]);
    ListStates(s1);
    ExpirySeated(s1, s1.queues[BlockedList]);
  }

  lemma {:induction false} BalanceSeated(s: State)
    requires Inv(s)
    ensures Seated(s, BalanceOnce(s))
  {
    InvSlots(s);
    CpuSearch(s, 0);
  }

  lemma {:induction false} FrontSeated(s: State, c: nat, smp: bool)
    requires Inv(s)
    ensures Seated(s, TickFront(s, c, smp))
  {
    ClockInv(s, s.ticks + 1, s.lastBalance);
    TimersSeated(s.(ticks := s.ticks + 1));
    var s1 := AdvanceTimers(s.(ticks := s.ticks + 1));
    ClockInv(s1, s1.ticks, s1.ticks);
    var s2 := s1.(lastBalance := s1.ticks);
    BalanceSeated(s2);
    BalanceSeated(BalanceOnce(s2));
  }

  /** The running task of a CPU is charged with the tick, and goes on with its slice; unless the
      slice is used up, when it gets a new one behind the others of its level; or a task of a better
      level takes the CPU. */
  ghost predicate ChargedOne(s: State, r: State, c: nat)
    requires c < |s.cpus| == |r.cpus| && |r.tasks| == |s.tasks| && RunsTask(s, c)
  {
    var t := s.cpus[c].current;
    var x, y := s.tasks[t], r.tasks[t];
    if x.slice + 1 >= Slice(x.priority) then CanRun(y) && y.slice == 0
    else if r.cpus[c].current == t then y == x.(slice := x.slice + 1)
    else
      y.state == Runnable && y.slice == 0 && 0 <= r.cpus[c].current < |r.tasks| &&
      r.tasks[r.cpus[c].current].priority < x.priority
  }

  lemma {:induction false} BackCharges(s: State, c: nat)
    requires Inv(s) && c < |s.cpus| && TickBack(s, c).Done? && RunsTask(s, c)
    ensures ChargedOne(s, TickBack(s, c).s, c)
  {
    var t := s.cpus[c].current;
    InvReady(s, c);
    TaskFacts(s, t);
    if Expires(s, c) {
      Charged(s, c);
      RequeueCharges(s, c);
    }
  }

  lemma {:induction false} RequeueCharges(s: State, c: nat)
    requires Inv(s) && QueueReady(s, c) && InBounds(s, c) && RunsTask(s, c) && Expires(s, c)
    requires TaskAt(s, s.cpus[c].current) && Schedule(s, c).Done?
    ensures ChargedOne(s, Schedule(s, c).s, c)
  {
    var t := s.cpus[c].current;
    var p := s.tasks[t].priority;
    CpuFacts(s, c);
    var s1 := Enqueue(s, c, t);
    NextLevelFirst(s1.queues, c, 0);
    NextLevelFirst(s.queues, c, 0);
    var l := NextLevel(s1.queues, c, 0);
    assert QueueLength(s1.queues, c, p) > 0;
    QueuedSlots(s, c, l);
    if l < p {
      assert s1.queues[RunQueue(c, l)] == s.queues[RunQueue(c, l)];
      var f := s.queues[RunQueue(c, l)][0];
      assert f in s.queues[RunQueue(c, l)];
    }
  }

  lemma {:induction false} TickCharges(s: State, c: nat, smp: bool)
    requires Inv(s) && c < |s.cpus| && Tick(s, c, smp).Done? && RunsTask(s, c)
    ensures ChargedOne(s, Tick(s, c, smp).s, c)
  {
    FrontSeated(s, c, smp);
    BackCharges(TickFront(s, c, smp), c);
  }

  /** The tick balances: it is the boot CPU's on a machine with several CPUs, and the last balancing
      is sixteen ticks ago. */
  predicate Balances(s: State, c: nat, smp: bool) {
    c == s.boot && s.bootstrapped && |s.cpus| > 1 && smp && s.ticks + 1 >= s.lastBalance + 16
  }

  lemma {:induction false} ScheduleCpus(s: State, c: nat)
    requires Inv(s) && c < |s.cpus| && InBounds(s, c) && Schedule(s, c).Done?
    ensures SameCpus(s, Schedule(s, c).s)
  {
    CpuFacts(s, c);
  }

  lemma {:induction false} BackCpus(s: State, c: nat)
    requires Inv(s) && c < |s.cpus| && TickBack(s, c).Done?
    ensures SameCpus(s, TickBack(s, c).s)
  {
    InvReady(s, c);
    if RunsTask(s, c) && !Expires(s, c) {
      assert TickBack(s, c).s == Charge(s, c);
    } else {
      if RunsTask(s, c) { Charged(s, c); }
      ScheduleCpus(s, c);
    }
  }

  lemma {:induction false} FrontCpus(s: State, c: nat, smp: bool)
    requires Inv(s)
    ensures if Balances(s, c, smp) then TickFront(s, c, smp).lastBalance == s.ticks + 1
            else SameCpus(s, TickFront(s, c, smp))
  {
    ClockInv(s, s.ticks + 1, s.lastBalance);
    var s0 := s.(ticks := s.ticks + 1);
    TimersSeated(s0);
    TimersTicks(s0);
    var s1 := AdvanceTimers(s0);
    ClockInv(s1, s1.ticks, s1.ticks);
  }

  /** A tick moves tasks to other CPUs only when it balances, and takes note of the time. */
  lemma {:induction false} TickBalances(s: State, c: nat, smp: bool)
    requires Inv(s) && c < |s.cpus| && Tick(s, c, smp).Done?
    ensures if Balances(s, c, smp) then Tick(s, c, smp).s.lastBalance == s.ticks + 1
            else SameCpus(s, Tick(s, c, smp).s)
  {
    FrontCpus(s, c, smp);
    BackCpus(TickFront(s, c, smp), c);
  }
}
