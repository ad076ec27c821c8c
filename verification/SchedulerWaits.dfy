/** Channel waits: who ends them, in which order, and when. */
module SchedulerWaits {
  import opened TaskLists
  import opened SchedulerState
  import opened SchedulerSteps
  import opened SchedulerRuns
  import opened SchedulerFacts

  /** The waiters of a list that a wake with this limit takes: the first ones on the channel. */
  function Chosen(tasks: seq<Task>, channel: nat, rest: seq<nat>, limit: nat): seq<nat>
    requires Slots(rest, |tasks|)
    decreases |rest|
  {
    if rest == [] || limit == 0 then []
    else if tasks[rest[0]].channel == channel then [rest[0]] + Chosen(tasks, channel, rest[1..], limit - 1)
    else Chosen(tasks, channel, rest[1..], limit)
  }

  /** All waiters of a list on the channel. */
  function OnChannel(tasks: seq<Task>, channel: nat, rest: seq<nat>): seq<nat>
    requires Slots(rest, |tasks|)
    decreases |rest|
  {
    if rest == [] then []
    else (if tasks[rest[0]].channel == channel then [rest[0]] else []) + OnChannel(tasks, channel, rest[1..])
  }

  /** First come, first served, up to the limit. */
  lemma {:induction false} ChosenFifo(tasks: seq<Task>, channel: nat, rest: seq<nat>, limit: nat)
    requires Slots(rest, |tasks|)
    ensures var all := OnChannel(tasks, channel, rest);
      Chosen(tasks, channel, rest, limit) == if limit < |all| then all[..limit] else all
    decreases |rest|
  {
    if rest != [] {
      if limit > 0 && tasks[rest[0]].channel == channel {
        ChosenFifo(tasks, channel, rest[1..], limit - 1);
      } else if limit > 0 {
        ChosenFifo(tasks, channel, rest[1..], limit);
      }
    }
  }

  lemma {:induction false} ChosenIn(tasks: seq<Task>, channel: nat, rest: seq<nat>, limit: nat)
    requires Slots(rest, |tasks|)
    ensures forall x :: x in Chosen(tasks, channel, rest, limit) ==> x in rest && tasks[x].channel == channel
    decreases |rest|
  {
    if rest != [] && limit > 0 {
      ChosenIn(tasks, channel, rest[1..], limit);
      ChosenIn(tasks, channel, rest[1..], limit - 1);
    }
  }

  /** Only the slots of the list matter to the choice. */
  lemma {:induction false} ChosenSame(a: seq<Task>, b: seq<Task>, channel: nat, rest: seq<nat>, limit: nat)
    requires |a| == |b| && Slots(rest, |a|) && forall i :: 0 <= i < |rest| ==> a[rest[i]].channel == b[rest[i]].channel
    ensures Chosen(a, channel, rest, limit) == Chosen(b, channel, rest, limit)
    decreases |rest|
  {
    if rest != [] && limit > 0 {
      ChosenSame(a, b, channel, rest[1..], limit);
      ChosenSame(a, b, channel, rest[1..], limit - 1);
    }
  }

  /** Slot `t` is as it was, also in the histories. */
  predicate Untouched(s: State, r: State, t: nat) {
    t < |s.tasks| == |r.tasks| == |s.waits| == |r.waits| && r.tasks[t] == s.tasks[t] && r.waits[t] == s.waits[t]
  }

  ghost predicate WokenBy(r: State, t: nat, channel: nat) {
    t < |r.tasks| == |r.waits| && r.waits[t] == Woken(channel) && r.tasks[t].result && r.tasks[t].state == Runnable
  }

  ghost predicate ExpiredAt(r: State, t: nat, deadline: nat) {
    t < |r.tasks| == |r.waits| && 0 < deadline <= r.ticks && r.waits[t] == Expired(deadline, r.ticks) &&
    !r.tasks[t].result &&
    r.tasks[t].state == Runnable
  }

  lemma {:induction false} RouseElsewhere(s: State, n: Name, t: nat, x: Task, w: Wait, u: nat)
    requires Shape(s) && n in s.queues && t < |s.tasks| && u < |s.tasks|
    ensures u != t ==> Untouched(s, Rouse(s, n, t, x, w), u)
    ensures Rouse(s, n, t, x, w).ticks == s.ticks
    ensures Rouse(s, n, t, x, w).waits[t] == w && Rouse(s, n, t, x, w).tasks[t].result == x.result &&
      Rouse(s, n, t, x, w).tasks[t].state == Runnable
    ensures x.priority < LEVELS && x.state != Unused ==> Persists(x, Rouse(s, n, t, x, w).tasks[t])
  {
  }

  /** A wake ends exactly the chosen waits. */
  lemma {:induction false} WakesEffect(s: State, channel: nat, rest: seq<nat>, limit: nat, u: nat)
    requires Inv(s) && AllIn(s, rest, Blocked) && u < |s.tasks|
    ensures Slots(rest, |s.tasks|)
    ensures if u in Chosen(s.tasks, channel, rest, limit) then WokenBy(Wakes(s, channel, rest, limit), u, channel)
            else Untouched(s, Wakes(s, channel, rest, limit), u)
    ensures Persists(s.tasks[u], Wakes(s, channel, rest, limit).tasks[u])
    decreases |rest|
  {
    if rest != [] && limit > 0 {
      var t := rest[0];
      TaskFacts(s, t);
      WakeOneInv(s, rest);
      if s.tasks[t].channel == channel {
        var s1 := WakeOne(s, t);
        RouseElsewhere(s, BlockedList, t, s.tasks[t].(channel := 0, result := true, wakeup := 0),
                       Woken(s.tasks[t].channel), u);
        WakesEffect(s1, channel, rest[1..], limit - 1, u);
        assert forall i :: 0 <= i < |rest[1..]| ==> rest[1..][i] != t;
        ChosenSame(s.tasks, s1.tasks, channel, rest[1..], limit - 1);
        ChosenIn(s1.tasks, channel, rest[1..], limit - 1);
      } else {
        WakesEffect(s, channel, rest[1..], limit, u);
      }
    }
  }

  /** The timer wakes exactly the sleepers whose time has come. */
  lemma {:induction false} SleepersEffect(s: State, rest: seq<nat>, u: nat)
    requires Inv(s) && AllIn(s, rest, Sleeping) && u < |s.tasks|
    ensures Slots(rest, |s.tasks|) && WakeSleepers(s, rest).ticks == s.ticks
    ensures var r := WakeSleepers(s, rest);
      Persists(s.tasks[u], r.tasks[u]) &&
      if u in rest && s.tasks[u].wakeup <= s.ticks then r.tasks[u].state == Runnable && r.waits[u] == s.waits[u]
      else Untouched(s, r, u)
    decreases |rest|
  {
    if rest != [] {
      var t := rest[0];
      assert u in rest <==> u == t || u in rest[1..];
      TaskFacts(s, t);
      RouseOthers(s, SleepingList, t, s.tasks[t], s.waits[t], rest, Sleeping);
      RouseElsewhere(s, SleepingList, t, s.tasks[t], s.waits[t], u);
      if s.tasks[t].wakeup <= s.ticks {
        RouseInv(s, SleepingList, t, s.tasks[t], s.waits[t]);
        SleepersEffect(Rouse(s, SleepingList, t, s.tasks[t], s.waits[t]), rest[1..], u);
        assert t !in rest[1..];
      } else {
        SleepersEffect(s, rest[1..], u);
      }
    }
  }

  /** The timer ends exactly the waits whose deadline has come. */
  lemma {:induction false} ExpireEffect(s: State, rest: seq<nat>, u: nat)
    requires Inv(s) && AllIn(s, rest, Blocked) && u < |s.tasks|
    ensures Slots(rest, |s.tasks|) && ExpireWaits(s, rest).ticks == s.ticks
    ensures if u in rest && Due(s.tasks[u], s.ticks) then ExpiredAt(ExpireWaits(s, rest), u, s.tasks[u].wakeup)
            else Untouched(s, ExpireWaits(s, rest), u)
    ensures Persists(s.tasks[u], ExpireWaits(s, rest).tasks[u])
    decreases |rest|
  {
    if rest != [] {
      var t := rest[0];
      TaskFacts(s, t);
      assert u in rest <==> u == t || u in rest[1..];
      if Due(s.tasks[t], s.ticks) {
        ExpireOneInv(s, rest);
        RouseElsewhere(s, BlockedList, t, s.tasks[t].(channel := 0, result := false, wakeup := 0),
                       Expired(s.tasks[t].wakeup, s.ticks), u);
        ExpireEffect(ExpireOne(s, t), rest[1..], u);
        assert t !in rest[1..];
      } else {
        ExpireEffect(s, rest[1..], u);
      }
    }
  }

  /** What timers do to a waiter. */
  lemma {:induction false} TimersEffect(s: State, u: nat)
    requires Inv(s) && u < |s.tasks| && s.tasks[u].state == Blocked
    ensures AdvanceTimers(s).ticks == s.ticks
    ensures if Due(s.tasks[u], s.ticks) then ExpiredAt(AdvanceTimers(s), u, s.tasks[u].wakeup) else Untouched(s,
        AdvanceTimers(s), u)
  {
    ListStates(s);
    SleepersEffect(s, s.queues[SleepingList], u);
    WakeSleepersInv(s, s.queues[SleepingList]);
    var s1 := WakeSleepers(s, s.queues[SleepingList]);
    ListStates(s1);
    BlockedListed(s1, u);
    ExpireEffect(s1, s1.queues[BlockedList], u);
  }

  lemma {:induction false} BlockedListed(s: State, u: nat)
    requires Inv(s) && u < |s.tasks| && s.tasks[u].state == Blocked
    ensures u in s.queues[BlockedList]
  {
    assert Unlocked(s, 0);
    assert Listed(s.queues, Homes(s.tasks, s.reserved)[u], u);
  }

  // ------------------------------------------------------------------------------------
  // Every section
  // ------------------------------------------------------------------------------------

  /** No wait begins or ends. */
  ghost predicate NoWaits(s: State, r: State) {
    r.waits == s.waits && r.ticks == s.ticks && |r.tasks| == |s.tasks| &&
    forall t :: 0 <= t < |s.tasks| ==> r.tasks[t].result == s.tasks[t].result
  }

  lemma {:induction false} ScheduleNoWaits(s: State, c: nat)
    requires Shape(s) && InBounds(s, c) && Schedule(s, c).Done?
    ensures NoWaits(s, Schedule(s, c).s)
  {
    var s1 := if RunsTask(s, c) then Enqueue(s, c, s.cpus[c].current) else s;
    assert NoWaits(s, s1);
    DispatchNoWaits(s1, c);
  }

  lemma {:induction false} DispatchNoWaits(s: State, c: nat)
    requires Shape(s) && InBounds(s, c) && Dispatch(s, c).Done?
    ensures NoWaits(s, Dispatch(s, c).s)
  {
  }

  lemma {:induction false} BalanceNoWaits(s: State)
    requires Inv(s)
    ensures NoWaits(s, BalanceOnce(s))
  {
  }

  lemma {:induction false} TickBackNoWaits(s: State, c: nat)
    requires Inv(s) && c < |s.cpus| && TickBack(s, c).Done?
    ensures NoWaits(s, TickBack(s, c).s)
  {
    InvBounds(s, c);
    if !RunsTask(s, c) {
      ScheduleNoWaits(s, c);
    } else if Expires(s, c) {
      Charged(s, c);
      ScheduleNoWaits(s, c);
    }
  }

  /** The section ended the wait: a wake on the channel chose the waiter and it is told so, or a
      tick reached the deadline and it is told that. */
  ghost predicate Ended(s: State, op: Op, r: State, t: nat, channel: nat, deadline: nat)
    requires Inv(s) && t < |r.tasks| == |r.waits|
  {
    (r.waits[t] == Woken(channel) && r.tasks[t].result && op.WakeChannel? && op.channel == channel &&
     Slots(s.queues[BlockedList], |s.tasks|) && t in Chosen(s.tasks, channel, s.queues[BlockedList], Limit(op.max))) ||
    (r.waits[t] == Expired(deadline, r.ticks) && !r.tasks[t].result && op.TickOn? && 0 < deadline <= r.ticks)
  }

  lemma {:induction false} TickFrontWait(s: State, c: nat, smp: bool, t: nat)
    requires Inv(s) && t < |s.tasks| && s.tasks[t].state == Blocked
    ensures var r := TickFront(s, c, smp);
      r.ticks == s.ticks + 1 &&
      if Due(s.tasks[t], r.ticks) then r.waits[t] == Expired(s.tasks[t].wakeup, r.ticks) &&
      !r.tasks[t].result else r.waits[t] == s.waits[t]
  {
    ClockInv(s, s.ticks + 1, s.lastBalance);
    var s0 := s.(ticks := s.ticks + 1);
    TimersEffect(s0, t);
    var s1 := AdvanceTimers(s0);
    ClockInv(s1, s1.ticks, s1.ticks);
    BalanceNoWaits(s1.(lastBalance := s1.ticks));
    BalanceNoWaits(BalanceOnce(s1.(lastBalance := s1.ticks)));
  }

  lemma {:induction false} TickWait(s: State, c: nat, smp: bool, t: nat, channel: nat, deadline: nat)
    requires Inv(s) && c < |s.cpus| && Tick(s, c, smp).Done? && t < |s.tasks| &&
      s.waits[t] == Waiting(channel, deadline)
    ensures var r := Tick(s, c, smp).s;
      r.waits[t] == s.waits[t] || Ended(s, TickOn(c, smp), r, t, channel, deadline)
  {
    TaskFacts(s, t);
    TickFrontWait(s, c, smp, t);
    TickBackNoWaits(TickFront(s, c, smp), c);
  }

  lemma {:induction false} WakeWait(s: State, channel: nat, max: nat, t: nat, own: nat, deadline: nat)
    requires Inv(s) && t < |s.tasks| && s.waits[t] == Waiting(own, deadline)
    ensures Wake(s, channel, max).waits[t] == s.waits[t] ||
      Ended(s, WakeChannel(channel, max), Wake(s, channel, max), t, own, deadline)
  {
    TaskFacts(s, t);
    ListStates(s);
    WakesEffect(s, channel, s.queues[BlockedList], Limit(max), t);
    ChosenIn(s.tasks, channel, s.queues[BlockedList], Limit(max));
  }

  /** A wait goes on, or it ends in one of the two ways. */
  lemma {:induction false} StepWait(s: State, op: Op, t: nat, channel: nat, deadline: nat)
    requires Inv(s) && Enabled(s, op) && Step(s, op).Done? && t < |s.tasks| && s.waits[t] == Waiting(channel, deadline)
    ensures var r := Step(s, op).s;
      r.waits[t] == Waiting(channel, deadline) || Ended(s, op, r, t, channel, deadline)
  {
    TaskFacts(s, t);
    match op {
      case TickOn(c, smp) => TickWait(s, c, smp, t, channel, deadline);
      case WakeChannel(ch, max) => WakeWait(s, ch, max, t, channel, deadline);
      case _ => OtherWait(s, op, t);
    }
  }

  lemma {:induction false} OtherWait(s: State, op: Op, t: nat)
    requires Inv(s) && Enabled(s, op) && Step(s, op).Done? && t < |s.tasks| && s.waits[t].Waiting? && !op.TickOn? &&
      !op.WakeChannel?
    ensures Step(s, op).s.waits[t] == s.waits[t]
  {
    TaskFacts(s, t);
    match op {
      case Boot(_, _) => ListStates(s);
      case ReserveSlot => ListStates(s);
      case AbandonSlot(_) =>
      case CreateTask(_, _, _, _, _, _, _) =>
      case SetLevel(_, _) =>
      case YieldOn(c) => InvBounds(s, c); ScheduleNoWaits(s, c);
      case SleepOn(c, n) => ParkWait(s, op, t);
      case WaitOnChannel(c, ch, n) => ParkWait(s, op, t);
      case _ =>
    }
  }

  lemma {:induction false} ParkWait(s: State, op: Op, t: nat)
    requires Inv(s) && Enabled(s, op) && Step(s, op).Done? && t < |s.tasks| && s.waits[t].Waiting? &&
      (op.SleepOn? || op.WaitOnChannel?)
    ensures Step(s, op).s.waits[t] == s.waits[t]
  {
    TaskFacts(s, t);
    InvBounds(s, op.c);
    if op.SleepOn? && op.ticks != 0 {
      ScheduleNoWaits(Asleep(s, op.c, op.ticks), op.c);
    } else if op.SleepOn? {
      ScheduleNoWaits(s, op.c);
    } else if op.channel != 0 && op.timeout != 0 {
      ScheduleNoWaits(Waits(s, op.c, op.channel, op.timeout), op.c);
    }
  }

  // ------------------------------------------------------------------------------------
  // Over runs
  // ------------------------------------------------------------------------------------

  /** A wait that is over was ended by one section of the run. */
  ghost predicate EndedIn(s: State, ops: seq<Op>, t: nat, channel: nat, deadline: nat)
    requires Inv(s) && t < |s.tasks|
    decreases |ops|
  {
    ops != [] && Enabled(s, ops[0]) && Step(s, ops[0]).Done? &&
    if Step(s, ops[0]).s.waits[t] ==
      Waiting(channel, deadline) then EndedIn(Step(s, ops[0]).s, ops[1..], t, channel, deadline)
    else Ended(s, ops[0], Step(s, ops[0]).s, t, channel, deadline)
  }

  /** A task that waits either still waits at the end of a run, or the first section that changed
      this was a wake on its channel that chose it (and its wait says true), or a tick at or after
      its deadline (and its wait says false).  A wait without deadline never ends by a tick. */
  lemma {:induction false} WaitOverRun(s: State, ops: seq<Op>, r: State, t: nat, channel: nat, deadline: nat)
    requires Inv(s) && Reaches(s, ops, r) && t < |s.tasks| && s.waits[t] == Waiting(channel, deadline)
    ensures |r.waits| == |s.waits| &&
      (r.waits[t] == Waiting(channel, deadline) || EndedIn(s, ops, t, channel, deadline))
    decreases |ops|
  {
    if ops != [] {
      StepWait(s, ops[0], t, channel, deadline);
      var s1 := Step(s, ops[0]).s;
      if s1.waits[t] == Waiting(channel, deadline) {
        WaitOverRun(s1, ops[1..], r, t, channel, deadline);
      } else {
        RunKeepsInv(s1, ops[1..], r);
      }
    }
  }

  /** Beginning a wait: the deadline is the timeout from now, none for FOREVER; a null channel or
      a zero timeout does not block. */
  lemma {:induction false} WaitBegins(s: State, c: nat, channel: nat, timeout: nat)
    requires Inv(s) && c < |s.cpus| && RunsTask(s, c) && Step(s, WaitOnChannel(c, channel, timeout)).Done?
    ensures var t, r := s.cpus[c].current, Step(s, WaitOnChannel(c, channel, timeout)).s;
      if channel == 0 || timeout == 0 then r == s
      else
        r.waits[t] == Waiting(channel, if timeout == FOREVER then 0 else s.ticks + timeout) &&
        r.tasks[t].state == Blocked
  {
    var t, r := s.cpus[c].current, Step(s, WaitOnChannel(c, channel, timeout)).s;
    InvBounds(s, c);
    if channel != 0 && timeout != 0 {
      ScheduleNoWaits(Waits(s, c, channel, timeout), c);
      TaskFacts(r, t);
    }
  }
}
