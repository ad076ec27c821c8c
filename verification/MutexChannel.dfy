/** The mutex protocol on the scheduler's channels.  The protocol of Mutex keeps its own queue of
    waiters; here the scheduler's sections are shown to do to a channel what that protocol says. */
module MutexChannel {
  import opened TaskLists
  import opened SchedulerState
  import opened SchedulerSteps
  import opened SchedulerRuns
  import opened SchedulerWaits
  import opened SchedulerTasks
  import opened SchedulerChannels
  import M = Mutex
  import C = MutexCalls

  // ------------------------------------------------------------------------------------
  // Ended waits and live tasks of the scheduler
  // ------------------------------------------------------------------------------------

  predicate Alive(s: State, t: nat) {
    t < |s.tasks| && s.tasks[t].state != Unused && s.tasks[t].state != Zombie
  }

  /** Slot `t` keeps its wait history, and stays alive if it was. */
  predicate KeptAt(s: State, r: State, t: nat) {
    t < |s.tasks| == |r.tasks| == |s.waits| == |r.waits| && r.waits[t] == s.waits[t] && (Alive(s, t) ==> Alive(r, t))
  }

  lemma {:induction false} ScheduleKept(s: State, c: nat, t: nat)
    requires Shape(s) && InBounds(s, c) && Schedule(s, c).Done? && t < |s.tasks|
    ensures KeptAt(s, Schedule(s, c).s, t)
  {
  }

  lemma {:induction false} SleepersKept(s: State, rest: seq<nat>, t: nat)
    requires Shape(s) && Slots(rest, |s.tasks|) && t < |s.tasks|
    ensures KeptAt(s, WakeSleepers(s, rest), t)
    decreases |rest|
  {
    if rest != [] {
      var u := rest[0];
      SleepersKept(if s.tasks[u].wakeup <= s.ticks then Rouse(s, SleepingList, u, s.tasks[u], s.waits[u]) else s,
                   rest[1..], t);
    }
  }

  lemma {:induction false} BalanceKept(s: State, t: nat)
    requires Inv(s) && t < |s.tasks|
    ensures KeptAt(s, BalanceOnce(s), t)
  {
  }

  lemma {:induction false} TickBackKept(s: State, c: nat, t: nat)
    requires Inv(s) && c < |s.cpus| && TickBack(s, c).Done? && t < |s.tasks|
    ensures KeptAt(s, TickBack(s, c).s, t)
  {
    InvBounds(s, c);
    if !RunsTask(s, c) {
      ScheduleKept(s, c, t);
    } else if Expires(s, c) {
      Charged(s, c);
      ScheduleKept(s, c, t);
    }
  }

  lemma {:induction false} TimersKept(s: State, t: nat)
    requires Inv(s) && t < |s.tasks| && s.tasks[t].state != Blocked
    ensures KeptAt(s, AdvanceTimers(s), t)
  {
    ListStates(s);
    AllSlots(s, s.queues[SleepingList], Sleeping);
    SleepersKept(s, s.queues[SleepingList], t);
    WakeSleepersInv(s, s.queues[SleepingList]);
    var s1 := WakeSleepers(s, s.queues[SleepingList]);
    ListStates(s1);
    TaskFacts(s, t);
    TaskFacts(s1, t);
    ExpireEffect(s1, s1.queues[BlockedList], t);
  }

  lemma {:induction false} BalanceTwiceKept(s: State, t: nat)
    requires Inv(s) && t < |s.tasks|
    ensures KeptAt(s, BalancePeriodic(s), t)
  {
    BalanceKept(s, t);
    BalanceKept(BalanceOnce(s), t);
  }

  lemma {:induction false} FrontKept(s: State, c: nat, smp: bool, t: nat)
    requires Inv(s) && t < |s.tasks| && s.tasks[t].state != Blocked
    ensures KeptAt(s, TickFront(s, c, smp), t)
  {
    ClockInv(s, s.ticks + 1, s.lastBalance);
    var s1 := AdvanceTimers(s.(ticks := s.ticks + 1));
    TimersKept(s.(ticks := s.ticks + 1), t);
    ClockInv(s1, s1.ticks, s1.ticks);
    BalanceTwiceKept(s1.(lastBalance := s1.ticks), t);
  }

  lemma {:induction false} TickKept(s: State, c: nat, smp: bool, t: nat)
    requires Inv(s) && c < |s.cpus| && Tick(s, c, smp).Done? && t < |s.tasks| && s.tasks[t].state != Blocked
    ensures KeptAt(s, Tick(s, c, smp).s, t)
  {
    FrontKept(s, c, smp, t);
    TickBackKept(TickFront(s, c, smp), c, t);
  }

  /** The section is a wait or the exit of task `t` itself. */
  predicate Own(s: State, op: Op, t: nat)
    requires Enabled(s, op)
  {
    (op.WaitOnChannel? || op.ExitOn?) && s.cpus[op.c].current == t
  }

  lemma {:induction false} BlockKept(s: State, op: Op, t: nat)
    requires Inv(s) && Enabled(s, op) && Step(s, op).Done? && t < |s.tasks| && (op.SleepOn? || op.WaitOnChannel?) &&
      !Own(s, op, t)
    ensures KeptAt(s, Step(s, op).s, t)
  {
    InvBounds(s, op.c);
    if op.SleepOn? && op.ticks == 0 {
      ScheduleKept(s, op.c, t);
    } else if op.SleepOn? {
      ScheduleKept(Asleep(s, op.c, op.ticks), op.c, t);
    } else if op.channel != 0 && op.timeout != 0 {
      ScheduleKept(Waits(s, op.c, op.channel, op.timeout), op.c, t);
    }
  }

  /** A task whose wait is over keeps its answer until it waits again. */
  lemma {:induction false} StepKept(s: State, op: Op, t: nat)
    requires Inv(s) && Enabled(s, op) && Step(s, op).Done? && Alive(s, t) && s.tasks[t].state != Blocked &&
      !Own(s, op, t)
    ensures KeptAt(s, Step(s, op).s, t)
  {
    TaskFacts(s, t);
    match op {
      case TickOn(c, smp) => TickKept(s, c, smp, t);
      case WakeChannel(channel, max) =>
        ListStates(s);
        WakesEffect(s, channel, s.queues[BlockedList], Limit(max), t);
        ChosenIn(s.tasks, channel, s.queues[BlockedList], Limit(max));
      case YieldOn(c) => InvBounds(s, c); ScheduleKept(s, c, t);
      case SleepOn(_, _) => BlockKept(s, op, t);
      case WaitOnChannel(_, _, _) => BlockKept(s, op, t);
      case _ => SlotKept(s, op, t);
    }
  }

  lemma {:induction false} SlotKept(s: State, op: Op, t: nat)
    requires Inv(s) && Enabled(s, op) && Step(s, op).Done? && Alive(s, t) && TaskAt(s, t) && !Own(s, op, t)
    requires !op.TickOn? && !op.WakeChannel? && !op.YieldOn? && !op.SleepOn? && !op.WaitOnChannel?
    ensures KeptAt(s, Step(s, op).s, t)
  {
    ListStates(s);
  }

  // ------------------------------------------------------------------------------------
  // The relation
  // ------------------------------------------------------------------------------------

  lemma {:induction false} OnChannelMember(tasks: seq<Task>, channel: nat, q: seq<nat>, t: nat)
    requires Slots(q, |tasks|)
    ensures t in OnChannel(tasks, channel, q) <==> t in q && t < |tasks| && tasks[t].channel == channel
    decreases |q|
  {
    if q != [] {
      OnChannelMember(tasks, channel, q[1..], t);
      assert t in q <==> t == q[0] || t in q[1..];
    }
  }

  predicate WaitsOn(s: State, t: nat, channel: nat) {
    t < |s.waits| && s.waits[t].Waiting? && s.waits[t].channel == channel
  }

  lemma {:induction false} WaitersAre(s: State, t: nat, channel: nat)
    requires Inv(s)
    ensures t in Waiters(s, channel) <==> WaitsOn(s, t, channel) && t < |s.tasks|
  {
    ListStates(s);
    var q := s.queues[BlockedList];
    OnChannelMember(s.tasks, channel, q, t);
    if t < |s.tasks| {
      TaskFacts(s, t);
      if s.tasks[t].state == Blocked { BlockedListed(s, t); }
      if t in q { var i :| 0 <= i < |q| && q[i] == t; }
    }
  }

  /** The sleep of a task in the protocol, as the scheduler has it. */
  predicate Image(z: M.Sleep, s: State, t: nat, channel: nat)
    requires t < |s.waits|
  {
    match z
    case Awake => !WaitsOn(s, t, channel)
    case Asleep(deadline) => s.waits[t] == Waiting(channel, deadline)
    case Woken => s.waits[t] == Woken(channel) && Alive(s, t)
    case Expired => s.waits[t].Expired? && Alive(s, t)
  }

  ghost predicate ImageAt(m: M.State, s: State, channel: nat, t: nat) {
    t < |m.tasks| && t < |s.waits| && Image(m.tasks[t].sleep, s, t, channel)
  }

  /** The protocol's queue, clock and sleeps are those of the scheduler's channel. */
  ghost predicate Sim(m: M.State, s: State, channel: nat)
    requires Inv(s)
  {
    M.Inv(m) && channel != 0 && |m.tasks| == |s.tasks| && m.ticks == s.ticks && m.waiters == Waiters(s, channel) &&
    forall t :: 0 <= t < |m.tasks| ==> ImageAt(m, s, channel, t)
  }

  /** When a wait is over, the scheduler's answer is the protocol's. */
  lemma {:induction false} AnswerAgrees(m: M.State, s: State, channel: nat, t: nat)
    requires Inv(s) && Sim(m, s, channel) && t < |m.tasks| && m.tasks[t].pc == M.Dec
    ensures s.tasks[t].result <==> m.tasks[t].sleep == M.Woken
  {
    M.TaskFacts(m, t);
    TaskFacts(s, t);
    assert ImageAt(m, s, channel, t);
  }

  /** The relation holds when nobody has called yet and nobody waits on the channel. */
  lemma {:induction false} SimBegins(s: State, channel: nat)
    requires Inv(s) && channel != 0 && |s.tasks| < M.U32 && Waiters(s, channel) == []
    ensures Sim(M.Start(|s.tasks|).(ticks := s.ticks), s, channel)
  {
    var m := M.Start(|s.tasks|);
    M.StartInv(|s.tasks|);
    M.LaterInv(m, s.ticks);
    forall t | 0 <= t < |m.tasks| ensures ImageAt(m.(ticks := s.ticks), s, channel, t) {
      WaitersAre(s, t, channel);
    }
  }

  // ------------------------------------------------------------------------------------
  // The three steps that meet the scheduler
  // ------------------------------------------------------------------------------------

  /** A task whose place in the queue does not change keeps its image, unless the section is its
      own. */
  lemma {:induction false} ImageKept(m: M.State, s: State, op: Op, channel: nat, u: nat)
    requires Inv(s) && Sim(m, s, channel) && Enabled(s, op) && Step(s, op).Done? && u < |m.tasks|
    requires m.tasks[u].sleep != M.Awake ==> !Own(s, op, u)
    requires u in Waiters(s, channel) <==> u in Waiters(Step(s, op).s, channel)
    ensures Image(m.tasks[u].sleep, Step(s, op).s, u, channel)
  {
    assert ImageAt(m, s, channel, u);
    TaskFacts(s, u);
    WaitersAre(s, u, channel);
    WaitersAre(Step(s, op).s, u, channel);
    if m.tasks[u].sleep.Woken? || m.tasks[u].sleep.Expired? {
      StepKept(s, op, u);
    } else if m.tasks[u].sleep.Asleep? {
      StepWait(s, op, u, channel, m.tasks[u].sleep.deadline);
    }
  }

  /** Blocking in the protocol is the scheduler's wait section. */
  lemma {:induction false} BlockSimulated(m: M.State, s: State, channel: nat, t: nat, c: nat)
    requires Inv(s) && Sim(m, s, channel) && t < |m.tasks| && m.tasks[t].pc == M.Block && !m.halted
    requires c < |s.cpus| && RunsTask(s, c) && s.cpus[c].current == t
    requires Step(s, WaitOnChannel(c, channel, m.tasks[t].wait)).Done?
    ensures Sim(M.Step(m, M.Runs(t)), Step(s, WaitOnChannel(c, channel, m.tasks[t].wait)).s, channel)
  {
    var op := WaitOnChannel(c, channel, m.tasks[t].wait);
    var n, r := M.Step(m, M.Runs(t)), Step(s, op).s;
    M.BlockInv(m, t);
    M.BlockFacts(m, t);
    WaitBegins(s, c, channel, m.tasks[t].wait);
    ChannelIsQueue(s, op, channel);
    StepTicks(s, op);
    forall u | 0 <= u < |n.tasks| ensures ImageAt(n, r, channel, u) {
      if u != t { ImageKept(m, s, op, channel, u); }
    }
  }

  /** The wake of an unlock is the scheduler's wake section with limit 1: it ends the wait of the
      task that has waited longest, and no other. */
  lemma {:induction false} WakeSimulated(m: M.State, s: State, channel: nat, t: nat)
    requires Inv(s) && Sim(m, s, channel) && t < |m.tasks| && m.tasks[t].pc.UnWake? && !m.halted
    ensures Sim(M.Step(m, M.Runs(t)), Step(s, WakeChannel(channel, 1)).s, channel)
  {
    var op := WakeChannel(channel, 1);
    var n, r := M.Step(m, M.Runs(t)), Step(s, op).s;
    M.WakeStepInv(m, t);
    ChannelIsQueue(s, op, channel);
    StepTicks(s, op);
    M.TaskFacts(m, t);
    assert m.waiters != [] ==> m.waiters[0] in m.waiters;
    assert |m.waiters| == 1 ==> m.waiters[1..] == [];
    forall u | 0 <= u < |n.tasks| ensures ImageAt(n, r, channel, u) {
      if m.waiters != [] && u == m.waiters[0] {
        FirstWoken(m, s, channel);
      } else {
        assert u in m.waiters <==> m.waiters != [] && u in m.waiters[1..];
        ImageKept(m, s, op, channel, u);
      }
    }
  }

  lemma {:induction false} FirstWoken(m: M.State, s: State, channel: nat)
    requires Inv(s) && Sim(m, s, channel) && m.waiters != []
    ensures m.waiters[0] < |s.tasks| && Image(M.Woken, Wake(s, channel, 1), m.waiters[0], channel)
    ensures WokenBy(Wake(s, channel, 1), m.waiters[0], channel)
  {
    ListStates(s);
    var q, u := s.queues[BlockedList], m.waiters[0];
    ChosenFifo(s.tasks, channel, q, 1);
    assert u in m.waiters;
    WakesEffect(s, channel, q, 1, u);
  }

  /** A waiter whose deadline has come is alive and knows that it expired; any other goes on
      waiting. */
  lemma {:induction false} TickEnds(s: State, c: nat, smp: bool, t: nat)
    requires Inv(s) && c < |s.cpus| && Tick(s, c, smp).Done? && t < |s.tasks| && s.tasks[t].state == Blocked
    ensures var r := Tick(s, c, smp).s;
      r.ticks == s.ticks + 1 && t < |r.waits| &&
      if Due(s.tasks[t], s.ticks + 1) then r.waits[t].Expired? && Alive(r, t) else r.waits[t] == s.waits[t]
  {
    TickFrontWait(s, c, smp, t);
    TickBackNoWaits(TickFront(s, c, smp), c);
    ClockInv(s, s.ticks + 1, s.lastBalance);
    var s0 := s.(ticks := s.ticks + 1);
    TimersEffect(s0, t);
    var s1 := AdvanceTimers(s0);
    ClockInv(s1, s1.ticks, s1.ticks);
    BalanceKept(s1.(lastBalance := s1.ticks), t);
    BalanceKept(BalanceOnce(s1.(lastBalance := s1.ticks)), t);
    TickBackKept(TickFront(s, c, smp), c, t);
  }

  /** The two clocks find the same waiters due. */
  lemma {:induction false} DueAgrees(m: M.State, s: State, channel: nat, u: nat)
    requires Inv(s) && Sim(m, s, channel) && u in m.waiters
    ensures u < |m.tasks| == |s.tasks| && s.tasks[u].state == Blocked && m.tasks[u].sleep.Asleep?
    ensures M.Due(m.tasks[u], m.ticks + 1) <==> Due(s.tasks[u], s.ticks + 1)
  {
    assert M.TaskAt(m, u);
    assert ImageAt(m, s, channel, u);
    TaskFacts(s, u);
  }

  lemma {:induction false} NotDueAgrees(a: seq<M.Task>, b: seq<Task>, ticks: nat, q: seq<nat>)
    requires |a| == |b| && Slots(q, |b|)
    requires forall i :: 0 <= i < |q| ==> (M.Due(a[q[i]], ticks) <==> Due(b[q[i]], ticks))
    ensures M.NotDue(a, ticks, q) == NotDue(b, ticks, q)
  {
    if q != [] { NotDueAgrees(a, b, ticks, q[1..]); }
  }

  /** A tick of the protocol is the scheduler's timer section, on any CPU. */
  lemma {:induction false} TickSimulated(m: M.State, s: State, channel: nat, c: nat, smp: bool)
    requires Inv(s) && Sim(m, s, channel) && Enabled(s, TickOn(c, smp)) && Tick(s, c, smp).Done? && !m.halted
    ensures Sim(M.Step(m, M.Ticks), Step(s, TickOn(c, smp)).s, channel)
  {
    var n, r := M.Step(m, M.Ticks), Tick(s, c, smp).s;
    M.StepInv(m, M.Ticks);
    M.StepSize(m, M.Ticks);
    TickQueue(m, s, channel, c, smp);
    TickClock(s, c, smp);
    forall u | 0 <= u < |n.tasks| ensures ImageAt(n, r, channel, u) {
      M.TickTask(m, u);
      TickImage(m, s, channel, c, smp, u);
    }
  }

  lemma {:induction false} TickQueue(m: M.State, s: State, channel: nat, c: nat, smp: bool)
    requires Inv(s) && Sim(m, s, channel) && c < |s.cpus| && Tick(s, c, smp).Done? && !m.halted
    ensures M.Step(m, M.Ticks).waiters == Waiters(Tick(s, c, smp).s, channel)
  {
    TickWaiters(s, c, smp, channel);
    M.TickQueue(m);
    QueueDue(m, s, channel);
  }

  lemma {:induction false} QueueDue(m: M.State, s: State, channel: nat)
    requires Inv(s) && Sim(m, s, channel) && Slots(m.waiters, |s.tasks|)
    ensures M.NotDue(m.tasks, m.ticks + 1, m.waiters) == NotDue(s.tasks, s.ticks + 1, m.waiters)
  {
    forall i | 0 <= i < |m.waiters|
      ensures M.Due(m.tasks[m.waiters[i]], m.ticks + 1) <==> Due(s.tasks[m.waiters[i]], s.ticks + 1)
    {
      DueAgrees(m, s, channel, m.waiters[i]);
    }
    NotDueAgrees(m.tasks, s.tasks, m.ticks + 1, m.waiters);
  }

  lemma {:induction false} TickImage(m: M.State, s: State, channel: nat, c: nat, smp: bool, u: nat)
    requires Inv(s) && Sim(m, s, channel) && Enabled(s, TickOn(c, smp)) && Tick(s, c, smp).Done? && u < |m.tasks|
    ensures u < |Tick(s, c, smp).s.waits|
    ensures Image(if u in m.waiters && M.Due(m.tasks[u], m.ticks + 1) then M.Expired else m.tasks[u].sleep,
                  Tick(s, c, smp).s, u, channel)
  {
    if u in m.waiters {
      DueAgrees(m, s, channel, u);
      assert ImageAt(m, s, channel, u);
      TickEnds(s, c, smp, u);
    } else {
      assert M.TaskAt(m, u);
      TickWaiters(s, c, smp, channel);
      ImageKept(m, s, TickOn(c, smp), channel, u);
    }
  }

  // ------------------------------------------------------------------------------------
  // Everything else
  // ------------------------------------------------------------------------------------

  /** The other steps of the protocol leave queue, clock and sleeps alone. */
  lemma {:induction false} QuietSimulated(m: M.State, s: State, channel: nat, e: M.Event)
    requires Inv(s) && Sim(m, s, channel) && M.Quiet(m, e)
    ensures Sim(M.Step(m, e), s, channel)
  {
    M.StepInv(m, e);
    M.QuietKeeps(m, e);
    var n := M.Step(m, e);
    forall u | 0 <= u < |n.tasks| ensures ImageAt(n, s, channel, u) {
      assert ImageAt(m, s, channel, u);
    }
  }

  /** The section is none of the protocol's: not a tick, not a wait or wake on its channel, and not
      one that a task inside the mutex code would make of its own. */
  predicate Foreign(m: M.State, s: State, op: Op, channel: nat)
    requires Enabled(s, op)
  {
    !op.TickOn? && (op.WakeChannel? || op.WaitOnChannel? ==> op.channel != channel) &&
    (op.WaitOnChannel? || op.ExitOn? ==>
      s.cpus[op.c].current < |m.tasks| ==> m.tasks[s.cpus[op.c].current].pc.Idle?)
  }

  /** Sections for other channels and other tasks do not touch the protocol. */
  lemma {:induction false} ForeignSimulated(m: M.State, s: State, channel: nat, op: Op)
    requires Inv(s) && Sim(m, s, channel) && Enabled(s, op) && Step(s, op).Done? && Foreign(m, s, op, channel)
    ensures Sim(m, Step(s, op).s, channel)
  {
    ChannelIsQueue(s, op, channel);
    StepTicks(s, op);
    forall u | 0 <= u < |m.tasks| ensures ImageAt(m, Step(s, op).s, channel, u) {
      M.TaskFacts(m, u);
      ImageKept(m, s, op, channel, u);
    }
  }

  // ------------------------------------------------------------------------------------
  // Every joint run
  // ------------------------------------------------------------------------------------

  /** One move of the kernel: a step inside the mutex code, a block, wake or tick that both sides
      make, or a section of other code. */
  datatype Move =
    | Inside(e: M.Event)
    | Blocks(t: nat, c: nat)
    | Wakens(t: nat)
    | Times(c: nat, smp: bool)
    | Elsewhere(op: Op)

  ghost predicate Moves(m: M.State, s: State, channel: nat, v: Move, n: M.State, r: State) {
    Inv(s) &&
    match v
    case Inside(e) => M.Quiet(m, e) && n == M.Step(m, e) && r == s
    case Blocks(t, c) =>
      !m.halted && t < |m.tasks| && m.tasks[t].pc.Block? && c < |s.cpus| && RunsTask(s, c) && s.cpus[c].current == t &&
      n == M.Step(m, M.Runs(t)) && Step(s, WaitOnChannel(c, channel, m.tasks[t].wait)) == Done(r)
    case Wakens(t) =>
      !m.halted && t < |m.tasks| && m.tasks[t].pc.UnWake? && n == M.Step(m, M.Runs(t)) &&
      Step(s, WakeChannel(channel, 1)) == Done(r)
    case Times(c, smp) =>
      !m.halted && Enabled(s, TickOn(c, smp)) && n == M.Step(m, M.Ticks) && Step(s, TickOn(c, smp)) == Done(r)
    case Elsewhere(op) => Enabled(s, op) && Foreign(m, s, op, channel) && n == m && Step(s, op) == Done(r)
  }

  lemma {:induction false} MovesAgree(m: M.State, s: State, channel: nat, v: Move, n: M.State, r: State)
    requires Inv(s) && Sim(m, s, channel) && Moves(m, s, channel, v, n, r)
    ensures Inv(r) && Sim(n, r, channel)
  {
    match v {
      case Inside(e) => QuietSimulated(m, s, channel, e);
      case Blocks(t, c) => BlockSimulated(m, s, channel, t, c);
      case Wakens(t) => WakeSimulated(m, s, channel, t);
      case Times(c, smp) => TickSimulated(m, s, channel, c, smp);
      case Elsewhere(op) => ForeignSimulated(m, s, channel, op);
    }
  }

  ghost predicate Linked(ms: seq<M.State>, ss: seq<State>, channel: nat, vs: seq<Move>, i: nat) {
    i < |vs| && i + 1 < |ms| && i + 1 < |ss| && Moves(ms[i], ss[i], channel, vs[i], ms[i + 1], ss[i + 1])
  }

  /** Two histories of the same moves: of the protocol and of the scheduler. */
  ghost predicate JointRun(ms: seq<M.State>, ss: seq<State>, channel: nat, vs: seq<Move>) {
    |ms| == |ss| == |vs| + 1 && forall i :: 0 <= i < |vs| ==> Linked(ms, ss, channel, vs, i)
  }

  /** In every joint run the protocol's queue is the scheduler's at every moment, and a task that
      comes back from its wait is told by the scheduler what the protocol says. */
  lemma {:induction false} JointAgrees(ms: seq<M.State>, ss: seq<State>, channel: nat, vs: seq<Move>, i: nat)
    requires JointRun(ms, ss, channel, vs) && i < |ms| && Inv(ss[0]) && Sim(ms[0], ss[0], channel)
    ensures Inv(ss[i]) && Sim(ms[i], ss[i], channel)
    ensures forall t :: 0 <= t < |ms[i].tasks| && ms[i].tasks[t].pc.Dec? ==>
      t < |ss[i].tasks| && (ss[i].tasks[t].result <==> ms[i].tasks[t].sleep == M.Woken)
  {
    if i > 0 {
      JointAgrees(ms, ss, channel, vs, i - 1);
      assert Linked(ms, ss, channel, vs, i - 1);
      MovesAgree(ms[i - 1], ss[i - 1], channel, vs[i - 1], ms[i], ss[i]);
    }
    forall t | 0 <= t < |ms[i].tasks| && ms[i].tasks[t].pc.Dec?
      ensures t < |ss[i].tasks| && (ss[i].tasks[t].result <==> ms[i].tasks[t].sleep == M.Woken)
    {
      AnswerAgrees(ms[i], ss[i], channel, t);
    }
  }

  // ------------------------------------------------------------------------------------
  // An unlock rouses a task of the scheduler
  // ------------------------------------------------------------------------------------

  /** A task in its unlock stays there until its wake. */
  lemma {:induction false} MoveUnlocks(m: M.State, s: State, channel: nat, v: Move, n: M.State, r: State, t: nat)
    requires Moves(m, s, channel, v, n, r) && t < |m.tasks| && C.Unlocking(m.tasks[t].pc) && v != Wakens(t) && !n.halted
    ensures t < |n.tasks| && C.Unlocking(n.tasks[t].pc)
  {
    match v {
      case Inside(e) =>
        if e == M.Runs(t) { C.UnlockOwn(m.words, m.tasks[t], t); } else { C.OthersLeave(m, e, t); }
      case Blocks(u, _) => C.OthersLeave(m, M.Runs(u), t);
      case Wakens(u) => C.OthersLeave(m, M.Runs(u), t);
      case Times(_, _) => C.OthersLeave(m, M.Ticks, t);
      case Elsewhere(_) =>
    }
  }

  lemma {:induction false} HaltedMoves(ms: seq<M.State>, ss: seq<State>, channel: nat, vs: seq<Move>, i: nat, j: nat)
    requires JointRun(ms, ss, channel, vs) && i <= j < |ms| && ms[i].halted
    ensures ms[j].halted
    decreases j - i
  {
    if i < j {
      assert Linked(ms, ss, channel, vs, i);
      HaltedMoves(ms, ss, channel, vs, i + 1, j);
    }
  }

  /** The first waiter of the channel, if any, leaves it, can run, and will be told that it was
      woken; the others stay in order. */
  ghost predicate Rouses(s: State, r: State, channel: nat)
    requires Inv(s) && Inv(r)
  {
    var q := Waiters(s, channel);
    if q == [] then Waiters(r, channel) == []
    else
      q[0] < |r.tasks| && Waiters(r, channel) == q[1..] && r.waits[q[0]] == Woken(channel) &&
      r.tasks[q[0]].result && r.tasks[q[0]].state == Runnable
  }

  lemma {:induction false} WakeRouses(m: M.State, s: State, channel: nat, t: nat)
    requires Inv(s) && Sim(m, s, channel) && t < |m.tasks| && m.tasks[t].pc.UnWake? && !m.halted
    ensures Rouses(s, Step(s, WakeChannel(channel, 1)).s, channel) && !m.words.locked && m.words.holder == t
  {
    ChannelIsQueue(s, WakeChannel(channel, 1), channel);
    M.TaskFacts(m, t);
    if m.waiters != [] {
      FirstWoken(m, s, channel);
    }
  }

  /** Move `k` is the wake of task `t`, which has the spinlock and has given up the mutex, and it
      rouses the channel's first waiter. */
  ghost predicate RousedAt(ms: seq<M.State>, ss: seq<State>, channel: nat, vs: seq<Move>, k: nat, t: nat) {
    k < |vs| && k + 1 < |ms| && k + 1 < |ss| && vs[k] == Wakens(t) && !ms[k].words.locked && ms[k].words.holder == t &&
    Inv(ss[k]) && Inv(ss[k + 1]) && Rouses(ss[k], ss[k + 1], channel)
  }

  lemma {:induction false} RousedBetween(ms: seq<M.State>, ss: seq<State>, channel: nat, vs: seq<Move>, i: nat, j: nat,
                                         t: nat) returns (k: nat)
    requires JointRun(ms, ss, channel, vs) && Inv(ss[0]) && Sim(ms[0], ss[0], channel) && i <= j < |ms|
    requires t < |ms[i].tasks| && C.Unlocking(ms[i].tasks[t].pc)
    requires t < |ms[j].tasks| && ms[j].tasks[t].pc.Idle? && !ms[j].halted
    ensures i <= k < j && RousedAt(ms, ss, channel, vs, k, t)
    decreases j - i
  {
    assert Linked(ms, ss, channel, vs, i);
    JointAgrees(ms, ss, channel, vs, i);
    JointAgrees(ms, ss, channel, vs, i + 1);
    if vs[i] == Wakens(t) {
      WakeRouses(ms[i], ss[i], channel, t);
      k := i;
    } else {
      if ms[i + 1].halted { HaltedMoves(ms, ss, channel, vs, i + 1, j); }
      MoveUnlocks(ms[i], ss[i], channel, vs[i], ms[i + 1], ss[i + 1], t);
      k := RousedBetween(ms, ss, channel, vs, i + 1, j, t);
    }
  }

  /** In every joint run, between a task's call of unlock and its return, the task has given up the
      mutex and then the scheduler has roused the first waiter of the channel, if there was one. */
  lemma {:induction false} UnlockRouses(ms: seq<M.State>, ss: seq<State>, channel: nat, vs: seq<Move>, i: nat, j: nat,
                                        t: nat)
    requires JointRun(ms, ss, channel, vs) && Inv(ss[0]) && Sim(ms[0], ss[0], channel) && i < j < |ms|
    requires vs[i] == Inside(M.Calls(t, M.Unlock)) && t < |ms[i].tasks| && ms[i].tasks[t].pc.Idle?
    requires t < |ms[j].tasks| && ms[j].tasks[t].pc.Idle? && !ms[j].halted
    ensures exists k: nat :: i < k < j && RousedAt(ms, ss, channel, vs, k, t)
  {
    assert Linked(ms, ss, channel, vs, i);
    if ms[i].halted { HaltedMoves(ms, ss, channel, vs, i, j); }
    var k := RousedBetween(ms, ss, channel, vs, i + 1, j, t);
  }
}
