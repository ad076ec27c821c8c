/** Runs of the scheduler: any sequence of its locked sections, by any CPU, in any order. */
module SchedulerRuns {
  import opened TaskLists
  import opened SchedulerState
  import opened SchedulerSteps
  import opened SchedulerBalance

  lemma {:induction false} AllSlots(s: State, q: seq<nat>, st: TaskState)
    requires AllIn(s, q, st)
    ensures Slots(q, |s.tasks|)
  {
  }

  /** `scheduler_advance_timers`. */
  ghost function AdvanceTimers(s: State): (r: State)
    requires Inv(s)
    ensures Inv(r) && Alike(s, r)
  {
    ListStates(s);
    AllSlots(s, s.queues[SleepingList], Sleeping);
    WakeSleepersInv(s, s.queues[SleepingList]);
    var s1 := WakeSleepers(s, s.queues[SleepingList]);
    ListStates(s1);
    AllSlots(s1, s1.queues[BlockedList], Blocked);
    ExpireWaitsInv(s1, s1.queues[BlockedList]);
    ExpireWaits(s1, s1.queues[BlockedList])
  }

  /** One balancing step, if there is one to take. */
  ghost function BalanceOnce(s: State): (r: State)
    requires Inv(s)
    ensures Inv(r) && Alike(s, r)
  {
    InvSlots(s);
    var t := FirstMovable(s, 0);
    if |s.cpus| <= 1 || t == NONE then s
    else
      CpuSearch(s, 0);
      var c := s.tasks[t].cpu;
      var g := SelectBest(s.cpus, Loads(s), s.tasks[t].affinity, s.tasks[t].preferred, c);
      MovableFacts(s, t, g);
      Migrate(s, c, t, g)
  }

  lemma {:induction false} MovableFacts(s: State, t: nat, g: int)
    requires Inv(s) && t < |s.tasks| && s.tasks[t].state == Runnable && s.tasks[t].cpu < |s.cpus| &&
      Movable(s, s.tasks[t].cpu, t)
    requires g == SelectBest(s.cpus, Loads(s), s.tasks[t].affinity, s.tasks[t].preferred, s.tasks[t].cpu)
    ensures 0 <= g < |s.cpus| && s.cpus[g].online && g in s.tasks[t].affinity && g != s.tasks[t].cpu
    ensures s.tasks[t].priority < LEVELS && Inv(Migrate(s, s.tasks[t].cpu, t, g)) &&
      Alike(s, Migrate(s, s.tasks[t].cpu, t, g))
    ensures Load(s, s.tasks[t].cpu) > Load(s, g) + 1
  {
    TaskFacts(s, t);
    assert s.tasks[t].cpu in OnlineMask(s.cpus);
    SelectAllowed(s.cpus, Loads(s), s.tasks[t].affinity, s.tasks[t].preferred, s.tasks[t].cpu);
    RequeueInv(s, t, s.tasks[t].priority, g);
  }

  /** What the search for a task to move has found. */
  lemma {:induction false} MoveFacts(s: State, t: nat, c: nat, g: int)
    requires Inv(s) && QueueSlots(s) && |s.cpus| > 1 && t < |s.tasks| && c < |s.cpus|
    requires t == FirstMovable(s, 0) && t == FirstInLevels(s, c, LEVELS)
    requires g == SelectBest(s.cpus, Loads(s), s.tasks[t].affinity, s.tasks[t].preferred, c)
    ensures s.tasks[t].state == Runnable && s.tasks[t].cpu == c && s.tasks[t].priority < LEVELS && 0 <= g < |s.cpus| &&
      c != g
    ensures BalanceOnce(s) == Requeue(s, t, s.tasks[t], c, g) && Load(s, c) > 0
    ensures Loads(BalanceOnce(s)) == Loads(s)[c := Load(s, c) - 1][g := Load(s, g) + 1]
    ensures Sum(Loads(BalanceOnce(s))) == Sum(Loads(s)) && Squares(Loads(BalanceOnce(s))) < Squares(Loads(s))
  {
    LevelSearch(s, c, LEVELS);
    CpuSearch(s, 0);
    TaskFacts(s, t);
    MovableFacts(s, t, g);
    MigrateLoads(s, t, g);
  }

  /** `scheduler_balance_periodic`: at most two steps. */
  ghost function BalancePeriodic(s: State): (r: State)
    requires Inv(s)
    ensures Inv(r) && Alike(s, r)
  {
    BalanceOnce(BalanceOnce(s))
  }

  predicate ShouldBalance(s: State, smp: bool) {
    s.bootstrapped && |s.cpus| > 1 && smp && s.ticks >= s.lastBalance + 16
  }

  /** The part of a timer tick before the running task is looked at. */
  ghost function TickFront(s: State, c: nat, smp: bool): (r: State)
    requires Inv(s)
    ensures Inv(r) && Alike(s, r)
  {
    ClockInv(s, s.ticks + 1, s.lastBalance);
    var s1 := AdvanceTimers(s.(ticks := s.ticks + 1));
    ClockInv(s1, s1.ticks, s1.ticks);
    if c == s1.boot && ShouldBalance(s1, smp) then BalancePeriodic(s1.(lastBalance := s1.ticks)) else s1
  }

  function Charge(s: State, c: nat): State
    requires c < |s.cpus| && RunsTask(s, c)
  {
    var t := s.cpus[c].current;
    s.(tasks := s.tasks[t := s.tasks[t].(slice := s.tasks[t].slice + 1)])
  }

  predicate Expires(s: State, c: nat)
    requires c < |s.cpus| && RunsTask(s, c)
  {
    var x := s.tasks[s.cpus[c].current];
    x.slice + 1 >= Slice(x.priority) || HasHigher(s.queues, c, x.priority)
  }

  ghost function TickBack(s: State, c: nat): (o: Outcome)
    requires Inv(s) && c < |s.cpus|
    ensures o.Done? ==> Inv(o.s) && Alike(s, o.s)
  {
    InvBounds(s, c);
    ScheduleAny(s, c);
    if !RunsTask(s, c) then Schedule(s, c)
    else if Expires(s, c) then Charged(s, c); Schedule(Charge(s, c), c)
    else ChargeInv(s, c); Done(Charge(s, c))
  }

  lemma {:induction false} ChargeInv(s: State, c: nat)
    requires Inv(s) && c < |s.cpus| && RunsTask(s, c) && !Expires(s, c)
    ensures Inv(Charge(s, c)) && Alike(s, Charge(s, c))
  {
    var t := s.cpus[c].current;
    TaskFacts(s, t);
    TweakInv(s, t, s.tasks[t].priority, s.tasks[t].slice + 1);
  }

  /** `scheduler_on_timer_tick` on CPU `c`: the running task is charged one tick, and goes to the
      back of its queue when its slice is used up or a better level has a task. */
  ghost function Tick(s: State, c: nat, smp: bool): (o: Outcome)
    requires Inv(s) && c < |s.cpus|
    ensures o.Done? ==> Inv(o.s) && Alike(s, o.s)
  {
    TickBack(TickFront(s, c, smp), c)
  }

  /** Scheduling is possible in every good state, also when the CPU sits on an exited task. */
  lemma {:induction false} ScheduleAny(s: State, c: nat)
    requires Inv(s) && c < |s.cpus| && InBounds(s, c)
    ensures Schedule(s, c).Done? ==> Inv(Schedule(s, c).s)
  {
    if !RunsTask(s, c) { UnseatInv(s, c); }
    ScheduleInv(s, c);
  }

  lemma {:induction false} UnseatInv(s: State, c: nat)
    requires Inv(s) && c < |s.cpus| && !RunsTask(s, c)
    ensures Inv(Unseat(s, c))
  {
    assert Unlocked(s, 0);
    assert CpuAt(s, c);
    var r := Unseat(s, c);
    forall t | 0 <= t < |s.tasks| ensures TaskAt(r, t) { assert TaskAt(s, t); }
    forall d | 0 <= d < |s.cpus| ensures CpuAt(r, d) { assert CpuAt(s, d); }
  }

  /** The charge of a task that goes to the back of its queue does not matter. */
  lemma {:induction false} Charged(s: State, c: nat)
    requires Inv(s) && c < |s.cpus| && RunsTask(s, c) && InBounds(s, c)
    ensures Shape(Charge(s, c)) && InBounds(Charge(s, c), c) && Schedule(Charge(s, c), c) == Schedule(s, c)
  {
    var t := s.cpus[c].current;
    assert Enqueue(Charge(s, c), c, t) == Enqueue(s, c, t);
  }

  // ------------------------------------------------------------------------------------
  // The other sections
  // ------------------------------------------------------------------------------------

  /** The first slot of a live task with this id. */
  function FindTask(tasks: seq<Task>, id: nat, i: nat): (r: int)
    requires i <= |tasks|
    ensures r == NONE || (i <= r < |tasks| && tasks[r].state != Unused && tasks[r].id == id)
    ensures r == NONE ==> forall k :: i <= k < |tasks| ==> tasks[k].state == Unused || tasks[k].id != id
    decreases |tasks| - i
  {
    if i == |tasks| then NONE
    else if tasks[i].state != Unused && tasks[i].id == id then i
    else FindTask(tasks, id, i + 1)
  }

  predicate CurrentSomewhere(cpus: seq<Cpu>, t: nat) {
    exists c :: 0 <= c < |cpus| && cpus[c].online && cpus[c].current == t
  }

  predicate Reapable(s: State, t: nat)
    requires t < |s.tasks|
  {
    s.tasks[t].state == Zombie && !CurrentSomewhere(s.cpus, t)
  }

  lemma {:induction false} ReapInv(s: State, t: nat)
    requires Inv(s) && t < |s.tasks| && Reapable(s, t)
    ensures Inv(Free(s, t))
  {
    forall c | 0 <= c < |s.cpus| ensures s.cpus[c].current != t {
      CpuFacts(s, c);
    }
    FreeInv(s, t);
  }

  /** A look at the task by `scheduler_join_task`: a zombie that no CPU sits on is released. */
  ghost function Join(s: State, id: nat): (r: State)
    requires Inv(s)
    ensures Inv(r) && Alike(s, r)
  {
    var t := FindTask(s.tasks, id, 0);
    if t != NONE && Reapable(s, t) then ReapInv(s, t); Free(s, t) else s
  }

  function FirstReapable(s: State, q: seq<nat>): (r: int)
    requires Slots(q, |s.tasks|)
    ensures r == NONE || (0 <= r < |s.tasks| && Reapable(s, r))
  {
    if q == [] then NONE else if Reapable(s, q[0]) then q[0] else FirstReapable(s, q[1..])
  }

  /** One round of `scheduler_reap_zombies`. */
  ghost function Reap(s: State): (r: State)
    requires Inv(s)
    ensures Inv(r) && Alike(s, r)
  {
    ListStates(s);
    AllSlots(s, s.queues[ZombieList], Zombie);
    var t := FirstReapable(s, s.queues[ZombieList]);
    if t != NONE then ReapInv(s, t); Free(s, t) else s
  }

  /** `scheduler_wake_channel`. */
  ghost function Wake(s: State, channel: nat, max: nat): (r: State)
    requires Inv(s)
    ensures Inv(r) && Alike(s, r)
  {
    ListStates(s);
    AllSlots(s, s.queues[BlockedList], Blocked);
    WakesInv(s, channel, s.queues[BlockedList], Limit(max));
    if channel == 0 then s else Wakes(s, channel, s.queues[BlockedList], Limit(max))
  }

  /** The CPU a new task goes to. */
  function TargetCpu(s: State, affinity: set<nat>, preferred: nat, local: nat): (c: nat)
    requires s.boot < |s.cpus|
    ensures c < |s.cpus|
  {
    var r := SelectBest(s.cpus, Loads(s), affinity, preferred, local);
    if r == NONE then s.boot else r
  }

  function NodeWish(s: State, preferred: nat): nat {
    if preferred != NODE_ANY && preferred >= s.nodes then NODE_ANY else preferred
  }

  lemma {:induction false} TargetFits(s: State, affinity: set<nat>, preferred: nat, local: nat)
    requires Inv(s)
    ensures var a := Allowed(s.cpus, affinity);
      var c := TargetCpu(s, a, preferred, local);
      s.cpus[c].online && c in a && CpuById(s, c) == c
  {
    assert Unlocked(s, 0);
    assert s.boot in OnlineMask(s.cpus);
    var a := Allowed(s.cpus, affinity);
    assert a <= OnlineMask(s.cpus) && a != {};
    assert a * OnlineMask(s.cpus) == a;
    SelectAllowed(s.cpus, Loads(s), a, preferred, local);
  }

  /** The last section of `scheduler_create_kernel_task_ex`: the slot becomes a runnable task. */
  ghost function Create(s: State, t: nat, priority: nat, mask: set<nat>, preferred: nat, local: nat, stack: nat,
                        space: nat): (r: State)
    requires Inv(s) && t in s.reserved
    ensures Inv(r) && Alike(s, r)
  {
    var a, p := Allowed(s.cpus, mask), NodeWish(s, preferred);
    var c := TargetCpu(s, a, p, local);
    TargetFits(s, mask, p, local);
    LaunchInv(s, t, Sanitize(priority), a, p, c, stack, space);
    Launch(s, t, Sanitize(priority), a, p, c, stack, space)
  }

  predicate CanBoot(s: State, c: nat)
    requires Shape(s)
  {
    c < |s.cpus| && s.cpus[c].online && s.cpus[c].current == NONE && s.queues[FreeList] != []
  }

  // ------------------------------------------------------------------------------------
  // Runs
  // ------------------------------------------------------------------------------------

  datatype Op =
    | Boot(c: nat, space: nat)
    | ReserveSlot
    | AbandonSlot(t: nat)
    | CreateTask(t: nat, priority: nat, mask: set<nat>, preferred: nat, local: nat, stack: nat, space: nat)
    | SetLevel(id: nat, p: nat)
    | TickOn(c: nat, smp: bool)
    | YieldOn(c: nat)
    | SleepOn(c: nat, ticks: nat)
    | WaitOnChannel(c: nat, channel: nat, timeout: nat)
    | WakeChannel(channel: nat, max: nat)
    | ExitOn(c: nat)
    | JoinTask(id: nat)
    | ReapOne

  /** A section that code of the kernel can start in this state: a slot is given back or turned
      into a task by the creator that holds it, a task blocks or exits on the CPU that runs it. */
  predicate Enabled(s: State, op: Op) {
    match op
    case AbandonSlot(t) => t in s.reserved
    case CreateTask(t, _, _, _, _, _, _) => t in s.reserved
    case TickOn(c, _) => c < |s.cpus| && s.cpus[c].online
    case YieldOn(c) => c < |s.cpus| && s.cpus[c].online
    case SleepOn(c, _) => c < |s.cpus| && RunsTask(s, c)
    case WaitOnChannel(c, _, _) => c < |s.cpus| && RunsTask(s, c)
    case ExitOn(c) => c < |s.cpus| && RunsTask(s, c)
    case _ => true
  }

  lemma {:induction false} ReservedSlots(s: State)
    requires Inv(s)
    ensures forall t :: t in s.reserved ==> t < |s.tasks|
  {
    assert Unlocked(s, 0);
  }

  /** The effect of one section; Panic where the source panics for want of a runnable task. */
  ghost function Step(s: State, op: Op): (o: Outcome)
    requires Inv(s) && Enabled(s, op)
    ensures o.Done? ==> Inv(o.s) && Alike(s, o.s)
  {
    match op
    case Boot(c, space) => if CanBoot(s, c) then BootstrapInv(s, c, space); Done(Bootstrap(s, c, space)) else Done(s)
    case ReserveSlot => if s.queues[FreeList] == [] then Done(s) else ReserveInv(s); Done(Reserve(s))
    case AbandonSlot(t) => AbandonInv(s, t); Done(Abandon(s, t))
    case CreateTask(t, p, a, n, l, stack, space) => Done(Create(s, t, p, a, n, l, stack, space))
    case SetLevel(id, p) =>
      var t := FindTask(s.tasks, id, 0);
      if t == NONE then Done(s) else SetPriorityInv(s, t, p); Done(SetPriority(s, t, p))
    case TickOn(c, smp) => Tick(s, c, smp)
    case YieldOn(c) => InvBounds(s, c); ScheduleAny(s, c); Schedule(s, c)
    case SleepOn(c, n) => InvBounds(s, c); SleepInv(s, c, n); Sleep(s, c, n)
    case WaitOnChannel(c, channel, timeout) => InvBounds(s, c); WaitInv(s, c, channel, timeout); WaitOn(s, c, channel,
        timeout)
    case WakeChannel(channel, max) => Done(Wake(s, channel, max))
    case ExitOn(c) => ExitInv(s, c); Done(ExitMark(s, c))
    case JoinTask(id) => Done(Join(s, id))
    case ReapOne => Done(Reap(s))
  }
}
