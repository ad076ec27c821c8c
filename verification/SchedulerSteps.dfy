/** What the scheduler's locked sections do, as functions from state to state, and that each of
    them keeps the invariant. */
module SchedulerSteps {
  import opened TaskLists
  import opened SchedulerState

  /** Slot and list bounds that every section keeps. */
  ghost predicate Alike(s: State, r: State) {
    |r.tasks| == |s.tasks| && |r.cpus| == |s.cpus| && Shape(r)
  }

  /** What a live task keeps for life: its id, its mask and node, its stack and its space. */
  predicate SameTask(x: Task, y: Task) {
    y.id == x.id && y.affinity == x.affinity && y.preferred == x.preferred && y.stack == x.stack &&
    y.space == x.space && (y.state == Unused <==> x.state == Unused)
  }

  /** It also keeps its level. */
  predicate Persists(x: Task, y: Task) { SameTask(x, y) && y.priority == x.priority }

  function CpuById(s: State, c: nat): nat
    requires Shape(s)
    ensures CpuById(s, c) < |s.cpus|
  {
    if c >= |s.cpus| || !s.cpus[c].online then s.boot else c
  }

  /** The slot, on no list, joins the queue of CPU `c` at its level. */
  function Enqueue(s: State, c: nat, t: nat): (r: State)
    requires Shape(s) && c < |s.cpus| && t < |s.tasks|
    ensures Alike(s, r)
  {
    var p := Sanitize(s.tasks[t].priority);
    var x := s.tasks[t].(priority := p, cpu := c, node := s.cpus[c].node, state := Runnable, slice := 0);
    s.(tasks := s.tasks[t := x],
       queues := s.queues[RunQueue(c, p) := s.queues[RunQueue(c, p)] + [t]],
       cpus := s.cpus[c := s.cpus[c].(queued := s.cpus[c].queued + 1)])
  }

  /** A slot of list `n` becomes `x` and joins the queue of its CPU. */
  function Rouse(s: State, n: Name, t: nat, x: Task, w: Wait): (r: State)
    requires Shape(s) && n in s.queues && t < |s.tasks|
    ensures Alike(s, r)
  {
    var q := s.queues[n := Without(s.queues[n], t)];
    Enqueue(s.(queues := q, tasks := s.tasks[t := x], waits := s.waits[t := w]), CpuById(s, x.cpu), t)
  }

  /** The levels of a CPU from `l` on: the first with a queued slot, LEVELS if there is none. */
  function NextLevel(queues: map<Name, seq<nat>>, c: nat, l: nat): (r: nat)
    requires l <= LEVELS
    decreases LEVELS - l
    ensures l <= r <= LEVELS
  {
    if l == LEVELS || QueueLength(queues, c, l) > 0 then l else NextLevel(queues, c, l + 1)
  }

  predicate HasHigher(queues: map<Name, seq<nat>>, c: nat, p: nat) {
    NextLevel(queues, c, 0) < Sanitize(p)
  }

  /** The first slot of a CPU's best level, and the state after it has left its queue. */
  function Front(s: State, c: nat): nat
    requires Shape(s) && c < |s.cpus| && NextLevel(s.queues, c, 0) < LEVELS
  {
    NextLevelFirst(s.queues, c, 0);
    s.queues[RunQueue(c, NextLevel(s.queues, c, 0))][0]
  }

  function Popped(s: State, c: nat): (r: State)
    requires Shape(s) && c < |s.cpus| && NextLevel(s.queues, c, 0) < LEVELS
    ensures Alike(s, r)
  {
    NextLevelFirst(s.queues, c, 0);
    var n := RunQueue(c, NextLevel(s.queues, c, 0));
    s.(queues := s.queues[n := s.queues[n][1..]],
       cpus := s.cpus[c := s.cpus[c].(queued := if s.cpus[c].queued > 0 then s.cpus[c].queued - 1 else 0)])
  }

  lemma {:induction false} FrontBounded(s: State, c: nat)
    requires Shape(s) && InBounds(s, c) && NextLevel(s.queues, c, 0) < LEVELS
    ensures Front(s, c) < |s.tasks|
  {
    NextLevelFirst(s.queues, c, 0);
    var q := s.queues[RunQueue(c, NextLevel(s.queues, c, 0))];
    assert q[0] in q;
  }

  /** CPU `c` takes the first slot of its best level, or stays with a task it still runs. */
  function Dispatch(s: State, c: nat): (o: Outcome)
    requires Shape(s) && c < |s.cpus|
    requires InBounds(s, c)
    ensures o.Done? ==> Alike(s, o.s)
  {
    if NextLevel(s.queues, c, 0) < LEVELS then FrontBounded(s, c); Done(SwitchTo(Popped(s, c), c, Front(s, c)))
    else if RunsTask(s, c) then Done(s)
    else Panic
  }

  predicate RunsTask(s: State, c: nat)
    requires c < |s.cpus|
  {
    0 <= s.cpus[c].current < |s.tasks| && s.tasks[s.cpus[c].current].state == Running
  }

  function SwitchTo(s: State, c: nat, t: nat): (r: State)
    requires Shape(s) && c < |s.cpus| && t < |s.tasks|
    ensures Alike(s, r)
  {
    s.(tasks := s.tasks[t := s.tasks[t].(state := Running, slice := 0)],
       cpus := s.cpus[c := s.cpus[c].(current := t)])
  }

  ghost predicate InBounds(s: State, c: nat)
    requires Shape(s)
  {
    c < |s.cpus| && forall l :: 0 <= l < LEVELS ==> forall x :: x in s.queues[RunQueue(c, l)] ==> x < |s.tasks|
  }

  /** `scheduler_schedule_cpu` as the handlers call it, forcing a switch. */
  function Schedule(s: State, c: nat): (o: Outcome)
    requires Shape(s) && InBounds(s, c)
    ensures o.Done? ==> Alike(s, o.s)
  {
    Dispatch(if RunsTask(s, c) then Enqueue(s, c, s.cpus[c].current) else s, c)
  }

  function Unseat(s: State, c: nat): State
    requires c < |s.cpus|
  {
    s.(cpus := s.cpus[c := s.cpus[c].(current := NONE)])
  }

  /** The running task of CPU `c` goes on list `n` as `x`; the CPU has not switched yet. */
  function Park(s: State, c: nat, n: Name, x: Task, w: Wait): (r: State)
    requires Shape(s) && c < |s.cpus| && 0 <= s.cpus[c].current < |s.tasks| && n in s.queues
    ensures Alike(s, r)
  {
    var t := s.cpus[c].current;
    s.(tasks := s.tasks[t := x], waits := s.waits[t := w], queues := s.queues[n := s.queues[n] + [t]])
  }

  /** The running task of a CPU put to sleep, and put on the blocked list. */
  function Asleep(s: State, c: nat, ticks: nat): (r: State)
    requires Shape(s) && c < |s.cpus| && RunsTask(s, c)
    ensures Alike(s, r)
  {
    var t := s.cpus[c].current;
    Park(s, c, SleepingList, s.tasks[t].(state := Sleeping, wakeup := s.ticks + ticks), s.waits[t])
  }

  function Deadline(s: State, timeout: nat): nat {
    if timeout == FOREVER then 0 else s.ticks + timeout
  }

  function Waits(s: State, c: nat, channel: nat, timeout: nat): (r: State)
    requires Shape(s) && c < |s.cpus| && RunsTask(s, c)
    ensures Alike(s, r)
  {
    var x := s.tasks[s.cpus[c].current];
    Park(s, c, BlockedList, x.(state := Blocked, channel := channel, result := false, wakeup := Deadline(s, timeout)),
         Waiting(channel, Deadline(s, timeout)))
  }

  /** `scheduler_sleep`: the task sleeps and its CPU switches. */
  function Sleep(s: State, c: nat, ticks: nat): (o: Outcome)
    requires Shape(s) && InBounds(s, c)
    ensures o.Done? ==> Alike(s, o.s)
  {
    if ticks == 0 then Schedule(s, c)
    else if !RunsTask(s, c) then Done(s)
    else Schedule(Asleep(s, c, ticks), c)
  }

  /** `scheduler_wait_channel` up to the switch; the answer is `result` once the task runs again. */
  function WaitOn(s: State, c: nat, channel: nat, timeout: nat): (o: Outcome)
    requires Shape(s) && InBounds(s, c)
    ensures o.Done? ==> Alike(s, o.s)
  {
    if channel == 0 || timeout == 0 || !RunsTask(s, c) then Done(s)
    else Schedule(Waits(s, c, channel, timeout), c)
  }

  /** A wait that ends: by a wake, or at its deadline. */
  function WakeOne(s: State, t: nat): (r: State)
    requires Shape(s) && t < |s.tasks|
    ensures Alike(s, r)
  {
    Rouse(s, BlockedList, t, s.tasks[t].(channel := 0, result := true, wakeup := 0), Woken(s.tasks[t].channel))
  }

  function ExpireOne(s: State, t: nat): (r: State)
    requires Shape(s) && t < |s.tasks|
    ensures Alike(s, r)
  {
    Rouse(s, BlockedList, t, s.tasks[t].(channel := 0, result := false, wakeup := 0),
          Expired(s.tasks[t].wakeup, s.ticks))
  }

  ghost predicate Slots(q: seq<nat>, n: nat) {
    forall i :: 0 <= i < |q| ==> q[i] < n
  }

  predicate Due(x: Task, ticks: nat) { x.wakeup != 0 && x.wakeup <= ticks }

  /** The timer's walks over the sleeping and the blocked list. */
  function WakeSleepers(s: State, rest: seq<nat>): (r: State)
    requires Shape(s) && Slots(rest, |s.tasks|)
    ensures Alike(s, r)
    decreases |rest|
  {
    if rest == [] then s
    else
      var t := rest[0];
      WakeSleepers(if s.tasks[t].wakeup <= s.ticks then Rouse(s, SleepingList, t, s.tasks[t], s.waits[t]) else s,
                   rest[1..])
  }

  function ExpireWaits(s: State, rest: seq<nat>): (r: State)
    requires Shape(s) && Slots(rest, |s.tasks|)
    ensures Alike(s, r)
    decreases |rest|
  {
    if rest == [] then s
    else ExpireWaits(if Due(s.tasks[rest[0]], s.ticks) then ExpireOne(s, rest[0]) else s, rest[1..])
  }

  /** `scheduler_wake_channel`'s walk: at most `limit` waiters on the channel, first come first. */
  function Wakes(s: State, channel: nat, rest: seq<nat>, limit: nat): (r: State)
    requires Shape(s) && Slots(rest, |s.tasks|)
    ensures Alike(s, r)
    decreases |rest|
  {
    if rest == [] || limit == 0 then s
    else if s.tasks[rest[0]].channel == channel then Wakes(WakeOne(s, rest[0]), channel, rest[1..], limit - 1)
    else Wakes(s, channel, rest[1..], limit)
  }

  function Limit(max: nat): nat {
    if max == 0 then 0xFFFF_FFFF else max
  }

  /** Marking the running task of a CPU as exited; it stays current until the CPU switches. */
  function ExitMark(s: State, c: nat): (r: State)
    requires Shape(s) && c < |s.cpus| && 0 <= s.cpus[c].current < |s.tasks|
    ensures Alike(s, r)
  {
    var t := s.cpus[c].current;
    Park(s, c, ZombieList, s.tasks[t].(state := Zombie), s.waits[t]).(exited := s.exited + {s.tasks[t].id})
  }

  /** Releasing a zombie: its resources are handed out and its slot is free again. */
  function Free(s: State, t: nat): (r: State)
    requires Shape(s) && t < |s.tasks|
    ensures Alike(s, r)
  {
    var q := s.queues[ZombieList := Without(s.queues[ZombieList], t)];
    s.(tasks := s.tasks[t := ResetTask(s.boot)], waits := s.waits[t := NoWait],
       queues := q[FreeList := q[FreeList] + [t]],
       released := s.released + [Release(s.tasks[t].id, s.tasks[t].stack, s.tasks[t].space)])
  }

  /** Taking the first free slot for a task that is being created, and giving it back. */
  function Reserve(s: State): (r: State)
    requires Shape(s) && s.queues[FreeList] != [] && s.queues[FreeList][0] < |s.tasks|
    ensures Alike(s, r)
  {
    var t := s.queues[FreeList][0];
    s.(tasks := s.tasks[t := ResetTask(s.boot)], waits := s.waits[t := NoWait],
       queues := s.queues[FreeList := s.queues[FreeList][1..]],
       reserved := s.reserved + {t})
  }

  function Abandon(s: State, t: nat): (r: State)
    requires Shape(s) && t < |s.tasks|
    ensures Alike(s, r)
  {
    s.(tasks := s.tasks[t := ResetTask(s.boot)], waits := s.waits[t := NoWait],
       queues := s.queues[FreeList := s.queues[FreeList] + [t]],
       reserved := s.reserved - {t})
  }

  /** A slot that is being created becomes a task on CPU `c`. */
  function Launch(s: State, t: nat, priority: nat, affinity: set<nat>, preferred: nat, c: nat, stack: nat,
                  space: nat): (r: State)
    requires Shape(s) && t < |s.tasks| && c < |s.cpus|
    ensures Alike(s, r)
  {
    var x := Task(s.nextId, Runnable, priority, affinity, preferred, c, s.cpus[c].node, 0, 0, false, 0, stack, space);
    Enqueue(s.(tasks := s.tasks[t := x], waits := s.waits[t := NoWait], reserved := s.reserved - {t},
               nextId := s.nextId + 1), c, t)
  }

  function OnlineMask(cpus: seq<Cpu>): set<nat> {
    set c | 0 <= c < |cpus| && cpus[c].online
  }

  /** The first free slot becomes the task that CPU `c` is already running. */
  function Bootstrap(s: State, c: nat, space: nat): (r: State)
    requires Shape(s) && c < |s.cpus| && s.queues[FreeList] != [] && s.queues[FreeList][0] < |s.tasks|
    ensures Alike(s, r)
  {
    var t := s.queues[FreeList][0];
    var x := Task(s.nextId, Running, NORMAL, OnlineMask(s.cpus), NODE_ANY, c, s.cpus[c].node, 0, 0, false, 0, 0, space);
    s.(tasks := s.tasks[t := x], waits := s.waits[t := NoWait], queues := s.queues[FreeList := s.queues[FreeList][1..]],
       cpus := s.cpus[c := s.cpus[c].(current := t)], nextId := s.nextId + 1, bootstrapped := true)
  }

  /** A new level for a live task. */
  function SetPriority(s: State, t: nat, p: nat): (r: State)
    requires Shape(s) && t < |s.tasks| && s.tasks[t].priority < LEVELS
    ensures Alike(s, r)
  {
    var x := s.tasks[t];
    if x.priority == Sanitize(p) then s
    else if x.state == Runnable then Requeue(s, t, x.(priority := Sanitize(p)), CpuById(s, x.cpu), CpuById(s, x.cpu))
    else s.(tasks := s.tasks[t := x.(priority := Sanitize(p), slice := if x.state == Running then 0 else x.slice)])
  }

  /** A queued slot leaves the queue of CPU `from` and joins that of CPU `to` as `x`. */
  function Requeue(s: State, t: nat, x: Task, from: nat, to: nat): (r: State)
    requires Shape(s) && t < |s.tasks| && s.tasks[t].priority < LEVELS && from < |s.cpus| && to < |s.cpus|
    ensures Alike(s, r)
  {
    var n := RunQueue(from, s.tasks[t].priority);
    Enqueue(s.(queues := s.queues[n := Without(s.queues[n], t)], tasks := s.tasks[t := x],
               cpus := s.cpus[from := s.cpus[from].(queued :=
                 if s.cpus[from].queued > 0 then s.cpus[from].queued - 1 else 0)]), to, t)
  }

  // ------------------------------------------------------------------------------------
  // The invariant over these
  // ------------------------------------------------------------------------------------

  lemma {:induction false} InvBounds(s: State, c: nat)
    requires Inv(s) && c < |s.cpus|
    ensures InBounds(s, c)
  {
    assert Unlocked(s, 0);
    forall l, x | 0 <= l < LEVELS && x in s.queues[RunQueue(c, l)] ensures x < |s.tasks| {
      assert Member(Homes(s.tasks, s.reserved), s.queues[RunQueue(c, l)], RunQueue(c, l));
    }
  }

  lemma {:induction false} NotCurrent(s: State, t: nat, c: nat)
    requires Inv(s) && t < |s.tasks| && c < |s.cpus| && s.tasks[t].state !in {Running, Zombie}
    ensures s.cpus[c].current != t
  {
    assert Unlocked(s, 0);
    assert CpuAt(s, c);
  }

  /** A sleeping or blocked slot that is roused. */
  lemma {:induction false} RouseInv(s: State, n: Name, t: nat, x: Task, w: Wait)
    requires Inv(s) && t < |s.tasks| && n in {SleepingList, BlockedList} && HomeOf(s.tasks[t], t in s.reserved) == On(n)
    requires x.id == s.tasks[t].id && x.priority == s.tasks[t].priority && x.cpu == s.tasks[t].cpu &&
      x.affinity == s.tasks[t].affinity
    requires WaitOk(x.(state := Runnable), w, s.ticks)
    ensures n in s.queues && Inv(Rouse(s, n, t, x, w))
  {
    TaskFacts(s, t);
    NotCurrent(s, t, x.cpu);
    MoveInv(s, t, x.(node := s.cpus[x.cpu].node, state := Runnable, slice := 0), w);
    RouseSame(s, n, t, x, w);
  }

  /** A runnable record with the identity of a live slot fits it once it has been vacated. */
  lemma {:induction false} OccupyRoused(s: State, t: nat, y: Task, w: Wait)
    requires Inv(s) && t < |s.tasks| && s.tasks[t].state !in {Unused, Zombie} && y.state !in {Unused, Running, Zombie}
    requires y.id == s.tasks[t].id && y.priority < LEVELS && y.affinity == s.tasks[t].affinity
    requires y.cpu < |s.cpus| && s.cpus[y.cpu].online && y.cpu in y.affinity
    requires WaitOk(y, w, s.ticks)
    ensures Fits(Vacate(s, t), t, y, w)
  {
    assert Unlocked(s, 0);
    assert TaskAt(s, t);
    VacateIds(s, t);
  }

  lemma {:induction false} RouseSame(s: State, n: Name, t: nat, x: Task, w: Wait)
    requires Shape(s) && TaskAt(s, t) && n in {SleepingList, BlockedList} &&
      HomeOf(s.tasks[t], t in s.reserved) == On(n)
    requires x.priority == s.tasks[t].priority && x.cpu == s.tasks[t].cpu && s.cpus[x.cpu].current != t
    ensures Rouse(s, n, t, x, w) ==
            Occupy(Vacate(s, t), t, x.(node := s.cpus[x.cpu].node, state := Runnable, slice := 0), w)
  {
    assert s.reserved + {t} - {t} == s.reserved;
  }

  lemma {:induction false} EnqueueSame(s: State, c: nat, t: nat)
    requires Shape(s) && TaskAt(s, t) && s.tasks[t].state == Running && s.tasks[t].cpu == c
    ensures Unseat(Enqueue(s, c, t), c) ==
            Occupy(Vacate(s, t), t, s.tasks[t].(node := s.cpus[c].node, state := Runnable, slice := 0), s.waits[t])
  {
    assert s.reserved + {t} - {t} == s.reserved;
  }

  /** The running task of a CPU goes to the back of its queue. */
  lemma {:induction false} PreemptInv(s: State, c: nat)
    requires Inv(s) && c < |s.cpus| && RunsTask(s, c)
    ensures Inv(Unseat(Enqueue(s, c, s.cpus[c].current), c))
  {
    var t := s.cpus[c].current;
    CpuFacts(s, c);
    TaskFacts(s, t);
    MoveInv(s, t, s.tasks[t].(node := s.cpus[c].node, state := Runnable, slice := 0), s.waits[t]);
    EnqueueSame(s, c, t);
  }

  lemma {:induction false} DispatchSame(s: State, c: nat, l: nat, t: nat)
    requires Shape(s) && InBounds(s, c) && l == NextLevel(s.queues, c, 0) < LEVELS && TaskAt(s, t)
    requires QueueLength(s.queues, c, l) > 0 && s.queues[RunQueue(c, l)][0] == t &&
      HomeOf(s.tasks[t], t in s.reserved) == On(RunQueue(c, l))
    requires s.cpus[c].current != t
    ensures Dispatch(s, c) == Done(Occupy(Vacate(s, t), t, s.tasks[t].(state := Running, slice := 0), s.waits[t]))
  {
    assert s.reserved + {t} - {t} == s.reserved;
    assert s.tasks[t].state == Runnable;
    assert Without(s.queues[RunQueue(c, l)], t) == s.queues[RunQueue(c, l)][1..];
  }

  lemma {:induction false} NextLevelFirst(queues: map<Name, seq<nat>>, c: nat, l: nat)
    requires l <= LEVELS
    ensures NextLevel(queues, c, l) < LEVELS ==> QueueLength(queues, c, NextLevel(queues, c, l)) > 0
    ensures forall k :: l <= k < NextLevel(queues, c, l) ==> QueueLength(queues, c, k) == 0
    decreases LEVELS - l
  {
    if l < LEVELS && QueueLength(queues, c, l) == 0 {
      NextLevelFirst(queues, c, l + 1);
    }
  }

  /** A running record with the identity of a runnable slot fits it on an idle CPU. */
  lemma {:induction false} OccupyRunning(s: State, t: nat, y: Task, w: Wait)
    requires Inv(s) && t < |s.tasks| && s.tasks[t].state == Runnable
    requires s.tasks[t].cpu < |s.cpus| && s.cpus[s.tasks[t].cpu].current == NONE
    requires y == s.tasks[t].(state := Running, slice := 0) && w == s.waits[t]
    ensures Fits(Vacate(s, t), t, y, w)
  {
    assert Unlocked(s, 0);
    assert TaskAt(s, t);
    VacateIds(s, t);
  }

  /** An idle CPU takes the first slot of its best level. */
  lemma {:induction false} DispatchInv(s: State, c: nat)
    requires Inv(s) && c < |s.cpus| && s.cpus[c].current == NONE && InBounds(s, c)
    ensures Dispatch(s, c).Done? ==> Inv(Dispatch(s, c).s)
  {
    assert Unlocked(s, 0);
    var l := NextLevel(s.queues, c, 0);
    NextLevelFirst(s.queues, c, 0);
    if l < LEVELS {
      var n := RunQueue(c, l);
      var t := s.queues[n][0];
      assert t in s.queues[n];
      assert Member(Homes(s.tasks, s.reserved), s.queues[n], n);
      assert TaskAt(s, t);
      var y := s.tasks[t].(state := Running, slice := 0);
      VacateInv(s, t);
      OccupyRunning(s, t, y, s.waits[t]);
      OccupyInv(Vacate(s, t), t, y, s.waits[t]);
      DispatchSame(s, c, l, t);
    }
  }

  /** The choice does not depend on who sat on the CPU, as long as it does not run any more. */
  lemma {:induction false} DispatchUnseated(s: State, c: nat)
    requires Shape(s) && InBounds(s, c) && !RunsTask(s, c)
    ensures Shape(Unseat(s, c)) && InBounds(Unseat(s, c), c) && Dispatch(s, c) == Dispatch(Unseat(s, c), c)
  {
  }

  lemma {:induction false} ScheduleInv(s: State, c: nat)
    requires c < |s.cpus| && Shape(s) && (if RunsTask(s, c) then Inv(s) else Inv(Unseat(s, c))) && InBounds(s, c)
    ensures Schedule(s, c).Done? ==> Inv(Schedule(s, c).s)
  {
    if RunsTask(s, c) {
      PreemptInv(s, c);
      var s1 := Enqueue(s, c, s.cpus[c].current);
      InvBounds(Unseat(s1, c), c);
      assert InBounds(s1, c);
      DispatchUnseated(s1, c);
      DispatchInv(Unseat(s1, c), c);
    } else {
      DispatchUnseated(s, c);
      DispatchInv(Unseat(s, c), c);
    }
  }

  // ------------------------------------------------------------------------------------
  // Timers and wakes
  // ------------------------------------------------------------------------------------

  /** Slots that all are in state `st` and listed once. */
  ghost predicate AllIn(s: State, q: seq<nat>, st: TaskState) {
    Distinct(q) && forall i :: 0 <= i < |q| ==> q[i] < |s.tasks| && s.tasks[q[i]].state == st
  }

  lemma {:induction false} RouseOthers(s: State, n: Name, t: nat, x: Task, w: Wait, rest: seq<nat>, st: TaskState)
    requires Shape(s) && n in s.queues && t < |s.tasks| && rest != [] && rest[0] == t && AllIn(s, rest, st)
    ensures AllIn(s, rest[1..], st) && AllIn(Rouse(s, n, t, x, w), rest[1..], st)
  {
  }

  lemma {:induction false} WakeSleepersInv(s: State, rest: seq<nat>)
    requires Inv(s) && AllIn(s, rest, Sleeping)
    ensures Inv(WakeSleepers(s, rest))
    decreases |rest|
  {
    if rest != [] {
      var t := rest[0];
      TaskFacts(s, t);
      RouseOthers(s, SleepingList, t, s.tasks[t], s.waits[t], rest, Sleeping);
      if s.tasks[t].wakeup <= s.ticks {
        RouseInv(s, SleepingList, t, s.tasks[t], s.waits[t]);
        WakeSleepersInv(Rouse(s, SleepingList, t, s.tasks[t], s.waits[t]), rest[1..]);
      } else {
        WakeSleepersInv(s, rest[1..]);
      }
    }
  }

  /** The first of some blocked slots is woken; the others are still blocked. */
  lemma {:induction false} WakeOneInv(s: State, rest: seq<nat>)
    requires Inv(s) && AllIn(s, rest, Blocked) && rest != []
    ensures Inv(WakeOne(s, rest[0])) && AllIn(s, rest[1..], Blocked) && AllIn(WakeOne(s, rest[0]), rest[1..], Blocked)
  {
    assert Unlocked(s, 0);
    var t := rest[0];
    assert TaskAt(s, t);
    var x, w := s.tasks[t].(channel := 0, result := true, wakeup := 0), Woken(s.tasks[t].channel);
    RouseInv(s, BlockedList, t, x, w);
    RouseOthers(s, BlockedList, t, x, w, rest, Blocked);
  }

  lemma {:induction false} ExpireOneInv(s: State, rest: seq<nat>)
    requires Inv(s) && AllIn(s, rest, Blocked) && rest != [] && Due(s.tasks[rest[0]], s.ticks)
    ensures Inv(ExpireOne(s, rest[0])) && AllIn(ExpireOne(s, rest[0]), rest[1..], Blocked)
  {
    assert Unlocked(s, 0);
    var t := rest[0];
    assert TaskAt(s, t);
    var x, w := s.tasks[t].(channel := 0, result := false, wakeup := 0), Expired(s.tasks[t].wakeup, s.ticks);
    RouseInv(s, BlockedList, t, x, w);
    RouseOthers(s, BlockedList, t, x, w, rest, Blocked);
  }

  lemma {:induction false} ExpireWaitsInv(s: State, rest: seq<nat>)
    requires Inv(s) && AllIn(s, rest, Blocked)
    ensures Inv(ExpireWaits(s, rest))
    decreases |rest|
  {
    if rest != [] {
      if Due(s.tasks[rest[0]], s.ticks) {
        ExpireOneInv(s, rest);
        ExpireWaitsInv(ExpireOne(s, rest[0]), rest[1..]);
      } else {
        ExpireWaitsInv(s, rest[1..]);
      }
    }
  }

  lemma {:induction false} WakesInv(s: State, channel: nat, rest: seq<nat>, limit: nat)
    requires Inv(s) && AllIn(s, rest, Blocked)
    ensures Inv(Wakes(s, channel, rest, limit))
    decreases |rest|
  {
    if rest != [] && limit > 0 {
      WakeOneInv(s, rest);
      if s.tasks[rest[0]].channel == channel {
        var s1 := WakeOne(s, rest[0]);
        WakesInv(s1, channel, rest[1..], limit - 1);
        assert Wakes(s, channel, rest, limit) == Wakes(s1, channel, rest[1..], limit - 1);
      } else {
        WakesInv(s, channel, rest[1..], limit);
      }
    }
  }

  lemma {:induction false} ListState(s: State, n: Name, st: TaskState)
    requires Inv(s) && n in s.queues
    requires forall x: Task, r: bool :: HomeOf(x, r) == On(n) ==> x.state == st
    ensures AllIn(s, s.queues[n], st)
  {
    assert Unlocked(s, 0);
    var q := s.queues[n];
    assert Member(Homes(s.tasks, s.reserved), q, n);
    forall i | 0 <= i < |q| ensures q[i] < |s.tasks| && s.tasks[q[i]].state == st {
      assert q[i] in q;
      assert HomeOf(s.tasks[q[i]], q[i] in s.reserved) == On(n);
    }
  }

  lemma {:induction false} ListStates(s: State)
    requires Inv(s)
    ensures AllIn(s, s.queues[SleepingList], Sleeping) && AllIn(s, s.queues[BlockedList], Blocked)
    ensures AllIn(s, s.queues[ZombieList], Zombie) && AllIn(s, s.queues[FreeList], Unused)
  {
    ListState(s, SleepingList, Sleeping);
    ListState(s, BlockedList, Blocked);
    ListState(s, ZombieList, Zombie);
    ListState(s, FreeList, Unused);
  }

  // ------------------------------------------------------------------------------------
  // Parking, exit, release, creation, priorities
  // ------------------------------------------------------------------------------------

  lemma {:induction false} ParkSame(s: State, c: nat, n: Name, x: Task, w: Wait)
    requires Shape(s) && c < |s.cpus| && RunsTask(s, c) && TaskAt(s, s.cpus[c].current) &&
      s.tasks[s.cpus[c].current].cpu == c
    requires n in {SleepingList, BlockedList, ZombieList} && HomeOf(x, false) == On(n)
    ensures Unseat(Park(s, c, n, x, w), c) == Occupy(Vacate(s, s.cpus[c].current), s.cpus[c].current, x, w)
  {
    var t := s.cpus[c].current;
    assert s.reserved + {t} - {t} == s.reserved;
  }

  /** `u` is a good state but for CPU `c`, which has yet to leave the task it parked. */
  ghost predicate Parked(u: State, c: nat) {
    c < |u.cpus| && Shape(u) && !RunsTask(u, c) && InBounds(u, c) && Inv(Unseat(u, c))
  }

  lemma {:induction false} ParkInv(s: State, c: nat, n: Name, x: Task, w: Wait)
    requires Inv(s) && c < |s.cpus| && RunsTask(s, c) && n in {SleepingList, BlockedList} && HomeOf(x, false) == On(n)
    requires x.id == s.tasks[s.cpus[c].current].id && x.priority == s.tasks[s.cpus[c].current].priority
    requires x.cpu == s.tasks[s.cpus[c].current].cpu && x.affinity == s.tasks[s.cpus[c].current].affinity
    requires WaitOk(x, w, s.ticks)
    ensures Parked(Park(s, c, n, x, w), c)
  {
    var t, u := s.cpus[c].current, Park(s, c, n, x, w);
    CpuFacts(s, c);
    TaskFacts(s, t);
    MoveInv(s, t, x, w);
    ParkSame(s, c, n, x, w);
    InvBounds(Unseat(u, c), c);
    assert InBounds(u, c);
  }

  /** A live slot that has not exited takes on a record that fits it. */
  lemma {:induction false} MoveInv(s: State, t: nat, y: Task, w: Wait)
    requires Inv(s) && t < |s.tasks| && s.tasks[t].state !in {Unused, Zombie} && y.state !in {Unused, Running, Zombie}
    requires y.id == s.tasks[t].id && y.priority < LEVELS && y.affinity == s.tasks[t].affinity
    requires y.cpu < |s.cpus| && s.cpus[y.cpu].online && y.cpu in y.affinity
    requires WaitOk(y, w, s.ticks)
    ensures Inv(Occupy(Vacate(s, t), t, y, w))
  {
    assert Unlocked(s, 0);
    VacateInv(s, t);
    OccupyRoused(s, t, y, w);
    OccupyInv(Vacate(s, t), t, y, w);
  }

  lemma {:induction false} AsleepInv(s: State, c: nat, ticks: nat)
    requires Inv(s) && c < |s.cpus| && RunsTask(s, c)
    ensures Parked(Asleep(s, c, ticks), c)
  {
    var t := s.cpus[c].current;
    TaskFacts(s, t);
    ParkInv(s, c, SleepingList, s.tasks[t].(state := Sleeping, wakeup := s.ticks + ticks), s.waits[t]);
  }

  lemma {:induction false} WaitsInv(s: State, c: nat, channel: nat, timeout: nat)
    requires Inv(s) && c < |s.cpus| && RunsTask(s, c) && channel != 0
    ensures Parked(Waits(s, c, channel, timeout), c)
  {
    var t := s.cpus[c].current;
    TaskFacts(s, t);
    ParkInv(s, c, BlockedList,
            s.tasks[t].(state := Blocked, channel := channel, result := false, wakeup := Deadline(s, timeout)),
            Waiting(channel, Deadline(s, timeout)));
  }

  lemma {:induction false} SleepInv(s: State, c: nat, ticks: nat)
    requires Inv(s) && c < |s.cpus| && RunsTask(s, c) && InBounds(s, c)
    ensures Sleep(s, c, ticks).Done? ==> Inv(Sleep(s, c, ticks).s)
  {
    if ticks == 0 {
      ScheduleInv(s, c);
    } else {
      AsleepInv(s, c, ticks);
      ScheduleInv(Asleep(s, c, ticks), c);
    }
  }

  lemma {:induction false} WaitInv(s: State, c: nat, channel: nat, timeout: nat)
    requires Inv(s) && c < |s.cpus| && RunsTask(s, c) && InBounds(s, c)
    ensures WaitOn(s, c, channel, timeout).Done? ==> Inv(WaitOn(s, c, channel, timeout).s)
  {
    if channel != 0 && timeout != 0 {
      WaitsInv(s, c, channel, timeout);
      ScheduleInv(Waits(s, c, channel, timeout), c);
    }
  }

  /** While its slot is vacated, an id that no live slot has may be marked as exited. */
  lemma {:induction false} ExitedMore(s: State, id: nat)
    requires Core(s) && NewId(s.tasks, id) && id < s.nextId
    ensures Core(s.(exited := s.exited + {id}))
  {
    var r := s.(exited := s.exited + {id});
    forall t | 0 <= t < |s.tasks| ensures TaskAt(r, t) { assert TaskAt(s, t); }
    forall c | 0 <= c < |s.cpus| ensures CpuAt(r, c) { assert CpuAt(s, c); }
  }

  /** A CPU may be left sitting on a task that exited on it. */
  lemma {:induction false} SeatZombie(s: State, c: nat, t: nat)
    requires Core(s) && c < |s.cpus| && s.cpus[c].online && s.cpus[c].current == NONE
    requires t < |s.tasks| && s.tasks[t].state == Zombie && s.tasks[t].cpu == c
    ensures Core(s.(cpus := s.cpus[c := s.cpus[c].(current := t)]))
  {
    var r := s.(cpus := s.cpus[c := s.cpus[c].(current := t)]);
    forall u | 0 <= u < |s.tasks| ensures TaskAt(r, u) { assert TaskAt(s, u); }
    forall d | 0 <= d < |s.cpus| ensures CpuAt(r, d) { assert CpuAt(s, d); }
  }

  lemma {:induction false} ExitSame(s: State, c: nat, t: nat, v: State)
    requires Shape(s) && c < |s.cpus| && RunsTask(s, c) && t == s.cpus[c].current && TaskAt(s, t) && s.tasks[t].cpu == c
    requires v == Vacate(s, t).(exited := s.exited + {s.tasks[t].id})
    ensures var o := Occupy(v, t, s.tasks[t].(state := Zombie), s.waits[t]);
            o.cpus[c].current == NONE && ExitMark(s, c) == o.(cpus := o.cpus[c := o.cpus[c].(current := t)])
  {
    assert s.reserved + {t} - {t} == s.reserved;
  }

  lemma {:induction false} ExitFits(s: State, t: nat, v: State)
    requires Core(s) && t < |s.tasks| && s.tasks[t].state == Running
    requires v == Vacate(s, t).(exited := s.exited + {s.tasks[t].id})
    ensures Core(v) && t in v.reserved && Fits(v, t, s.tasks[t].(state := Zombie), s.waits[t])
  {
    assert TaskAt(s, t);
    VacateInv(s, t);
    VacateIds(s, t);
    ExitedMore(Vacate(s, t), s.tasks[t].id);
  }

  lemma {:induction false} ExitInv(s: State, c: nat)
    requires Inv(s) && c < |s.cpus| && RunsTask(s, c)
    ensures Inv(ExitMark(s, c))
  {
    assert Unlocked(s, 0);
    var t := s.cpus[c].current;
    assert CpuAt(s, c) && TaskAt(s, t);
    var v, x := Vacate(s, t).(exited := s.exited + {s.tasks[t].id}), s.tasks[t].(state := Zombie);
    ExitFits(s, t, v);
    OccupyInv(v, t, x, s.waits[t]);
    ExitSame(s, c, t, v);
    SeatZombie(Occupy(v, t, x, s.waits[t]), c, t);
  }

  lemma {:induction false} ReleasedMore(s: State, x: Release)
    requires Core(s) && NewId(s.tasks, x.id) && x.id in s.exited
    requires forall i :: 0 <= i < |s.released| ==> s.released[i].id != x.id
    ensures Core(s.(released := s.released + [x]))
  {
    var r := s.(released := s.released + [x]);
    forall t | 0 <= t < |s.tasks| ensures TaskAt(r, t) { assert TaskAt(s, t); }
    forall c | 0 <= c < |s.cpus| ensures CpuAt(r, c) { assert CpuAt(s, c); }
  }

  lemma {:induction false} FreeSame(s: State, t: nat, v: State)
    requires Shape(s) && TaskAt(s, t) && s.tasks[t].state == Zombie && s.cpus[s.tasks[t].cpu].current != t
    requires v == Vacate(s, t).(released := s.released + [Release(s.tasks[t].id, s.tasks[t].stack, s.tasks[t].space)])
    ensures Free(s, t) == Occupy(v, t, ResetTask(s.boot), NoWait)
  {
    assert s.reserved + {t} - {t} == s.reserved;
  }

  /** Only a zombie that no CPU sits on may be released. */
  lemma {:induction false} FreeInv(s: State, t: nat)
    requires Inv(s) && t < |s.tasks| && s.tasks[t].state == Zombie &&
      forall c :: 0 <= c < |s.cpus| ==> s.cpus[c].current != t
    ensures Inv(Free(s, t))
  {
    assert Unlocked(s, 0);
    assert TaskAt(s, t);
    VacateInv(s, t);
    VacateIds(s, t);
    var x := Release(s.tasks[t].id, s.tasks[t].stack, s.tasks[t].space);
    ReleasedMore(Vacate(s, t), x);
    var v := Vacate(s, t).(released := s.released + [x]);
    OccupyInv(v, t, ResetTask(s.boot), NoWait);
    FreeSame(s, t, v);
  }

  lemma {:induction false} ReserveInv(s: State)
    requires Inv(s) && s.queues[FreeList] != []
    ensures s.queues[FreeList][0] < |s.tasks| && Inv(Reserve(s)) && s.queues[FreeList][0] in Reserve(s).reserved
  {
    assert Unlocked(s, 0);
    ListStates(s);
    var q := s.queues[FreeList];
    var t := q[0];
    assert Without(q, t) == q[1..];
    assert t in q && Member(Homes(s.tasks, s.reserved), q, FreeList);
    if s.tasks[t].cpu < |s.cpus| { NotCurrent(s, t, s.tasks[t].cpu); }
    VacateInv(s, t);
    assert Reserve(s) == Vacate(s, t);
  }

  lemma {:induction false} AbandonInv(s: State, t: nat)
    requires Inv(s) && t in s.reserved
    ensures t < |s.tasks| && Inv(Abandon(s, t))
  {
    assert Unlocked(s, 0);
    OccupyInv(s, t, ResetTask(s.boot), NoWait);
    assert Abandon(s, t) == Occupy(s, t, ResetTask(s.boot), NoWait);
  }

  /** A new id is in no slot and in no history. */
  lemma {:induction false} NextIdMore(s: State)
    requires Core(s)
    ensures Core(s.(nextId := s.nextId + 1)) && NewId(s.tasks, s.nextId) && s.nextId !in s.exited
    ensures forall i :: 0 <= i < |s.released| ==> s.released[i].id != s.nextId
  {
    var r := s.(nextId := s.nextId + 1);
    forall t | 0 <= t < |s.tasks| ensures TaskAt(r, t) && (s.tasks[t].state != Unused ==> s.tasks[t].id != s.nextId) {
      assert TaskAt(s, t);
    }
    forall c | 0 <= c < |s.cpus| ensures CpuAt(r, c) { assert CpuAt(s, c); }
  }

  lemma {:induction false} LaunchInv(s: State, t: nat, priority: nat, affinity: set<nat>, preferred: nat, c: nat,
                                     stack: nat, space: nat)
    requires Inv(s) && t in s.reserved && priority < LEVELS && c < |s.cpus| && s.cpus[c].online && c in affinity
    ensures t < |s.tasks| && Inv(Launch(s, t, priority, affinity, preferred, c, stack, space))
  {
    assert Unlocked(s, 0);
    NextIdMore(s);
    var x := Task(s.nextId, Runnable, priority, affinity, preferred, c, s.cpus[c].node, 0, 0, false, 0, stack, space);
    OccupyInv(s.(nextId := s.nextId + 1), t, x, NoWait);
    LaunchSame(s, t, priority, affinity, preferred, c, stack, space);
  }

  lemma {:induction false} LaunchSame(s: State, t: nat, priority: nat, affinity: set<nat>, preferred: nat, c: nat,
                                      stack: nat, space: nat)
    requires Shape(s) && t < |s.tasks| && c < |s.cpus| && priority < LEVELS
    ensures Launch(s, t, priority, affinity, preferred, c, stack, space) ==
            Occupy(s.(nextId := s.nextId + 1), t,
                   Task(s.nextId, Runnable, priority, affinity, preferred, c, s.cpus[c].node, 0, 0, false, 0, stack,
                        space), NoWait)
  {
  }

  lemma {:induction false} BootstrapInv(s: State, c: nat, space: nat)
    requires Inv(s) && s.queues[FreeList] != [] && c < |s.cpus| && s.cpus[c].online && s.cpus[c].current == NONE
    ensures s.queues[FreeList][0] < |s.tasks| && Inv(Bootstrap(s, c, space))
  {
    ReserveInv(s);
    var r, t := Reserve(s), s.queues[FreeList][0];
    assert Unlocked(r, 0);
    NextIdMore(r);
    var x := Task(s.nextId, Running, NORMAL, OnlineMask(s.cpus), NODE_ANY, c, s.cpus[c].node, 0, 0, false, 0, 0, space);
    OccupyInv(r.(nextId := s.nextId + 1), t, x, NoWait);
    assert t !in s.reserved by { FreeNotReserved(s, t); }
    BootstrapSame(s, c, space, x, t);
    BootstrappedInv(Occupy(r.(nextId := s.nextId + 1), t, x, NoWait));
  }

  lemma {:induction false} FreeNotReserved(s: State, t: nat)
    requires Inv(s) && t in s.queues[FreeList]
    ensures t !in s.reserved
  {
    assert Unlocked(s, 0);
    assert Member(Homes(s.tasks, s.reserved), s.queues[FreeList], FreeList);
  }

  lemma {:induction false} BootstrapSame(s: State, c: nat, space: nat, x: Task, t: nat)
    requires Shape(s) && s.queues[FreeList] != [] && t == s.queues[FreeList][0] < |s.tasks| && c < |s.cpus| &&
      t !in s.reserved
    requires x ==
        Task(s.nextId, Running, NORMAL, OnlineMask(s.cpus), NODE_ANY, c, s.cpus[c].node, 0, 0, false, 0, 0, space)
    ensures Bootstrap(s, c, space) == Occupy(Reserve(s).(nextId := s.nextId + 1), t, x, NoWait).(bootstrapped := true)
  {
    assert s.reserved + {t} - {t} == s.reserved;
  }

  lemma {:induction false} BootstrappedInv(s: State)
    requires Core(s)
    ensures Inv(s.(bootstrapped := true))
  {
    var r := s.(bootstrapped := true);
    forall t | 0 <= t < |s.tasks| ensures TaskAt(r, t) { assert TaskAt(s, t); }
    forall c | 0 <= c < |s.cpus| ensures CpuAt(r, c) { assert CpuAt(s, c); }
  }

  // ------------------------------------------------------------------------------------
  // Queued slots that move, and small changes
  // ------------------------------------------------------------------------------------

  lemma {:induction false} RequeueSame(s: State, t: nat, p: nat, to: nat)
    requires Shape(s) && TaskAt(s, t) && s.tasks[t].state == Runnable && p < LEVELS && to < |s.cpus|
    requires s.cpus[s.tasks[t].cpu].current != t
    ensures Requeue(s, t, s.tasks[t].(priority := p), s.tasks[t].cpu, to) ==
            Occupy(Vacate(s, t), t, s.tasks[t].(priority := p, cpu := to, node := s.cpus[to].node, slice := 0),
                   s.waits[t])
  {
    assert s.reserved + {t} - {t} == s.reserved;
  }

  /** A queued task moves to an allowed online CPU, or to another level. */
  lemma {:induction false} RequeueInv(s: State, t: nat, p: nat, to: nat)
    requires Inv(s) && t < |s.tasks| && s.tasks[t].state == Runnable && p < LEVELS
    requires to < |s.cpus| && s.cpus[to].online && to in s.tasks[t].affinity
    ensures TaskAt(s, t) && Inv(Requeue(s, t, s.tasks[t].(priority := p), s.tasks[t].cpu, to))
  {
    TaskFacts(s, t);
    NotCurrent(s, t, s.tasks[t].cpu);
    MoveInv(s, t, s.tasks[t].(priority := p, cpu := to, node := s.cpus[to].node, slice := 0), s.waits[t]);
    RequeueSame(s, t, p, to);
  }

  /** Level and slice of a task that is on no run queue may change. */
  lemma {:induction false} TweakInv(s: State, t: nat, p: nat, k: nat)
    requires Inv(s) && t < |s.tasks| && s.tasks[t].state !in {Unused, Runnable} && p < LEVELS
    requires s.tasks[t].state == Running ==> k < Slice(p)
    ensures Inv(s.(tasks := s.tasks[t := s.tasks[t].(priority := p, slice := k)]))
  {
    assert Unlocked(s, 0);
    var r := s.(tasks := s.tasks[t := s.tasks[t].(priority := p, slice := k)]);
    assert Homes(r.tasks, r.reserved) == Homes(s.tasks, s.reserved);
    forall u | 0 <= u < |s.tasks| ensures TaskAt(r, u) { assert TaskAt(s, u); TweakAt(s, t, p, k, u); }
    forall c | 0 <= c < |s.cpus| ensures CpuAt(r, c) { assert CpuAt(s, c); TweakCpu(s, t, p, k, c); }
    TweakIds(s, t, p, k);
  }

  lemma {:induction false} TweakAt(s: State, t: nat, p: nat, k: nat, u: nat)
    requires t < |s.tasks| && s.tasks[t].state != Runnable && p < LEVELS && TaskAt(s, u)
    requires s.tasks[t].state == Running ==> k < Slice(p)
    ensures TaskAt(s.(tasks := s.tasks[t := s.tasks[t].(priority := p, slice := k)]), u)
  {
  }

  lemma {:induction false} TweakCpu(s: State, t: nat, p: nat, k: nat, c: nat)
    requires t < |s.tasks| && CpuAt(s, c)
    ensures CpuAt(s.(tasks := s.tasks[t := s.tasks[t].(priority := p, slice := k)]), c)
  {
  }

  lemma {:induction false} TweakIds(s: State, t: nat, p: nat, k: nat)
    requires t < |s.tasks| && IdsDiffer(s.tasks)
    ensures IdsDiffer(s.tasks[t := s.tasks[t].(priority := p, slice := k)])
  {
    var r := s.tasks[t := s.tasks[t].(priority := p, slice := k)];
    forall u, v | 0 <= u < |r| && 0 <= v < |r| ensures Differ(r, u, v) { assert Differ(s.tasks, u, v); }
  }

  lemma {:induction false} SetPriorityInv(s: State, t: nat, p: nat)
    requires Inv(s) && t < |s.tasks| && s.tasks[t].state != Unused
    ensures TaskAt(s, t) && Inv(SetPriority(s, t, p))
  {
    TaskFacts(s, t);
    var x := s.tasks[t];
    if x.priority != Sanitize(p) {
      if x.state == Runnable {
        RequeueInv(s, t, Sanitize(p), x.cpu);
      } else {
        TweakInv(s, t, Sanitize(p), if x.state == Running then 0 else x.slice);
      }
    }
  }

  /** Time passes, and the balancer notes when it ran. */
  lemma {:induction false} ClockInv(s: State, ticks: nat, last: nat)
    requires Inv(s) && s.ticks <= ticks
    ensures Inv(s.(ticks := ticks, lastBalance := last))
  {
    assert Unlocked(s, 0);
    var r := s.(ticks := ticks, lastBalance := last);
    forall u | 0 <= u < |s.tasks| ensures TaskAt(r, u) { assert TaskAt(s, u); }
    forall c | 0 <= c < |s.cpus| ensures CpuAt(r, c) { assert CpuAt(s, c); }
  }
}
