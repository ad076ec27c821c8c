/** The scheduler as it runs: a task table, CPU records and linked task lists that its locked
    sections update in place.  Each method is one section, or a part of one, and does to the state
    what SchedulerSteps and SchedulerRuns say. */
module Scheduler {
  import T = TaskLists
  import opened SchedulerState
  import opened SchedulerSteps
  import opened SchedulerBalance
  import opened SchedulerRuns
  import opened SchedulerFacts
  import opened SchedulerWaits
  import S = SchedulerTasks

  const NONE: int := T.NONE

  const SLOTS: nat := 32

  lemma {:induction false} FreeQueuesNone(queues: map<T.Name, seq<nat>>, cpus: nat)
    requires queues.Keys == Names(cpus) && forall n :: n in Names(cpus) ==> queues[n] == []
    ensures queues == FreeQueues(cpus, 0)
  {
  }

  lemma {:induction false} FreeQueuesNext(cpus: nat, t: nat)
    ensures T.FreeList in Names(cpus)
    ensures FreeQueues(cpus, t)[T.FreeList := FreeQueues(cpus, t)[T.FreeList] + [t]] == FreeQueues(cpus, t + 1)
  {
  }

  function ReapLimit(max: nat): nat { if max == 0 then 0xFFFF_FFFF else max }

  lemma {:induction false} FirstReapableAll(s: State, q: seq<nat>)
    requires Slots(q, |s.tasks|) && FirstReapable(s, q) == NONE
    ensures forall i :: 0 <= i < |q| ==> !Reapable(s, q[i])
  {
    if q != [] {
      FirstReapableAll(s, q[1..]);
      assert forall i :: 1 <= i < |q| ==> q[i] == q[1..][i - 1];
    }
  }

  /** Every zombie is on the zombie list, so a walk that finds none leaves none. */
  lemma {:induction false} NoneReapable(s: State)
    requires Inv(s) && Slots(s.queues[T.ZombieList], |s.tasks|) && FirstReapable(s, s.queues[T.ZombieList]) == NONE
    ensures forall t :: 0 <= t < |s.tasks| ==> !Reapable(s, t)
  {
    FirstReapableAll(s, s.queues[T.ZombieList]);
    forall t | 0 <= t < |s.tasks| && s.tasks[t].state == Zombie ensures !Reapable(s, t) {
      assert Unlocked(s, 0);
      assert Listed(s.queues, Homes(s.tasks, s.reserved)[t], t);
    }
  }

  /** Puts every slot on the free list. */
  method FillFree(lists: T.TaskLists, cpus: nat)
    requires lists.Valid() && |lists.home| == SLOTS && lists.queues == FreeQueues(cpus, 0)
    requires forall x :: 0 <= x < SLOTS ==> lists.home[x] == T.Off
    modifies lists
    ensures lists.Valid() && |lists.home| == SLOTS && lists.queues == FreeQueues(cpus, SLOTS)
  {
    for t := 0 to SLOTS
      invariant lists.Valid() && |lists.home| == SLOTS && lists.queues == FreeQueues(cpus, t)
      invariant forall x :: t <= x < SLOTS ==> lists.home[x] == T.Off
    {
      PushFree(lists, cpus, t);
    }
  }

  /** Puts the next slot on the free list. */
  method PushFree(lists: T.TaskLists, cpus: nat, t: nat)
    requires lists.Valid() && t < |lists.home| && lists.home[t] == T.Off && lists.queues == FreeQueues(cpus, t)
    modifies lists
    ensures lists.Valid() && lists.queues == FreeQueues(cpus, t + 1) && |lists.home| == |old(lists.home)|
    ensures forall x :: 0 <= x < |lists.home| && x != t ==> lists.home[x] == old(lists.home)[x]
  {
    FreeQueuesNext(cpus, t);
    lists.PushBack(T.FreeList, t);
  }

  class Scheduler {
    var tasks: seq<Task>
    var cpus: seq<Cpu>
    var ticks: nat
    var nextId: nat
    const boot: nat
    var bootstrapped: bool
    const nodes: nat
    var lastBalance: nat
    const lists: T.TaskLists
    ghost var reserved: set<nat>
    ghost var waits: seq<Wait>
    ghost var exited: set<nat>
    ghost var released: seq<Release>

    ghost function Now(): State
      reads this, lists
    {
      State(tasks, cpus, lists.queues, ticks, nextId, boot, bootstrapped, nodes, lastBalance, reserved, waits, exited,
            released)
    }

    ghost predicate Linked()
      reads this, lists
    {
      |lists.home| == |tasks| && lists.Valid()
    }

    ghost predicate Valid()
      reads this, lists
    {
      Linked() && Inv(Now())
    }

    /** `scheduler_init` with a topology: all slots on the free list, in order. */
    constructor (cpus: seq<Cpu>, boot: nat, nodes: nat)
      requires Configured(cpus, boot)
      ensures Valid() && Now() == Start(SLOTS, cpus, boot, nodes)
    {
      tasks, waits := ResetTable(SLOTS, boot), Unwaited(SLOTS);
      this.cpus, this.boot, this.nodes := cpus, boot, nodes;
      ticks, nextId, bootstrapped, lastBalance := 0, 1, false, 0;
      reserved, exited, released := {}, {}, [];
      lists := new T.TaskLists(SLOTS, Names(|cpus|));
      new;
      FreeQueuesNone(lists.queues, |cpus|);
      FillFree(lists, |cpus|);
      StartInv(SLOTS, cpus, boot, nodes);
    }

    /** A slot that is on no list joins the queue of a CPU. */
    method EnqueueAt(c: nat, t: nat)
      requires Linked() && Shape(Now()) && c < |cpus| && t < |tasks| && lists.home[t] == T.Off
      modifies this`tasks, this`cpus, lists
      ensures Linked() && Now() == Enqueue(old(Now()), c, t)
    {
      var p := Sanitize(tasks[t].priority);
      tasks := tasks[t := tasks[t].(priority := p, cpu := c, node := cpus[c].node, state := Runnable, slice := 0)];
      lists.PushBack(T.RunQueue(c, p), t);
      cpus := cpus[c := cpus[c].(queued := cpus[c].queued + 1)];
    }

    /** A slot of the sleeping or blocked list gets the record `x` and joins its CPU's queue. */
    method RouseSlot(n: T.Name, t: nat, x: Task, ghost w: Wait)
      requires Linked() && Shape(Now()) && n in {T.SleepingList, T.BlockedList} && t < |tasks| &&
        lists.home[t] == T.On(n)
      modifies this`tasks, this`cpus, this`waits, lists
      ensures Linked() && Now() == Rouse(old(Now()), n, t, x, w)
    {
      lists.Remove(n, t);
      tasks, waits := tasks[t := x], waits[t := w];
      var c := x.cpu;
      if c >= |cpus| || !cpus[c].online {
        c := boot;
      }
      EnqueueAt(c, t);
    }

    /** The first slot of the best level leaves its queue. */
    method DequeueNext(c: nat) returns (t: int)
      requires Linked() && Shape(Now()) && c < |cpus|
      modifies this`cpus, lists
      ensures Linked()
      ensures NextLevel(old(lists.queues), c, 0) == LEVELS ==> t == NONE && Now() == old(Now())
      ensures NextLevel(old(lists.queues), c, 0) < LEVELS ==>
          t != NONE && Now() == Popped(old(Now()), c) && t == Front(old(Now()), c)
    {
      ghost var l := NextLevel(lists.queues, c, 0);
      var p := 0;
      while p < LEVELS
        invariant p <= l && l == NextLevel(lists.queues, c, p) && Linked() && Now() == old(Now())
      {
        t := lists.PopFront(T.RunQueue(c, p));
        if t != NONE {
          cpus := cpus[c := cpus[c].(queued := if cpus[c].queued > 0 then cpus[c].queued - 1 else 0)];
          return;
        }
        p := p + 1;
      }
      t := NONE;
    }

    /** The CPU gives up its task, if it runs one, and takes the best queued one.  The source
        panics if there is none. */
    method ScheduleCpu(c: nat) returns (panicked: bool)
      requires Linked() && Shape(Now()) && InBounds(Now(), c)
      requires RunsTask(Now(), c) ==> lists.home[cpus[c].current] == T.Off
      modifies this`tasks, this`cpus, lists
      ensures Linked() && (panicked <==> Schedule(old(Now()), c) == Panic)
      ensures !panicked ==> Now() == Schedule(old(Now()), c).s
    {
      var current := cpus[c].current;
      if 0 <= current < |tasks| && tasks[current].state == Running {
        EnqueueAt(c, current);
      }
      ghost var s1 := Now();
      if NextLevel(s1.queues, c, 0) < LEVELS { FrontBounded(s1, c); }
      var t := DequeueNext(c);
      panicked := SwitchToTask(c, t);
    }

    method SwitchToTask(c: nat, t: int) returns (panicked: bool)
      requires Shape(Now()) && c < |cpus| && (t == NONE || 0 <= t < |tasks|)
      modifies this`tasks, this`cpus
      ensures lists.Valid() == old(lists.Valid()) && |tasks| == |old(tasks)|
      ensures panicked <==> t == NONE && !RunsTask(old(Now()), c)
      ensures t == NONE ==> Now() == old(Now())
      ensures t != NONE ==> Now() == SwitchTo(old(Now()), c, t)
    {
      panicked := false;
      if t == NONE {
        var current := cpus[c].current;
        return !(0 <= current < |tasks| && tasks[current].state == Running);
      }
      tasks := tasks[t := tasks[t].(state := Running, slice := 0)];
      cpus := cpus[c := cpus[c].(current := t)];
    }

    /** Whether a better level than `p` has a queued task. */
    method HasHigherRunnable(c: nat, p: nat) returns (r: bool)
      requires Linked() && Shape(Now()) && c < |cpus|
      ensures r == HasHigher(lists.queues, c, p)
    {
      NextLevelFirst(lists.queues, c, 0);
      for i := 0 to Sanitize(p)
        invariant NextLevel(lists.queues, c, 0) >= i
      {
        var k := lists.Count(T.RunQueue(c, i));
        if k > 0 {
          return true;
        }
      }
      return false;
    }

    /** A walk over list `n` has `rest` in front of it and `kept` behind it. */
    ghost predicate Walking(n: T.Name, kept: seq<nat>, rest: seq<nat>, task: int, st: TaskState)
      reads this, lists
    {
      Valid() && n in lists.queues && lists.queues[n] == kept + rest && AllIn(Now(), rest, st) &&
      task == if rest == [] then NONE else rest[0]
    }

    /** One step of a walk: the slot behind the one looked at. */
    method NextOf(n: T.Name, t: nat, ghost kept: seq<nat>, ghost rest: seq<nat>, ghost st: TaskState)
      returns (next: int)
      requires Walking(n, kept, rest, t, st)
      ensures next == if rest[1..] == [] then NONE else rest[1..][0]
    {
      next := lists.Next(t, n, |kept|);
    }

    /** The slot that a walk looks at is on the list. */
    lemma {:induction false} WalkingHome(n: T.Name, kept: seq<nat>, rest: seq<nat>, t: nat, st: TaskState)
      requires Walking(n, kept, rest, t, st)
      ensures t < |tasks| && lists.home[t] == T.On(n) && T.Without(lists.queues[n], t) == kept + rest[1..]
      ensures lists.queues[n] == kept + [t] + rest[1..]
    {
      lists.HomeIs(n, t);
      assert lists.queues[n][|kept|] == t;
      T.WithoutAt(lists.queues[n], |kept|);
      assert (kept + rest)[..|kept|] == kept && (kept + rest)[|kept| + 1..] == rest[1..];
    }

    /** Wakes the sleepers whose time has come. */
    method WakeDueSleepers()
      requires Valid() && AllIn(Now(), lists.queues[T.SleepingList], Sleeping)
      modifies this`tasks, this`cpus, this`waits, lists
      ensures Valid() && Now() == WakeSleepers(old(Now()), old(lists.queues)[T.SleepingList])
    {
      var task := lists.Head(T.SleepingList);
      ghost var kept: seq<nat>, rest: seq<nat> := [], lists.queues[T.SleepingList];
      while task != NONE
        invariant Walking(T.SleepingList, kept, rest, task, Sleeping)
        invariant WakeSleepers(Now(), rest) == WakeSleepers(old(Now()), old(lists.queues)[T.SleepingList])
        decreases |rest|
      {
        task, kept := VisitSleeper(task, kept, rest);
        rest := rest[1..];
      }
    }

    method VisitSleeper(t: nat, ghost kept: seq<nat>, ghost rest: seq<nat>) returns (next: int, ghost kept': seq<nat>)
      requires Walking(T.SleepingList, kept, rest, t, Sleeping)
      modifies this`tasks, this`cpus, this`waits, lists
      ensures Walking(T.SleepingList, kept', rest[1..], next, Sleeping)
      ensures WakeSleepers(Now(), rest[1..]) == WakeSleepers(old(Now()), rest)
    {
      next := NextOf(T.SleepingList, t, kept, rest, Sleeping);
      WalkingHome(T.SleepingList, kept, rest, t, Sleeping);
      TaskFacts(Now(), t);
      RouseOthers(Now(), T.SleepingList, t, tasks[t], waits[t], rest, Sleeping);
      if tasks[t].wakeup <= ticks {
        RouseInv(Now(), T.SleepingList, t, tasks[t], waits[t]);
        RouseSlot(T.SleepingList, t, tasks[t], waits[t]);
        kept' := kept;
      } else {
        kept' := kept + [t];
      }
    }

    /** Ends the waits whose deadline has come. */
    method ExpireDueWaits()
      requires Valid() && AllIn(Now(), lists.queues[T.BlockedList], Blocked)
      modifies this`tasks, this`cpus, this`waits, lists
      ensures Valid() && Now() == ExpireWaits(old(Now()), old(lists.queues)[T.BlockedList])
    {
      var task := lists.Head(T.BlockedList);
      ghost var kept: seq<nat>, rest: seq<nat> := [], lists.queues[T.BlockedList];
      while task != NONE
        invariant Walking(T.BlockedList, kept, rest, task, Blocked)
        invariant ExpireWaits(Now(), rest) == ExpireWaits(old(Now()), old(lists.queues)[T.BlockedList])
        decreases |rest|
      {
        task, kept := VisitWaiter(task, kept, rest);
        rest := rest[1..];
      }
    }

    method VisitWaiter(t: nat, ghost kept: seq<nat>, ghost rest: seq<nat>) returns (next: int, ghost kept': seq<nat>)
      requires Walking(T.BlockedList, kept, rest, t, Blocked)
      modifies this`tasks, this`cpus, this`waits, lists
      ensures Walking(T.BlockedList, kept', rest[1..], next, Blocked)
      ensures ExpireWaits(Now(), rest[1..]) == ExpireWaits(old(Now()), rest)
    {
      next := NextOf(T.BlockedList, t, kept, rest, Blocked);
      WalkingHome(T.BlockedList, kept, rest, t, Blocked);
      if tasks[t].wakeup != 0 && tasks[t].wakeup <= ticks {
        ExpireOneInv(Now(), rest);
        RouseSlot(T.BlockedList, t, tasks[t].(channel := 0, result := false, wakeup := 0),
                  Expired(tasks[t].wakeup, ticks));
        kept' := kept;
      } else {
        kept' := kept + [t];
      }
    }

    /** `scheduler_advance_timers`. */
    method AdvanceAll()
      requires Valid()
      modifies this`tasks, this`cpus, this`waits, lists
      ensures Valid() && Now() == AdvanceTimers(old(Now()))
    {
      ListStates(Now());
      WakeDueSleepers();
      ListStates(Now());
      ExpireDueWaits();
    }

    /** `scheduler_wake_channel`: wakes at most `max` waiters, all if `max` is 0, and says how many. */
    method WakeChannel(channel: nat, max: nat) returns (woke: nat)
      requires Valid()
      modifies this`tasks, this`cpus, this`waits, lists
      ensures Valid() && Now() == Wake(old(Now()), channel, max)
      ensures Slots(old(lists.queues)[T.BlockedList], |old(tasks)|)
      ensures woke ==
          if channel == 0 then 0 else |Chosen(old(tasks), channel, old(lists.queues)[T.BlockedList], Limit(max))|
    {
      ListStates(Now());
      if channel == 0 {
        return 0;
      }
      woke := WakeWalk(channel, if max == 0 then 0xFFFF_FFFF else max);
    }

    method WakeWalk(channel: nat, limit: nat) returns (woke: nat)
      requires Valid() && AllIn(Now(), lists.queues[T.BlockedList], Blocked)
      modifies this`tasks, this`cpus, this`waits, lists
      ensures Valid() && Now() == Wakes(old(Now()), channel, old(lists.queues)[T.BlockedList], limit)
      ensures woke == |Chosen(old(tasks), channel, old(lists.queues)[T.BlockedList], limit)|
    {
      woke := 0;
      var task := lists.Head(T.BlockedList);
      ghost var q, left := lists.queues[T.BlockedList], limit;
      ghost var kept: seq<nat>, rest: seq<nat> := [], q;
      while task != NONE && woke < limit
        invariant Walking(T.BlockedList, kept, rest, task, Blocked) && woke + left == limit
        invariant Wakes(Now(), channel, rest, left) == Wakes(old(Now()), channel, q, limit)
        invariant woke + |Chosen(tasks, channel, rest, left)| == |Chosen(old(tasks), channel, q, limit)|
        decreases |rest|
      {
        var hit;
        task, hit, kept, left := VisitForWake(channel, task, left, kept, rest);
        rest := rest[1..];
        woke := if hit then woke + 1 else woke;
      }
    }

    method VisitForWake(channel: nat, t: nat, ghost left: nat, ghost kept: seq<nat>, ghost rest: seq<nat>)
      returns (next: int, hit: bool, ghost kept': seq<nat>, ghost left': nat)
      requires Walking(T.BlockedList, kept, rest, t, Blocked) && left > 0
      modifies this`tasks, this`cpus, this`waits, lists
      ensures Walking(T.BlockedList, kept', rest[1..], next, Blocked)
      ensures left == left' + (if hit then 1 else 0) &&
        Wakes(Now(), channel, rest[1..], left') == Wakes(old(Now()), channel, rest, left)
      ensures (if hit then 1 else 0) + |Chosen(tasks, channel, rest[1..], left')| ==
          |Chosen(old(tasks), channel, rest, left)|
    {
      next := NextOf(T.BlockedList, t, kept, rest, Blocked);
      WalkingHome(T.BlockedList, kept, rest, t, Blocked);
      WakeOneInv(Now(), rest);
      hit := tasks[t].channel == channel;
      left' := if hit then left - 1 else left;
      if hit {
        RouseSlot(T.BlockedList, t, tasks[t].(channel := 0, result := true, wakeup := 0), Woken(tasks[t].channel));
        kept' := kept;
        assert forall i :: 0 <= i < |rest[1..]| ==> rest[1..][i] != t;
        ChosenSame(old(tasks), tasks, channel, rest[1..], left - 1);
      } else {
        kept' := kept + [t];
      }
    }

    // ----------------------------------------------------------------------------------
    // Choosing CPUs and balancing
    // ----------------------------------------------------------------------------------

    method OnlineCpus() returns (mask: set<nat>)
      ensures mask == OnlineMask(cpus)
    {
      mask := {};
      for c := 0 to |cpus|
        invariant mask == set d | 0 <= d < c && cpus[d].online
      {
        if cpus[c].online {
          mask := mask + {c};
        }
      }
    }

    /** One pass over the CPUs. */
    method ScanCpus(loads: seq<nat>, allowed: set<nat>, preferred: nat, enforce: bool, local: nat) returns (best: int)
      requires |loads| == |cpus|
      ensures best == Best(cpus, loads, allowed, preferred, enforce, local, |cpus|)
    {
      best := NONE;
      for c := 0 to |cpus|
        invariant best == Best(cpus, loads, allowed, preferred, enforce, local, c)
      {
        if c !in allowed || (enforce && cpus[c].node != preferred) {
          continue;
        }
        if best == NONE || loads[c] < loads[best] {
          best := c;
        } else if loads[c] == loads[best] {
          if c == local && best != local {
            best := c;
          } else if best != local && c < best {
            best := c;
          }
        }
      }
    }

    /** `scheduler_select_best_cpu_from_view`. */
    method SelectCpu(loads: seq<nat>, affinity: set<nat>, preferred: nat, local: nat) returns (r: int)
      requires |loads| == |cpus|
      ensures r == SelectBest(cpus, loads, affinity, preferred, local)
    {
      var online := OnlineCpus();
      if online == {} {
        return NONE;
      }
      var allowed := affinity * online;
      if allowed == {} {
        allowed := online;
      }
      r := ScanCpus(loads, allowed, preferred, preferred != NODE_ANY, local);
      if r == NONE {
        r := ScanCpus(loads, allowed, preferred, false, local);
      }
    }

    /** The load view: queued tasks and the running one, per CPU. */
    method CpuLoads() returns (loads: seq<nat>)
      ensures loads == Loads(Now())
    {
      loads := [];
      for c := 0 to |cpus|
        invariant |loads| == c && forall d :: 0 <= d < c ==> loads[d] == Load(Now(), d)
      {
        var load := cpus[c].queued;
        if 0 <= cpus[c].current < |tasks| && tasks[cpus[c].current].state == Running {
          load := load + 1;
        }
        loads := loads + [load];
      }
    }

    /** A queued slot moves between queues. */
    method RequeueSlot(t: nat, x: Task, from: nat, to: nat)
      requires Linked() && Shape(Now()) && t < |tasks| && tasks[t].priority < LEVELS && from < |cpus| && to < |cpus|
      requires lists.home[t] == T.On(T.RunQueue(from, tasks[t].priority))
      modifies this`tasks, this`cpus, lists
      ensures Linked() && Now() == Requeue(old(Now()), t, x, from, to)
    {
      lists.Remove(T.RunQueue(from, tasks[t].priority), t);
      cpus := cpus[from := cpus[from].(queued := if cpus[from].queued > 0 then cpus[from].queued - 1 else 0)];
      tasks := tasks[t := x];
      EnqueueAt(to, t);
    }

    /** The first slot of a queue that has a better CPU to go to, and that CPU. */
    method SearchQueue(c: nat, l: nat, loads: seq<nat>) returns (t: int, g: int)
      requires Valid() && QueueSlots(Now()) && c < |cpus| && l < LEVELS && loads == Loads(Now())
      ensures t == FirstInQueue(Now(), c, lists.queues[T.RunQueue(c, l)])
      ensures t != NONE ==> 0 <= t < |tasks| && g == SelectBest(cpus, loads, tasks[t].affinity, tasks[t].preferred, c)
    {
      g := NONE;
      ghost var q, i := lists.queues[T.RunQueue(c, l)], 0;
      t := lists.Head(T.RunQueue(c, l));
      while t != NONE
        invariant i <= |q| && t == (if i == |q| then NONE else q[i])
        invariant FirstInQueue(Now(), c, q[i..]) == FirstInQueue(Now(), c, q)
        decreases |q| - i
      {
        g := SelectCpu(loads, tasks[t].affinity, tasks[t].preferred, c);
        if g != NONE && g != c && loads[c] > loads[g] + 1 && g in tasks[t].affinity {
          return;
        }
        t := lists.Next(t, T.RunQueue(c, l), i);
        assert q[i..][1..] == q[i + 1..];
        i := i + 1;
      }
    }

    method SearchLevels(c: nat, loads: seq<nat>) returns (t: int, g: int)
      requires Valid() && QueueSlots(Now()) && c < |cpus| && loads == Loads(Now())
      ensures t == FirstInLevels(Now(), c, LEVELS)
      ensures t != NONE ==> 0 <= t < |tasks| && g == SelectBest(cpus, loads, tasks[t].affinity, tasks[t].preferred, c)
    {
      t, g := NONE, NONE;
      var l := LEVELS;
      while l > 0
        invariant 0 <= l <= LEVELS && FirstInLevels(Now(), c, l) == FirstInLevels(Now(), c, LEVELS) && t == NONE
      {
        t, g := SearchQueue(c, l - 1, loads);
        if t != NONE {
          return;
        }
        l := l - 1;
      }
    }

    method SearchCpus(loads: seq<nat>) returns (t: int, c: nat, g: int)
      requires Valid() && QueueSlots(Now()) && loads == Loads(Now())
      ensures t == FirstMovable(Now(), 0)
      ensures t != NONE ==> 0 <= t < |tasks| && c < |cpus| && t == FirstInLevels(Now(), c, LEVELS) &&
                            g == SelectBest(cpus, loads, tasks[t].affinity, tasks[t].preferred, c)
    {
      t, c, g := NONE, 0, NONE;
      while c < |cpus|
        invariant c <= |cpus| && FirstMovable(Now(), c) == FirstMovable(Now(), 0) && t == NONE
      {
        if cpus[c].online && cpus[c].queued != 0 {
          t, g := SearchLevels(c, loads);
          if t != NONE {
            return;
          }
        }
        c := c + 1;
      }
    }

    /** A runnable task is on the queue of its CPU and level. */
    lemma {:induction false} RunnableHome(t: nat)
      requires Valid() && t < |tasks| && tasks[t].state == Runnable
      ensures TaskAt(Now(), t) && lists.home[t] == T.On(T.RunQueue(tasks[t].cpu, tasks[t].priority))
    {
      TaskFacts(Now(), t);
      QueuedSlots(Now(), tasks[t].cpu, tasks[t].priority);
      assert QueuedOn(Now(), tasks[t].cpu, t);
      lists.HomeIs(T.RunQueue(tasks[t].cpu, tasks[t].priority), t);
    }

    /** One balancing step.  If it moves a task, the load view stays exact, the total load is
        kept and the sum of the squared loads falls; if not, no step is left. */
    method BalanceStep(loads: seq<nat>) returns (moved: bool, loads': seq<nat>)
      requires Valid() && loads == Loads(Now())
      modifies this`tasks, this`cpus, lists
      ensures Valid() && Now() == BalanceOnce(old(Now())) && loads' == Loads(Now())
      ensures moved ==> Sum(loads') == Sum(loads) && Squares(loads') < Squares(loads)
      ensures !moved ==> Now() == old(Now()) && (|cpus| > 1 ==> QueueSlots(Now()) && FirstMovable(Now(), 0) == NONE)
    {
      InvSlots(Now());
      if |cpus| <= 1 {
        return false, loads;
      }
      var t, c, g := SearchCpus(loads);
      if t == NONE {
        return false, loads;
      }
      moved := true;
      loads' := MoveTask(t, c, g, loads);
    }

    /** Moves the task that the search has found, and the view along with it. */
    method MoveTask(t: nat, c: nat, g: int, loads: seq<nat>) returns (loads': seq<nat>)
      requires Valid() && QueueSlots(Now()) && |cpus| > 1 && t < |tasks| && c < |cpus| && loads == Loads(Now())
      requires t == FirstMovable(Now(), 0) && t == FirstInLevels(Now(), c, LEVELS)
      requires g == SelectBest(cpus, loads, tasks[t].affinity, tasks[t].preferred, c)
      modifies this`tasks, this`cpus, lists
      ensures Valid() && Now() == BalanceOnce(old(Now())) && loads' == Loads(Now())
      ensures Sum(loads') == Sum(loads) && Squares(loads') < Squares(loads)
    {
      MoveFacts(Now(), t, c, g);
      RunnableHome(t);
      RequeueSlot(t, tasks[t], c, g);
      loads' := loads[c := loads[c] - 1][g := loads[g] + 1];
    }

    /** `scheduler_balance_periodic`: at most two steps. */
    method BalanceTwice()
      requires Valid()
      modifies this`tasks, this`cpus, lists
      ensures Valid() && Now() == BalancePeriodic(old(Now()))
    {
      var loads := CpuLoads();
      var moved;
      moved, loads := BalanceStep(loads);
      if moved {
        moved, loads := BalanceStep(loads);
      }
    }

    // ----------------------------------------------------------------------------------
    // Interrupt handlers
    // ----------------------------------------------------------------------------------

    /** The task that a CPU runs is on no list. */
    lemma {:induction false} RunningHome(t: nat)
      requires Valid() && t < |tasks| && (tasks[t].state == Running || t in reserved)
      ensures lists.home[t] == T.Off
    {
      if lists.home[t].On? {
        var n := lists.home[t].name;
        lists.HomeOn(t);
        SlotOnList(Now(), t, n);
        TaskFacts(Now(), t);
        TimesDistinct(lists.queues[n], t);
      }
    }

    method Reschedule(c: nat) returns (panicked: bool)
      requires Valid() && c < |cpus|
      modifies this`tasks, this`cpus, lists
      ensures InBounds(old(Now()), c) && (panicked <==> Schedule(old(Now()), c) == Panic)
      ensures !panicked ==> Valid() && Now() == Schedule(old(Now()), c).s
    {
      InvBounds(Now(), c);
      ScheduleAny(Now(), c);
      if RunsTask(Now(), c) { RunningHome(cpus[c].current); }
      panicked := ScheduleCpu(c);
    }

    /** `scheduler_on_yield`. */
    method OnYield(c: nat) returns (panicked: bool)
      requires Valid() && Enabled(Now(), YieldOn(c))
      modifies this`tasks, this`cpus, lists
      ensures panicked <==> Step(old(Now()), YieldOn(c)) == Panic
      ensures !panicked ==> Valid() && Now() == Step(old(Now()), YieldOn(c)).s
    {
      panicked := Reschedule(c);
    }

    /** The front of a tick: the clock, the timers and, on the boot CPU from time to time, the
        balancer. */
    method TickStart(c: nat, smp: bool)
      requires Valid()
      modifies this`tasks, this`cpus, this`waits, this`ticks, this`lastBalance, lists
      ensures Valid() && Now() == TickFront(old(Now()), c, smp)
    {
      AdvanceClock();
      if c == boot && bootstrapped && |cpus| > 1 && smp && ticks >= lastBalance + 16 {
        ClockInv(Now(), ticks, ticks);
        lastBalance := ticks;
        BalanceTwice();
      }
    }

    /** The clock and the timers. */
    method AdvanceClock()
      requires Valid()
      modifies this`tasks, this`cpus, this`waits, this`ticks, lists
      ensures Inv(old(Now()).(ticks := old(ticks) + 1))
      ensures Valid() && Now() == AdvanceTimers(old(Now()).(ticks := old(ticks) + 1))
    {
      ClockInv(Now(), ticks + 1, lastBalance);
      ticks := ticks + 1;
      AdvanceAll();
    }

    method TickEnd(c: nat) returns (panicked: bool)
      requires Valid() && c < |cpus|
      modifies this`tasks, this`cpus, lists
      ensures panicked <==> TickBack(old(Now()), c) == Panic
      ensures !panicked ==> Valid() && Now() == TickBack(old(Now()), c).s
    {
      InvBounds(Now(), c);
      if RunsTask(Now(), c) { Charged(Now(), c); }
      var current := cpus[c].current;
      if !(0 <= current < |tasks| && tasks[current].state == Running) {
        panicked := Reschedule(c);
        return;
      }
      var higher := HasHigherRunnable(c, tasks[current].priority);
      if tasks[current].slice + 1 >= Slice(tasks[current].priority) || higher {
        panicked := ChargeAndSwitch(c);
      } else {
        ChargeInv(Now(), c);
        ChargeTask(c);
        panicked := false;
      }
    }

    method ChargeTask(c: nat)
      requires c < |cpus| && RunsTask(Now(), c)
      modifies this`tasks
      ensures Now() == Charge(old(Now()), c) && |tasks| == |old(tasks)|
    {
      var current := cpus[c].current;
      tasks := tasks[current := tasks[current].(slice := tasks[current].slice + 1)];
    }

    method ChargeAndSwitch(c: nat) returns (panicked: bool)
      requires Valid() && c < |cpus| && RunsTask(Now(), c) && InBounds(Now(), c)
      modifies this`tasks, this`cpus, lists
      ensures panicked <==> Schedule(old(Now()), c) == Panic
      ensures !panicked ==> Valid() && Now() == Schedule(old(Now()), c).s
    {
      RunningHome(cpus[c].current);
      Charged(Now(), c);
      ScheduleAny(Now(), c);
      ChargeTask(c);
      panicked := ScheduleCpu(c);
    }

    /** `scheduler_on_timer_tick`. */
    method OnTimerTick(c: nat, smp: bool) returns (panicked: bool)
      requires Valid() && Enabled(Now(), TickOn(c, smp))
      modifies this`tasks, this`cpus, this`waits, this`ticks, this`lastBalance, lists
      ensures panicked <==> Step(old(Now()), TickOn(c, smp)) == Panic
      ensures !panicked ==> Valid() && Now() == Step(old(Now()), TickOn(c, smp)).s
    {
      TickStart(c, smp);
      panicked := TickEnd(c);
    }

    // ----------------------------------------------------------------------------------
    // Blocking, exit and release
    // ----------------------------------------------------------------------------------

    /** The running task of a CPU goes on a list with the record `x`. */
    method ParkCurrent(c: nat, n: T.Name, x: Task, ghost w: Wait)
      requires Valid() && c < |cpus| && RunsTask(Now(), c) && n in {T.SleepingList, T.BlockedList, T.ZombieList}
      modifies this`tasks, this`waits, lists
      ensures Linked() && Now() == Park(old(Now()), c, n, x, w)
    {
      var t := cpus[c].current;
      RunningHome(t);
      tasks, waits := tasks[t := x], waits[t := w];
      lists.PushBack(n, t);
    }

    /** The switch after the running task has been parked. */
    method LeaveParked(c: nat) returns (panicked: bool)
      requires Linked() && Parked(Now(), c)
      modifies this`tasks, this`cpus, lists
      ensures panicked <==> Schedule(old(Now()), c) == Panic
      ensures !panicked ==> Valid() && Now() == Schedule(old(Now()), c).s
    {
      ScheduleInv(Now(), c);
      panicked := ScheduleCpu(c);
    }

    /** `scheduler_sleep`: the task is due that many ticks from now; zero ticks is a yield. */
    method SleepFor(c: nat, n: nat) returns (panicked: bool)
      requires Valid() && Enabled(Now(), SleepOn(c, n))
      modifies this`tasks, this`cpus, this`waits, lists
      ensures panicked <==> Step(old(Now()), SleepOn(c, n)) == Panic
      ensures !panicked ==> Valid() && Now() == Step(old(Now()), SleepOn(c, n)).s
      ensures !panicked && n > 0 ==> S.SleepsUntil(Now(), old(cpus)[c].current, old(ticks) + n)
    {
      InvBounds(Now(), c);
      if n == 0 {
        panicked := Reschedule(c);
        return;
      }
      panicked := GoToSleep(c, n);
      if !panicked { S.SleepBegins(old(Now()), c, n); }
    }

    method GoToSleep(c: nat, n: nat) returns (panicked: bool)
      requires Valid() && c < |cpus| && RunsTask(Now(), c)
      modifies this`tasks, this`cpus, this`waits, lists
      ensures InBounds(Asleep(old(Now()), c, n), c) && (panicked <==> Schedule(Asleep(old(Now()), c, n), c) == Panic)
      ensures !panicked ==> Valid() && Now() == Schedule(Asleep(old(Now()), c, n), c).s
    {
      AsleepInv(Now(), c, n);
      var t := cpus[c].current;
      ParkCurrent(c, T.SleepingList, tasks[t].(state := Sleeping, wakeup := ticks + n), waits[t]);
      panicked := LeaveParked(c);
    }

    /** `scheduler_wait_channel` up to the switch. */
    method WaitChannel(c: nat, channel: nat, timeout: nat) returns (panicked: bool)
      requires Valid() && Enabled(Now(), WaitOnChannel(c, channel, timeout))
      modifies this`tasks, this`cpus, this`waits, lists
      ensures panicked <==> Step(old(Now()), WaitOnChannel(c, channel, timeout)) == Panic
      ensures !panicked ==> Valid() && Now() == Step(old(Now()), WaitOnChannel(c, channel, timeout)).s
    {
      InvBounds(Now(), c);
      if channel == 0 || timeout == 0 {
        return false;
      }
      panicked := BlockOn(c, channel, timeout);
    }

    method BlockOn(c: nat, channel: nat, timeout: nat) returns (panicked: bool)
      requires Valid() && c < |cpus| && RunsTask(Now(), c) && channel != 0
      modifies this`tasks, this`cpus, this`waits, lists
      ensures InBounds(Waits(old(Now()), c, channel, timeout), c) &&
        (panicked <==> Schedule(Waits(old(Now()), c, channel, timeout), c) == Panic)
      ensures !panicked ==> Valid() && Now() == Schedule(Waits(old(Now()), c, channel, timeout), c).s
    {
      WaitsInv(Now(), c, channel, timeout);
      var t, deadline := cpus[c].current, if timeout == FOREVER then 0 else ticks + timeout;
      ParkCurrent(c, T.BlockedList,
                  tasks[t].(state := Blocked, channel := channel, result := false, wakeup := deadline),
                  Waiting(channel, deadline));
      panicked := LeaveParked(c);
    }

    /** The marking part of `scheduler_exit_current`; the wake of the joiners and the yield are
        sections of their own. */
    method ExitCurrent(c: nat)
      requires Valid() && Enabled(Now(), ExitOn(c))
      modifies this`tasks, this`waits, this`exited, lists
      ensures Valid() && Done(Now()) == Step(old(Now()), ExitOn(c))
    {
      ExitInv(Now(), c);
      var t := cpus[c].current;
      ghost var id := tasks[t].id;
      ParkCurrent(c, T.ZombieList, tasks[t].(state := Zombie), waits[t]);
      exited := exited + {id};
    }

    method OnAnyCpu(t: nat) returns (r: bool)
      ensures r == CurrentSomewhere(cpus, t)
    {
      for c := 0 to |cpus|
        invariant forall d :: 0 <= d < c ==> !(cpus[d].online && cpus[d].current == t)
      {
        if cpus[c].online && cpus[c].current == t {
          return true;
        }
      }
      return false;
    }

    /** A zombie is on the zombie list. */
    lemma {:induction false} ZombieHome(t: nat)
      requires Valid() && t < |tasks| && tasks[t].state == Zombie
      ensures lists.home[t] == T.On(T.ZombieList)
    {
      SlotOnList(Now(), t, T.ZombieList);
      lists.HomeIs(T.ZombieList, t);
      TimesDistinct(lists.queues[T.ZombieList], t);
    }

    /** `scheduler_detach_zombie_task_locked`: hands out the resources of a zombie that no CPU
        sits on and frees its slot. */
    method DetachZombie(t: nat) returns (ok: bool, stack: nat, space: nat)
      requires Valid() && t < |tasks|
      modifies this`tasks, this`waits, this`released, lists
      ensures Valid() && (ok <==> Reapable(old(Now()), t))
      ensures Now() == if ok then Free(old(Now()), t) else old(Now())
      ensures ok ==> stack == old(tasks)[t].stack && space == old(tasks)[t].space
    {
      ok, stack, space := false, 0, 0;
      if tasks[t].state != Zombie {
        return;
      }
      ok := OnAnyCpu(t);
      ok := !ok;
      if !ok {
        return;
      }
      ReapInv(Now(), t);
      ZombieHome(t);
      stack, space := tasks[t].stack, tasks[t].space;
      FreeSlot(t);
    }

    method FreeSlot(t: nat)
      requires Linked() && Shape(Now()) && t < |tasks| && lists.home[t] == T.On(T.ZombieList)
      modifies this`tasks, this`waits, this`released, lists
      ensures Linked() && Now() == Free(old(Now()), t)
    {
      lists.Remove(T.ZombieList, t);
      released := released + [Release(tasks[t].id, tasks[t].stack, tasks[t].space)];
      tasks, waits := tasks[t := ResetTask(boot)], waits[t := NoWait];
      lists.PushBack(T.FreeList, t);
    }

    method FindById(id: nat) returns (t: int)
      ensures t == FindTask(tasks, id, 0)
    {
      t := 0;
      while t < |tasks|
        invariant 0 <= t <= |tasks| && FindTask(tasks, id, t) == FindTask(tasks, id, 0)
      {
        if tasks[t].state != Unused && tasks[t].id == id {
          return;
        }
        t := t + 1;
      }
      t := NONE;
    }

    /** The locked look of `scheduler_join_task` at its task; true ends the join. */
    method JoinLook(id: nat) returns (joined: bool, stack: nat, space: nat)
      requires Valid()
      modifies this`tasks, this`waits, this`released, lists
      ensures Valid() && Now() == Join(old(Now()), id) && (joined <==> JoinSucceeds(old(Now()), id))
      ensures joined ==> released == old(released) + [Release(id, stack, space)]
    {
      joined, stack, space := false, 0, 0;
      var t := FindById(id);
      if t != NONE {
        joined, stack, space := DetachZombie(t);
      }
    }

    /** One round of `scheduler_reap_zombies`: the first zombie that can be released. */
    method ReapRound() returns (detached: bool, stack: nat, space: nat)
      requires Valid()
      modifies this`tasks, this`waits, this`released, lists
      ensures Valid() && Now() == Reap(old(Now()))
      ensures detached ==> exists id :: released == old(released) + [Release(id, stack, space)]
      ensures !detached ==> Now() == old(Now()) && forall t :: 0 <= t < |tasks| ==> !Reapable(Now(), t)
    {
      detached, stack, space := false, 0, 0;
      ListStates(Now());
      AllSlots(Now(), lists.queues[T.ZombieList], Zombie);
      ghost var q, i := lists.queues[T.ZombieList], 0;
      var t := lists.Head(T.ZombieList);
      while t != NONE
        invariant Valid() && Now() == old(Now()) && i <= |q| && t == (if i == |q| then NONE else q[i]) && !detached
        invariant FirstReapable(Now(), q[i..]) == FirstReapable(Now(), q)
        decreases |q| - i
      {
        var next := lists.Next(t, T.ZombieList, i);
        detached, stack, space := DetachZombie(t);
        if detached {
          return;
        }
        assert q[i..][1..] == q[i + 1..];
        t, i := next, i + 1;
      }
      NoneReapable(Now());
    }

    /** `scheduler_reap_zombies`, with nobody else at work between its rounds: it releases zombies
        until the limit is reached or none is left that can be released. */
    method ReapZombies(max: nat) returns (reaped: nat)
      requires Valid()
      modifies this`tasks, this`waits, this`released, lists
      ensures Valid() && old(released) <= released && |released| == |old(released)| + reaped
      ensures reaped <= ReapLimit(max)
      ensures reaped < ReapLimit(max) ==> forall t :: 0 <= t < |tasks| ==> !Reapable(Now(), t)
    {
      reaped := 0;
      while reaped < ReapLimit(max)
        invariant Valid() && old(released) <= released &&
          |released| == |old(released)| + reaped <= |old(released)| + ReapLimit(max)
      {
        var detached, stack, space := ReapRound();
        if !detached {
          return;
        }
        reaped := reaped + 1;
      }
    }

    // ----------------------------------------------------------------------------------
    // Creation and priorities
    // ----------------------------------------------------------------------------------

    /** The first section of a creation: the first free slot, or none. */
    method AllocateSlot() returns (t: int)
      requires Valid()
      modifies this`tasks, this`waits, this`reserved, lists
      ensures Valid() && Done(Now()) == Step(old(Now()), ReserveSlot)
      ensures t == NONE <==> old(lists.queues)[T.FreeList] == []
      ensures t != NONE ==> 0 <= t < |tasks| && t in reserved && t !in old(reserved)
    {
      if lists.queues[T.FreeList] != [] {
        ReserveInv(Now());
        FreeNotReserved(Now(), lists.queues[T.FreeList][0]);
      }
      t := TakeFree();
    }

    method TakeFree() returns (t: int)
      requires Linked() && Shape(Now())
      modifies this`tasks, this`waits, this`reserved, lists
      ensures Linked() && (t == NONE <==> old(lists.queues)[T.FreeList] == [])
      ensures t == NONE ==> Now() == old(Now())
      ensures t != NONE ==>
          0 <= t < |old(tasks)| && t == old(lists.queues)[T.FreeList][0] && Now() == Reserve(old(Now()))
    {
      t := lists.PopFront(T.FreeList);
      if t == NONE {
        return;
      }
      tasks, waits, reserved := tasks[t := ResetTask(boot)], waits[t := NoWait], reserved + {t};
    }

    /** A creation that failed gives its slot back. */
    method ReleaseSlot(t: nat)
      requires Valid() && Enabled(Now(), AbandonSlot(t))
      modifies this`tasks, this`waits, this`reserved, lists
      ensures Valid() && Done(Now()) == Step(old(Now()), AbandonSlot(t))
    {
      AbandonInv(Now(), t);
      RunningHome(t);
      PutFree(t);
    }

    method PutFree(t: nat)
      requires Linked() && Shape(Now()) && t < |tasks| && lists.home[t] == T.Off
      modifies this`tasks, this`waits, this`reserved, lists
      ensures Linked() && Now() == Abandon(old(Now()), t)
    {
      tasks, waits := tasks[t := ResetTask(boot)], waits[t := NoWait];
      reserved := reserved - {t};
      lists.PushBack(T.FreeList, t);
    }

    /** The last section of a creation: the slot becomes a runnable task on the best CPU. */
    method LaunchTask(t: nat, priority: nat, mask: set<nat>, preferred: nat, local: nat, stack: nat, space: nat)
      requires Valid() && Enabled(Now(), CreateTask(t, priority, mask, preferred, local, stack, space))
      modifies this`tasks, this`cpus, this`waits, this`reserved, this`nextId, lists
      ensures Valid() && Done(Now()) == Step(old(Now()), CreateTask(t, priority, mask, preferred, local, stack, space))
      ensures S.Created(old(Now()), Now(), t, if priority < LEVELS then priority else NORMAL, mask,
                        if preferred < nodes then preferred else NODE_ANY, stack, space)
    {
      S.CreateEffect(Now(), t, priority, mask, preferred, local, stack, space);
      var affinity := NormalizeMask(mask);
      var wish := if preferred != NODE_ANY && preferred >= nodes then NODE_ANY else preferred;
      var c := ChooseCpu(affinity, wish, local);
      TargetFits(Now(), mask, wish, local);
      LaunchInv(Now(), t, Sanitize(priority), affinity, wish, c, stack, space);
      LaunchOn(t, Sanitize(priority), affinity, wish, c, stack, space);
    }

    method NormalizeMask(mask: set<nat>) returns (r: set<nat>)
      ensures r == Allowed(cpus, mask)
    {
      var online := OnlineCpus();
      r := mask * online;
      if r == {} {
        r := online;
      }
    }

    /** `scheduler_select_target_cpu`. */
    method ChooseCpu(affinity: set<nat>, preferred: nat, local: nat) returns (c: nat)
      requires boot < |cpus|
      ensures c == TargetCpu(Now(), affinity, preferred, local)
    {
      var loads := CpuLoads();
      var r := SelectCpu(loads, affinity, preferred, local);
      c := if r == NONE then boot else r;
    }

    method LaunchOn(t: nat, p: nat, affinity: set<nat>, wish: nat, c: nat, stack: nat, space: nat)
      requires Valid() && t in reserved && c < |cpus|
      modifies this`tasks, this`cpus, this`waits, this`reserved, this`nextId, lists
      ensures t < |old(tasks)| && Linked() && Now() == Launch(old(Now()), t, p, affinity, wish, c, stack, space)
    {
      ReservedSlots(Now());
      RunningHome(t);
      tasks := tasks[t := Task(nextId, Runnable, p, affinity, wish, c, cpus[c].node, 0, 0, false, 0, stack, space)];
      waits, reserved := waits[t := NoWait], reserved - {t};
      nextId := nextId + 1;
      EnqueueAt(c, t);
    }

    /** `scheduler_bootstrap_cpu_task`: the code a CPU is running becomes a task. */
    method BootstrapCpu(c: nat, space: nat) returns (ok: bool)
      requires Valid()
      modifies this`tasks, this`cpus, this`waits, this`nextId, this`bootstrapped, lists
      ensures Valid() && Done(Now()) == Step(old(Now()), Boot(c, space))
      ensures ok <==> CanBoot(old(Now()), c)
    {
      if c >= |cpus| || !cpus[c].online || cpus[c].current != NONE {
        return false;
      }
      if lists.queues[T.FreeList] != [] { BootstrapInv(Now(), c, space); }
      ok := SeatFirst(c, space);
    }

    method SeatFirst(c: nat, space: nat) returns (ok: bool)
      requires Linked() && Shape(Now()) && c < |cpus|
      modifies this`tasks, this`cpus, this`waits, this`nextId, this`bootstrapped, lists
      ensures Linked() && (ok <==> old(lists.queues)[T.FreeList] != [])
      ensures !ok ==> Now() == old(Now())
      ensures ok ==> old(lists.queues)[T.FreeList][0] < |old(tasks)| && Now() == Bootstrap(old(Now()), c, space)
    {
      var online := OnlineCpus();
      var t := lists.PopFront(T.FreeList);
      if t == NONE {
        return false;
      }
      tasks := tasks[t := Task(nextId, Running, NORMAL, online, NODE_ANY, c, cpus[c].node, 0, 0, false, 0, 0, space)];
      waits, nextId, bootstrapped := waits[t := NoWait], nextId + 1, true;
      cpus := cpus[c := cpus[c].(current := t)];
      return true;
    }

    /** `scheduler_set_task_priority`. */
    method SetTaskPriority(id: nat, p: nat) returns (ok: bool)
      requires Valid()
      modifies this`tasks, this`cpus, lists
      ensures Valid() && Done(Now()) == Step(old(Now()), SetLevel(id, p))
      ensures ok <==> FindTask(old(tasks), id, 0) != NONE
      ensures forall t :: 0 <= t < |old(tasks)| && old(tasks)[t].state != Unused && old(tasks)[t].id == id ==>
                S.LevelSet(old(Now()), Now(), t, if p < LEVELS then p else NORMAL)
    {
      S.LevelEffect(Now(), id, p);
      var t := FindById(id);
      if t == NONE {
        return false;
      }
      SetPriorityInv(Now(), t, p);
      ok := true;
      var x, level := tasks[t], Sanitize(p);
      if x.priority == level {
        return;
      }
      if x.state == Runnable {
        RunnableHome(t);
        RequeueSlot(t, x.(priority := level), x.cpu, x.cpu);
      } else {
        tasks := tasks[t := x.(priority := level, slice := if x.state == Running then 0 else x.slice)];
      }
    }
  }
}
