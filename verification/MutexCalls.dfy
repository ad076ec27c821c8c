/** The mutex protocol call by call: what an unlock wakes, when a try wins, and how long a lock with a
    timeout takes, in every run. */
module MutexCalls {
  import opened Mutex

  // ------------------------------------------------------------------------------------
  // What others do to a task
  // ------------------------------------------------------------------------------------

  /** An event that is not a step of task `t`, nor the beginning of a call. */
  predicate Elsewhere(s: State, e: Event, t: nat)
    requires t < |s.tasks|
  {
    (e.Runs? ==> e.t != t) && (e.Calls? && e.t == t ==> !s.tasks[t].pc.Idle?)
  }

  lemma {:induction false} ApplyOthers(s: State, t: nat, e: Effect, u: nat)
    requires t < |s.tasks| && u < |s.tasks| && u != t
    ensures Apply(s, t, e).tasks[u] == s.tasks[u]
  {
  }

  lemma {:induction false} RunOthers(s: State, t: nat, u: nat)
    requires t < |s.tasks| && u < |s.tasks| && u != t
    ensures Run(s, t).tasks[u] == s.tasks[u].(sleep := Run(s, t).tasks[u].sleep)
  {
    var pc := s.tasks[t].pc;
    if !InWait(pc) && !pc.UnWake? { ApplyOthers(s, t, TaskStep(s.words, s.tasks[t], t, s.ticks), u); }
  }

  lemma {:induction false} OthersLeave(s: State, e: Event, t: nat)
    requires t < |s.tasks| && Elsewhere(s, e, t)
    ensures t < |Step(s, e).tasks| && Step(s, e).tasks[t] == s.tasks[t].(sleep := Step(s, e).tasks[t].sleep)
  {
    StepSize(s, e);
    match e {
      case Calls(_, _) =>
      case Runs(u) => if u < |s.tasks| && !s.halted { RunOthers(s, u, t); }
      case Ticks => ExpireTask(s.(ticks := s.ticks + 1), s.waiters, t);
    }
  }

  lemma {:induction false} HaltStays(s: State, events: seq<Event>)
    requires s.halted
    ensures AfterAll(s, events) == s
    decreases |events|
  {
    if events != [] { HaltStays(s, events[1..]); }
  }

  // ------------------------------------------------------------------------------------
  // Signals and wakes
  // ------------------------------------------------------------------------------------

  /** The event is a wake on the mutex's queue. */
  predicate IsWake(s: State, e: Event) {
    !s.halted && e.Runs? && e.t < |s.tasks| && s.tasks[e.t].pc.UnWake?
  }

  /** The first waiter, if any, leaves the queue with the answer that it was woken; the others stay in
      order, and are not answered. */
  ghost predicate FirstLeaves(s: State, r: State) {
    |r.tasks| == |s.tasks| &&
    if s.waiters == [] then r.waiters == [] && forall u :: 0 <= u < |s.tasks| ==> r.tasks[u].sleep == s.tasks[u].sleep
    else
      s.waiters[0] < |s.tasks| && r.waiters == s.waiters[1..] && s.waiters[0] !in r.waiters &&
      r.tasks[s.waiters[0]].sleep == Woken &&
      forall u :: 0 <= u < |s.tasks| && u != s.waiters[0] ==> r.tasks[u].sleep == s.tasks[u].sleep
  }

  lemma {:induction false} WakeEffect(s: State, e: Event)
    requires Inv(s) && IsWake(s, e)
    ensures FirstLeaves(s, Step(s, e)) && Step(s, e).words == s.words && !s.words.locked && s.words.holder == e.t
  {
    TaskFacts(s, e.t);
    if s.waiters != [] {
      var u := s.waiters[0];
      assert u in s.waiters;
      TaskFacts(s, u);
      assert forall i :: 0 <= i < |s.waiters[1..]| ==> s.waiters[1..][i] == s.waiters[i + 1] != u;
    }
  }

  /** The number of wakes in a run. */
  function WakesDone(s: State, events: seq<Event>): nat
    decreases |events|
  {
    if events == [] then 0 else (if IsWake(s, events[0]) then 1 else 0) + WakesDone(Step(s, events[0]), events[1..])
  }

  /** The tasks that have signaled and not woken yet. */
  function AtWake(s: State): set<nat> {
    set t | 0 <= t < |s.tasks| && s.tasks[t].pc.UnWake?
  }

  predicate HolderWakes(s: State) {
    0 <= s.words.holder < |s.tasks| && s.tasks[s.words.holder].pc.UnWake?
  }

  lemma {:induction false} AtWakeIs(s: State)
    requires Inv(s)
    ensures AtWake(s) == if HolderWakes(s) then {s.words.holder} else {}
    ensures |AtWake(s)| == if HolderWakes(s) then 1 else 0
  {
    forall t | t in AtWake(s) ensures s.words.holder == t { TaskFacts(s, t); }
  }

  lemma {:induction false} TickWords(s: State, rest: seq<nat>)
    ensures Expire(s, rest).words == s.words
    decreases |rest|
  {
    if rest != [] { TickWords(if rest[0] < |s.tasks| then ExpireOne(s, rest[0]) else s, rest[1..]); }
  }

  /** Before its wake a task signals, and nowhere else. */
  predicate SignalsOnWay(w: Words, e: Effect) {
    e.Panics? || e.w.signals == w.signals + if e.x.pc.UnWake? then 1 else 0
  }

  lemma {:induction false} TrySignals(w: Words, x: Task, t: nat)
    requires InTry(x.pc)
    ensures SignalsOnWay(w, TryStep(w, x, t))
  {
  }

  lemma {:induction false} LockSignals(w: Words, x: Task, t: nat, ticks: nat)
    requires InLock(x.pc)
    ensures SignalsOnWay(w, LockStep(w, x, t, ticks))
  {
  }

  lemma {:induction false} OwnSignal(w: Words, x: Task, t: nat, ticks: nat)
    requires !x.pc.UnWake? && !InWait(x.pc)
    ensures SignalsOnWay(w, TaskStep(w, x, t, ticks))
  {
    if InTry(x.pc) { TrySignals(w, x, t); }
    else if InLock(x.pc) { LockSignals(w, x, t, ticks); }
  }

  lemma {:induction false} AtWakeSame(s: State, r: State)
    requires |r.tasks| == |s.tasks|
    requires forall u :: 0 <= u < |s.tasks| ==> (r.tasks[u].pc.UnWake? <==> s.tasks[u].pc.UnWake?)
    ensures AtWake(r) == AtWake(s)
  {
  }

  lemma {:induction false} AtWakeLess(s: State, r: State, t: nat)
    requires |r.tasks| == |s.tasks| && t < |s.tasks| && s.tasks[t].pc.UnWake? && !r.tasks[t].pc.UnWake?
    requires forall u :: 0 <= u < |s.tasks| && u != t ==> r.tasks[u].pc == s.tasks[u].pc
    ensures |AtWake(s)| == |AtWake(r)| + 1
  {
    assert AtWake(s) == AtWake(r) + {t};
  }

  /** One event: signals, wakes and tasks on the way keep step. */
  lemma {:induction false} SignalStep(s: State, e: Event)
    requires Inv(s)
    ensures var r := Step(s, e);
      r.words.signals + |AtWake(s)| == s.words.signals + (if IsWake(s, e) then 1 else 0) + |AtWake(r)|
  {
    var r := Step(s, e);
    StepInv(s, e);
    StepSize(s, e);
    if e.Runs? && e.t < |s.tasks| && !s.halted {
      RunSignal(s, e.t);
    } else {
      if e.Ticks? && !s.halted {
        TickWords(s.(ticks := s.ticks + 1), s.waiters);
      }
      forall u | 0 <= u < |s.tasks| ensures r.tasks[u].pc.UnWake? <==> s.tasks[u].pc.UnWake? {
        if Elsewhere(s, e, u) { OthersLeave(s, e, u); }
      }
      AtWakeSame(s, r);
    }
  }

  /** A step of task `t`, while no other task is on its way to a wake but the one with the spinlock. */
  lemma {:induction false} RunSignal(s: State, t: nat)
    requires Inv(s) && t < |s.tasks| && !s.halted && Inv(Run(s, t))
    ensures var r := Run(s, t);
      r.words.signals + |AtWake(s)| == s.words.signals + (if s.tasks[t].pc.UnWake? then 1 else 0) + |AtWake(r)|
  {
    var x, r := s.tasks[t], Run(s, t);
    forall u | 0 <= u < |s.tasks| && u != t ensures r.tasks[u].pc == s.tasks[u].pc { RunOthers(s, t, u); }
    if x.pc.UnWake? {
      WakeEffect(s, Runs(t));
      AtWakeLess(s, r, t);
    } else if InWait(x.pc) {
      AtWakeSame(s, r);
    } else {
      OwnSignal(s.words, x, t, s.ticks);
      if r.tasks[t].pc.UnWake? { AtWakeLess(r, s, t); } else { AtWakeSame(s, r); }
    }
  }

  /** In every run there are as many signals as wakes done and wakes on the way: no unlock signals
      without waking. */
  lemma {:induction false} SignalsAreWakes(n: nat, events: seq<Event>)
    requires n < U32
    ensures var s := AfterAll(Start(n), events);
      s.words.signals == WakesDone(Start(n), events) + |AtWake(s)| && |AtWake(s)| <= 1
  {
    StartInv(n);
    assert AtWake(Start(n)) == {};
    SignalRun(Start(n), events);
    RunKeepsInv(Start(n), events);
    AtWakeIs(AfterAll(Start(n), events));
  }

  lemma {:induction false} SignalRun(s: State, events: seq<Event>)
    requires Inv(s)
    ensures var r := AfterAll(s, events);
      r.words.signals + |AtWake(s)| == s.words.signals + WakesDone(s, events) + |AtWake(r)|
    decreases |events|
  {
    if events != [] {
      SignalStep(s, events[0]);
      StepInv(s, events[0]);
      SignalRun(Step(s, events[0]), events[1..]);
    }
  }

  // ------------------------------------------------------------------------------------
  // An unlock that returns has woken
  // ------------------------------------------------------------------------------------

  lemma {:induction false} SignalsGrow(s: State, e: Event)
    requires Inv(s)
    ensures s.words.signals <= Step(s, e).words.signals
  {
    if e.Ticks? { TickWords(s.(ticks := s.ticks + 1), s.waiters); }
    if e.Runs? && e.t < |s.tasks| {
      var x := s.tasks[e.t];
      if x.pc.UnWake? { if !s.halted { WakeEffect(s, e); } }
      else if !InWait(x.pc) { OwnSignal(s.words, x, e.t, s.ticks); }
    }
  }

  /** In the unlock, before the wake. */
  predicate Unlocking(pc: Pc) { InUnlock(pc) && !pc.UnDone? }

  /** The event is a step of task `t`, which has the spinlock, has given up the mutex and signaled,
      and by it the first waiter leaves the queue. */
  ghost predicate Wakes(s: State, e: Event, t: nat, signals: nat) {
    !s.halted && e == Runs(t) && s.words.holder == t && !s.words.locked && signals < s.words.signals &&
    FirstLeaves(s, Step(s, e))
  }

  ghost predicate WokeIn(s: State, events: seq<Event>, t: nat, signals: nat)
    decreases |events|
  {
    events != [] && (Wakes(s, events[0], t, signals) || WokeIn(Step(s, events[0]), events[1..], t, signals))
  }

  lemma {:induction false} UnlockOwn(w: Words, x: Task, t: nat)
    requires Unlocking(x.pc) && !x.pc.UnWake? && UnlockStep(w, x, t).Goes?
    ensures Unlocking(UnlockStep(w, x, t).x.pc)
  {
  }

  lemma {:induction false} UnlockRun(s: State, events: seq<Event>, t: nat, signals: nat)
    requires Inv(s) && t < |s.tasks| && Unlocking(s.tasks[t].pc)
    requires signals <= s.words.signals && (s.tasks[t].pc.UnWake? ==> signals < s.words.signals)
    requires var r := AfterAll(s, events); !r.halted && |r.tasks| == |s.tasks| && r.tasks[t].pc.Idle?
    ensures WokeIn(s, events, t, signals)
    decreases |events|
  {
    if s.halted { HaltStays(s, events); }
    var e, x := events[0], s.tasks[t];
    StepInv(s, e);
    StepSize(s, e);
    SignalsGrow(s, e);
    if e == Runs(t) {
      if x.pc.UnWake? {
        WakeEffect(s, e);
      } else {
        OwnSignal(s.words, x, t, s.ticks);
        if UnlockStep(s.words, x, t).Panics? { HaltStays(Step(s, e), events[1..]); }
        UnlockOwn(s.words, x, t);
        UnlockRun(Step(s, e), events[1..], t, signals);
      }
    } else {
      OthersLeave(s, e, t);
      UnlockRun(Step(s, e), events[1..], t, signals);
    }
  }

  /** In every run, between a task's call of unlock and its return, the task has given up the mutex
      and signaled, and then the first waiter of the queue, if any, has left it with the answer
      that it was woken. */
  lemma {:induction false} UnlockWakes(n: nat, before: seq<Event>, events: seq<Event>, t: nat)
    requires n < U32 && t < n
    requires var s := AfterAll(Start(n), before); !s.halted && |s.tasks| == n && s.tasks[t].pc.Idle?
    requires var r := AfterAll(Step(AfterAll(Start(n), before), Calls(t, Unlock)), events);
      !r.halted && |r.tasks| == n && r.tasks[t].pc.Idle?
    ensures var s := AfterAll(Start(n), before);
      WokeIn(Step(s, Calls(t, Unlock)), events, t, s.words.signals)
  {
    var s := AfterAll(Start(n), before);
    StartInv(n);
    RunKeepsInv(Start(n), before);
    StepInv(s, Calls(t, Unlock));
    UnlockRun(Step(s, Calls(t, Unlock)), events, t, s.words.signals);
  }

  // ------------------------------------------------------------------------------------
  // What a try and a lock answer
  // ------------------------------------------------------------------------------------

  /** Task `t` stays in the mutex code all along. */
  ghost predicate Busy(s: State, events: seq<Event>, t: nat)
    decreases |events|
  {
    t < |s.tasks| && !s.tasks[t].pc.Idle? && (events != [] ==> Busy(Step(s, events[0]), events[1..], t))
  }

  /** While a task has the spinlock, no other task writes `locked` or the owner. */
  lemma {:induction false} OthersWords(s: State, e: Event, t: nat)
    requires Inv(s) && t < |s.tasks| && InSpin(s.tasks[t].pc) && Elsewhere(s, e, t)
    ensures Step(s, e).words.locked == s.words.locked && Step(s, e).words.owner == s.words.owner
  {
    TaskFacts(s, t);
    if e.Ticks? { TickWords(s.(ticks := s.ticks + 1), s.waiters); }
    if e.Runs? && e.t < |s.tasks| && !s.halted {
      var x := s.tasks[e.t];
      if x.pc.UnWake? { WakeEffect(s, e); }
      else if !InWait(x.pc) && !x.pc.Idle? {
        assert TaskAt(s, e.t);
        StepGood(s.words, x, e.t, s.ticks);
      }
    }
  }

  /** The try after its test, which found the mutex free or not. */
  predicate Tried(pc: Pc, free: bool) {
    if free then pc.TrySet? || pc.TryName? || pc.TryWon? else pc.TryOwner? || pc.TryLost?
  }

  predicate Trying(w: Words, pc: Pc, free: bool) {
    (pc.TryTest? && free == !w.locked) || Tried(pc, free)
  }

  lemma {:induction false} TryOwn(w: Words, x: Task, t: nat, free: bool)
    requires Trying(w, x.pc, free) && TryStep(w, x, t).Goes? && !TryStep(w, x, t).x.pc.Idle?
    ensures Trying(TryStep(w, x, t).w, TryStep(w, x, t).x.pc, free)
  {
  }

  lemma {:induction false} TryRun(s: State, events: seq<Event>, t: nat, free: bool)
    requires Inv(s) && Busy(s, events, t) && Trying(s.words, s.tasks[t].pc, free)
    ensures var r := AfterAll(s, events);
      Inv(r) && t < |r.tasks| && Trying(r.words, r.tasks[t].pc, free)
    decreases |events|
  {
    if events != [] {
      var e, x := events[0], s.tasks[t];
      StepInv(s, e);
      if e == Runs(t) {
        if TryStep(s.words, x, t).Goes? && !s.halted { TryOwn(s.words, x, t, free); }
      } else {
        OthersLeave(s, e, t);
        OthersWords(s, e, t);
      }
      TryRun(Step(s, e), events[1..], t, free);
    }
  }

  /** A try wins exactly if the mutex was free when it tested it with the spinlock.  It then holds
      the mutex; otherwise the mutex is still locked, by another task. */
  lemma {:induction false} TryAnswers(s: State, events: seq<Event>, t: nat)
    requires Inv(s) && Busy(s, events, t) && s.tasks[t].pc.TryTest?
    ensures var r := AfterAll(s, events);
      t < |r.tasks| &&
      (r.tasks[t].pc.TryWon? ==> !s.words.locked && r.tasks[t].holds && r.words.locked && r.words.owner == t) &&
      (r.tasks[t].pc.TryLost? ==> s.words.locked && r.words.locked && r.words.owner != t)
  {
    TryRun(s, events, t, !s.words.locked);
    TaskFacts(AfterAll(s, events), t);
  }

  /** The call's time and the tick of the call, which no step changes. */
  lemma {:induction false} CallKept(s: State, e: Event, t: nat)
    requires t < |s.tasks| && !s.tasks[t].pc.Idle?
    ensures t < |Step(s, e).tasks|
    ensures Step(s, e).tasks[t].timeout == s.tasks[t].timeout && Step(s, e).tasks[t].start == s.tasks[t].start
  {
    if e == Runs(t) {
      if !s.halted && !InWait(s.tasks[t].pc) && !s.tasks[t].pc.UnWake? {
        TaskKept(s.words, s.tasks[t], t, s.ticks);
      }
    } else {
      OthersLeave(s, e, t);
    }
  }

  lemma {:induction false} TaskKept(w: Words, x: Task, t: nat, ticks: nat)
    ensures var e := TaskStep(w, x, t, ticks); e.Goes? ==> e.x.timeout == x.timeout && e.x.start == x.start
  {
  }

  lemma {:induction false} CallRun(s: State, events: seq<Event>, t: nat)
    requires Inv(s) && Busy(s, events, t)
    ensures var r := AfterAll(s, events);
      Inv(r) && t < |r.tasks| && r.tasks[t].timeout == s.tasks[t].timeout && r.tasks[t].start == s.tasks[t].start
    decreases |events|
  {
    if events != [] {
      StepInv(s, events[0]);
      CallKept(s, events[0], t);
      CallRun(Step(s, events[0]), events[1..], t);
    }
  }

  /** A lock with a timeout answers false only with the mutex locked, when at least that many ticks
      have passed since the call, and not if it is to wait forever; it answers true only with the
      mutex held. */
  lemma {:induction false} LockAnswers(s: State, timeout: Word, events: seq<Event>, t: nat)
    requires Inv(s) && t < |s.tasks| && s.tasks[t].pc.Idle? && !s.halted
    requires Busy(Step(s, Calls(t, LockTimeout(timeout))), events, t)
    ensures var r := AfterAll(Step(s, Calls(t, LockTimeout(timeout))), events);
      t < |r.tasks| &&
      (r.tasks[t].pc.Won? ==> r.tasks[t].holds && r.words.locked && r.words.owner == t) &&
      (r.tasks[t].pc.Lost? ==> r.words.locked && timeout != FOREVER && s.ticks + timeout <= r.ticks)
  {
    StepInv(s, Calls(t, LockTimeout(timeout)));
    CallRun(Step(s, Calls(t, LockTimeout(timeout))), events, t);
    TaskFacts(AfterAll(Step(s, Calls(t, LockTimeout(timeout))), events), t);
  }
}
