/** The sleepable mutex: a spinlock, a condition with a sequence number, a wait queue on a
    scheduler channel, and any number of tasks that lock, try and unlock in any interleaving.
    One step is one access to shared memory, or one locked section of the scheduler. */
module Mutex {
  const NONE: int := -1
  const FOREVER: nat := 0xFFFF_FFFF
  const U32: nat := 0x1_0000_0000

  /** Where a task is in the code. */
  datatype Pc =
    | Idle
    // kmutex_try_lock: the exchange, `locked` read, the owner read, `locked` written, the owner
    // written, the two ways out
    | TrySpin | TryTest | TryOwner | TrySet | TryName | TryWon | TryLost
    // kmutex_lock_timeout: the exchange, the same four accesses, the clock read, the two ways out
    | LockSpin | Check | CheckOwner | Elapse | LockSet | LockName | Won | Lost
    // kcondition_wait: sequence read, spinlock drop, test, second look, spinlock again, and the
    // test behind it in kmutex_lock_timeout
    | Observe | Drop | Test | Retest | Relock | After
    // kwait_wait: count up, block, blocked, count down
    | Inc | Block | Wait | Dec
    // kmutex_unlock: the exchange, `locked` and the owner read, the owner and `locked` written,
    // kcondition_signal's two steps, the way out
    | UnSpin | UnCheck | UnOwner | UnName | UnClear | UnSeq | UnWake | UnDone

  /** A task's channel wait, as the scheduler sees it; deadline 0 is none. */
  datatype Sleep = Awake | Asleep(deadline: nat) | Woken | Expired

  /** A task's local variables, and history: `holds` between a successful lock and its unlock,
      `looked` the tick of the last look at the clock, `seen` and `last` the number of signals so
      far when the sequence was observed and when it was last compared. */
  datatype Task = Task(pc: Pc, timeout: nat, start: nat, wait: nat, observed: nat, signaled: bool, sleep: Sleep,
                       holds: bool, looked: nat, seen: nat, last: nat)

  /** The words of spinlock, mutex and condition.  History: `holder` is the task that has the
      spinlock, `signals` the number of signals so far. */
  datatype Words = Words(spin: bool, locked: bool, owner: int, sequence: nat, holder: int, signals: nat)

  /** The words, the waiter count, the clock, the waiters in the order they blocked, the tasks. */
  datatype State = State(words: Words, count: nat, ticks: nat, waiters: seq<nat>, tasks: seq<Task>, halted: bool)

  type Word = x: nat | x < U32

  datatype Call = TryLock | LockTimeout(timeout: Word) | Unlock

  datatype Event = Calls(t: nat, call: Call) | Runs(t: nat) | Ticks

  /** What a step of a task does to the words and to the task; a panic stops the kernel. */
  datatype Effect = Panics | Goes(w: Words, x: Task)

  // ------------------------------------------------------------------------------------
  // Steps
  // ------------------------------------------------------------------------------------

  /** The exchange of `kspin_lock`: it takes the lock or has to be tried again. */
  function Acquire(w: Words, x: Task, t: nat, pc: Pc): Effect {
    if w.spin then Goes(w, x) else Goes(w.(spin := true, holder := t), x.(pc := pc))
  }

  function Release(w: Words, x: Task, pc: Pc): Effect {
    Goes(w.(spin := false, holder := NONE), x.(pc := pc))
  }

  function Goto(w: Words, x: Task, pc: Pc): Effect { Goes(w, x.(pc := pc)) }

  /** The write of the owner makes the task the holder of the mutex. */
  function Name(w: Words, x: Task, t: nat, pc: Pc): Effect {
    Goes(w.(owner := t), x.(pc := pc, holds := true))
  }

  function TryStep(w: Words, x: Task, t: nat): Effect {
    match x.pc
    case TrySpin => Acquire(w, x, t, TryTest)
    case TryTest => Goto(w, x, if w.locked then TryOwner else TrySet)
    case TryOwner => if w.owner == t then Panics else Goto(w, x, TryLost)
    case TrySet => Goto(w.(locked := true), x, TryName)
    case TryName => Name(w, x, t, TryWon)
    case TryWon => Release(w, x, Idle)
    case TryLost => Release(w, x, Idle)
    case _ => Goes(w, x)
  }

  function LockStep(w: Words, x: Task, t: nat, ticks: nat): Effect {
    match x.pc
    case LockSpin => Acquire(w, x, t, Check)
    case Check => Goto(w, x, if w.locked then CheckOwner else LockSet)
    case CheckOwner =>
      if w.owner == t then Panics
      else if x.timeout == FOREVER then Goes(w, x.(pc := Observe, wait := FOREVER, looked := ticks))
      else Goto(w, x, Elapse)
    case Elapse =>
      if ticks - x.start >= x.timeout then Goto(w, x, Lost)
      else
        var wait := if ticks >= x.start then x.timeout - (ticks - x.start) else x.timeout;
        Goes(w, x.(pc := Observe, wait := wait, looked := ticks))
    case After => Goto(w, x, if !x.signaled && x.timeout != FOREVER && w.locked then Lost else Check)
    case LockSet => Goto(w.(locked := true), x, LockName)
    case LockName => Name(w, x, t, Won)
    case Won => Release(w, x, Idle)
    case Lost => Release(w, x, Idle)
    case _ => Goes(w, x)
  }

  function ConditionStep(w: Words, x: Task, t: nat): Effect {
    match x.pc
    case Observe => Goes(w, x.(pc := Drop, observed := w.sequence, seen := w.signals))
    case Drop => Release(w, x.(signaled := false), Test)
    case Test =>
      if w.sequence != x.observed then Goes(w, x.(pc := Relock, signaled := true, last := w.signals))
      else Goto(w, x, Inc)
    case Retest => Goes(w, x.(pc := Relock, signaled := w.sequence != x.observed, last := w.signals))
    case Relock => Acquire(w, x, t, After)
    case _ => Goes(w, x)
  }

  /** All of the unlock but the wake. */
  function UnlockStep(w: Words, x: Task, t: nat): Effect {
    match x.pc
    case UnSpin => Acquire(w, x, t, UnCheck)
    case UnCheck => if !w.locked then Panics else Goto(w, x, UnOwner)
    case UnOwner => if w.owner != t then Panics else Goto(w, x, UnName)
    case UnName => Goes(w.(owner := NONE), x.(pc := UnClear, holds := false))
    case UnClear => Goto(w.(locked := false), x, UnSeq)
    case UnSeq => Goto(w.(sequence := (w.sequence + 1) % U32, signals := w.signals + 1), x, UnWake)
    case UnDone => Release(w, x, Idle)
    case _ => Goes(w, x)
  }

  function At(s: State, t: nat, x: Task): (r: State)
    requires t < |s.tasks|
    ensures |r.tasks| == |s.tasks|
  {
    s.(tasks := s.tasks[t := x])
  }

  function Panic(s: State): State { s.(halted := true) }

  function Apply(s: State, t: nat, e: Effect): (r: State)
    requires t < |s.tasks|
    ensures |r.tasks| == |s.tasks|
  {
    if e.Panics? then Panic(s) else At(s, t, e.x).(words := e.w)
  }

  function WaitStep(s: State, t: nat): (r: State)
    requires t < |s.tasks|
    ensures |r.tasks| == |s.tasks|
  {
    var x := s.tasks[t];
    match x.pc
    case Inc => At(s, t, x.(pc := Block)).(count := (s.count + 1) % U32)
    case Block =>
      if x.wait == 0 then At(s, t, x.(pc := Dec, sleep := Expired))
      else
        var deadline := if x.wait == FOREVER then 0 else s.ticks + x.wait;
        At(s, t, x.(pc := Wait, sleep := Asleep(deadline))).(waiters := s.waiters + [t])
    case Wait => if x.sleep.Asleep? then s else At(s, t, x.(pc := Dec))
    case Dec =>
      var after := (s.count + U32 - 1) % U32;
      if after == U32 - 1 then Panic(s.(count := after))
      else At(s, t, x.(pc := if x.sleep == Woken then Test else Retest, sleep := Awake)).(count := after)
    case _ => s
  }

  /** The first waiter is woken. */
  function WakeFirst(s: State): (r: State)
    ensures |r.tasks| == |s.tasks|
  {
    if s.waiters == [] || s.waiters[0] >= |s.tasks| then s
    else At(s, s.waiters[0], s.tasks[s.waiters[0]].(sleep := Woken)).(waiters := s.waiters[1..])
  }

  predicate InTry(pc: Pc) {
    pc.TrySpin? || pc.TryTest? || pc.TryOwner? || pc.TrySet? || pc.TryName? || pc.TryWon? || pc.TryLost?
  }

  predicate InLock(pc: Pc) {
    pc.LockSpin? || pc.Check? || pc.CheckOwner? || pc.Elapse? || pc.LockSet? || pc.LockName? || pc.Won? || pc.Lost? ||
    pc.After?
  }

  predicate InCondition(pc: Pc) { pc.Observe? || pc.Drop? || pc.Test? || pc.Retest? || pc.Relock? }

  predicate InWait(pc: Pc) { pc.Inc? || pc.Block? || pc.Wait? || pc.Dec? }

  predicate InUnlock(pc: Pc) {
    pc.UnSpin? || pc.UnCheck? || pc.UnOwner? || pc.UnName? || pc.UnClear? || pc.UnSeq? || pc.UnWake? || pc.UnDone?
  }

  /** The step of a task that concerns only the words and the task. */
  function TaskStep(w: Words, x: Task, t: nat, ticks: nat): Effect {
    if InTry(x.pc) then TryStep(w, x, t)
    else if InLock(x.pc) then LockStep(w, x, t, ticks)
    else if InCondition(x.pc) then ConditionStep(w, x, t)
    else UnlockStep(w, x, t)
  }

  /** Task `t` makes its next step. */
  function Run(s: State, t: nat): (r: State)
    requires t < |s.tasks|
    ensures |r.tasks| == |s.tasks|
  {
    var x := s.tasks[t];
    if InWait(x.pc) then WaitStep(s, t)
    else if x.pc.UnWake? then WakeFirst(At(s, t, x.(pc := UnDone)))
    else Apply(s, t, TaskStep(s.words, x, t, s.ticks))
  }

  /** A task that is not in the mutex code calls into it. */
  function Enter(s: State, t: nat, call: Call): (r: State)
    requires t < |s.tasks|
    ensures |r.tasks| == |s.tasks|
  {
    var x := s.tasks[t];
    if x.pc != Idle then s
    else match call
      case TryLock => At(s, t, x.(pc := TrySpin))
      case LockTimeout(timeout) => At(s, t, x.(pc := LockSpin, timeout := timeout, start := s.ticks))
      case Unlock => At(s, t, x.(pc := UnSpin))
  }

  predicate Due(x: Task, ticks: nat) { x.sleep.Asleep? && x.sleep.deadline != 0 && x.sleep.deadline <= ticks }

  function ExpireOne(s: State, t: nat): (r: State)
    requires t < |s.tasks|
    ensures |r.tasks| == |s.tasks|
  {
    if Due(s.tasks[t], s.ticks) then At(s, t, s.tasks[t].(sleep := Expired)).(waiters := Drop1(s.waiters, t)) else s
  }

  /** A tick ends the waits whose deadline has come. */
  function Expire(s: State, rest: seq<nat>): State
    decreases |rest|
  {
    if rest == [] then s else Expire(if rest[0] < |s.tasks| then ExpireOne(s, rest[0]) else s, rest[1..])
  }

  function Drop1(q: seq<nat>, t: nat): seq<nat> {
    if q == [] then [] else if q[0] == t then q[1..] else [q[0]] + Drop1(q[1..], t)
  }

  function Step(s: State, e: Event): State {
    if s.halted then s
    else match e
      case Calls(t, call) => if t < |s.tasks| then Enter(s, t, call) else s
      case Runs(t) => if t < |s.tasks| then Run(s, t) else s
      case Ticks => Expire(s.(ticks := s.ticks + 1), s.waiters)
  }

  // ------------------------------------------------------------------------------------
  // The invariant
  // ------------------------------------------------------------------------------------

  /** The task has the spinlock. */
  predicate InSpin(pc: Pc) {
    (InTry(pc) && !pc.TrySpin?) || (InLock(pc) && !pc.LockSpin?) || pc.Observe? || pc.Drop? ||
    (InUnlock(pc) && !pc.UnSpin?)
  }

  /** The task is between its write of one of the two words and its write of the other. */
  predicate MidWrite(pc: Pc) { pc.TryName? || pc.LockName? || pc.UnClear? }

  /** What the task has read or written of the two words is still so: nobody else writes them while
      it has the spinlock. */
  predicate ReadsOk(x: Task, t: nat, locked: bool, owner: int) {
    (InSpin(x.pc) && !MidWrite(x.pc) ==> (locked <==> owner != NONE)) && (MidWrite(x.pc) ==> locked && owner == NONE) &&
    (x.pc.TrySet? || x.pc.LockSet? ==> !locked) && (x.pc.TryOwner? || x.pc.CheckOwner? || x.pc.UnOwner? ==> locked) &&
    (x.pc.UnName? ==> locked && owner == t) && (x.pc.TryWon? || x.pc.Won? ==> x.holds) &&
    (x.pc.Elapse? || x.pc.Lost? ==> locked) && (x.pc.TryLost? ==> locked && owner != t) &&
    (x.pc.UnSeq? || x.pc.UnWake? || x.pc.UnDone? ==> !locked)
  }

  /** The task has counted itself as a waiter. */
  predicate Counted(pc: Pc) { pc.Block? || pc.Wait? || pc.Dec? }

  /** At least the asked number of ticks has passed since the call, and it was not to wait forever. */
  predicate Late(x: Task, ticks: nat) {
    x.timeout != FOREVER && x.start + x.timeout <= ticks
  }

  /** The wait asked for is what was left of the call's time at the last look at the clock. */
  predicate AsksForTheRest(x: Task, ticks: nat) {
    x.start <= x.looked <= ticks &&
    if x.timeout == FOREVER then x.wait == FOREVER else 0 < x.wait && x.start + x.timeout == x.looked + x.wait
  }

  /** The observed sequence number is that of the signals seen; the answer compares the signals at
      the last look with them, modulo 2^32. */
  predicate SignalOk(x: Task, signals: nat) {
    ((InCondition(x.pc) && !x.pc.Observe?) || InWait(x.pc) || x.pc.After? ==>
      x.observed == x.seen % U32 && x.seen <= signals) &&
    (x.pc.Relock? || x.pc.After? ==> x.seen <= x.last <= signals && (x.signaled <==> x.last % U32 != x.seen % U32))
  }

  predicate ClockOk(x: Task, ticks: nat) {
    x.timeout <= FOREVER && (InLock(x.pc) || InCondition(x.pc) || InWait(x.pc) ==> x.start <= ticks) &&
    (x.pc.Observe? || x.pc.Drop? || x.pc.Test? || InWait(x.pc) ==> AsksForTheRest(x, ticks)) &&
    (x.pc.Elapse? ==> x.timeout != FOREVER) && (x.pc.Retest? || x.pc.Lost? ==> Late(x, ticks)) &&
    ((x.pc.Relock? || x.pc.After?) && !x.signaled ==> Late(x, ticks))
  }

  predicate SleepOk(x: Task, ticks: nat) {
    match x.sleep
    case Awake => !x.pc.Wait? && !x.pc.Dec?
    case Asleep(deadline) =>
      x.pc.Wait? && if x.timeout == FOREVER then deadline == 0 else x.start + x.timeout <= deadline && 0 < deadline
    case Woken => x.pc.Wait? || x.pc.Dec?
    case Expired => (x.pc.Wait? || x.pc.Dec?) && Late(x, ticks)
  }

  predicate Look(w: Words, x: Task, k: int) { true }

  /** A task fits the words that it shares with the others, and its clock, sleep and signals.  The
      guard keeps proofs that only pass this on from looking inside. */
  ghost predicate Fits(w: Words, x: Task, t: nat, ticks: nat) {
    forall k :: Look(w, x, k) ==>
      (InSpin(x.pc) <==> w.holder == t) && (x.holds <==> w.locked && w.owner == t) &&
      ReadsOk(x, t, w.locked, w.owner) &&
      ClockOk(x, ticks) && SleepOk(x, ticks) && SignalOk(x, w.signals)
  }

  /** The words of the spinlock, the mutex and the condition.  While nobody has the spinlock,
      `locked` and the owner agree. */
  predicate WordsOk(w: Words) {
    (w.spin <==> w.holder != NONE) && (w.owner != NONE ==> w.locked) &&
    (w.holder == NONE ==> (w.locked <==> w.owner != NONE)) && w.sequence == w.signals % U32
  }

  ghost predicate TaskAt(s: State, t: nat) {
    t < |s.tasks| && Fits(s.words, s.tasks[t], t, s.ticks) && (t in s.waiters <==> s.tasks[t].sleep.Asleep?)
  }

  ghost predicate Distinct(q: seq<nat>) {
    forall i, j :: 0 <= i < j < |q| ==> q[i] != q[j]
  }

  function CountedTasks(tasks: seq<Task>): set<nat> {
    set t | 0 <= t < |tasks| && Counted(tasks[t].pc)
  }

  ghost predicate Inv(s: State) {
    |s.tasks| < U32 && WordsOk(s.words) && s.count == |CountedTasks(s.tasks)| &&
    Distinct(s.waiters) && (forall x :: x in s.waiters ==> x < |s.tasks|) &&
    forall t :: 0 <= t < |s.tasks| ==> TaskAt(s, t)
  }

  lemma {:induction false} CountSame(s: State, t: nat, x: Task)
    requires t < |s.tasks| && (Counted(x.pc) <==> Counted(s.tasks[t].pc))
    ensures CountedTasks(s.tasks[t := x]) == CountedTasks(s.tasks)
  {
  }

  lemma {:induction false} CountUp(s: State, t: nat, x: Task)
    requires t < |s.tasks| && Counted(x.pc) && !Counted(s.tasks[t].pc)
    ensures |CountedTasks(s.tasks[t := x])| == |CountedTasks(s.tasks)| + 1
  {
    assert CountedTasks(s.tasks[t := x]) == CountedTasks(s.tasks) + {t};
  }

  lemma {:induction false} CountDown(s: State, t: nat, x: Task)
    requires t < |s.tasks| && !Counted(x.pc) && Counted(s.tasks[t].pc)
    ensures |CountedTasks(s.tasks[t := x])| == |CountedTasks(s.tasks)| - 1 && t in CountedTasks(s.tasks)
  {
    assert t in CountedTasks(s.tasks);
    assert CountedTasks(s.tasks[t := x]) == CountedTasks(s.tasks) - {t};
  }

  lemma {:induction false} CountBelow(tasks: seq<Task>)
    ensures |CountedTasks(tasks)| <= |tasks|
  {
    if tasks != [] {
      var n := |tasks| - 1;
      CountBelow(tasks[..n]);
      assert CountedTasks(tasks) <= CountedTasks(tasks[..n]) + {n};
      SubsetSize(CountedTasks(tasks), CountedTasks(tasks[..n]) + {n});
    }
  }

  lemma {:induction false} SubsetSize(a: set<nat>, b: set<nat>)
    requires a <= b
    ensures |a| <= |b|
  {
    assert b == a + (b - a);
  }

  // ------------------------------------------------------------------------------------
  // Steps on the words
  // ------------------------------------------------------------------------------------

  /** A step of `t` that takes or gives up the spinlock at most for itself, and writes the words of
      the mutex only while it has the spinlock and nobody else holds the mutex. */
  predicate OwnStep(w: Words, v: Words, t: nat) {
    WordsOk(v) && w.signals <= v.signals &&
    (v.holder == w.holder || (w.holder == NONE && v.holder == t) || (w.holder == t && v.holder == NONE)) &&
    ((v.locked == w.locked && v.owner == w.owner) ||
     (w.holder == t && (w.owner == t || w.owner == NONE) && (v.owner == t || v.owner == NONE)))
  }

  /** Nobody else notices such a step: a task without the spinlock relies on neither word. */
  lemma {:induction false} OthersKept(w: Words, v: Words, t: nat, x: Task, u: nat, ticks: nat)
    requires u != t && OwnStep(w, v, t) && Fits(w, x, u, ticks)
    ensures Fits(v, x, u, ticks)
  {
    assert Look(w, x, 0);
  }

  /** What a step does, if it does not panic: it fits the task, and is one of its own. */
  ghost predicate Good(w: Words, e: Effect, t: nat, ticks: nat) {
    e.Panics? || (OwnStep(w, e.w, t) && Fits(e.w, e.x, t, ticks) && !Counted(e.x.pc) && e.x.sleep.Awake?)
  }

  lemma {:induction false} TryMidGood(w: Words, x: Task, t: nat, ticks: nat)
    requires WordsOk(w) && Fits(w, x, t, ticks) && (x.pc.TryTest? || x.pc.TryOwner? || x.pc.TrySet?)
    ensures Good(w, TryStep(w, x, t), t, ticks)
  {
    assert Look(w, x, 0);
  }

  lemma {:induction false} TryGood(w: Words, x: Task, t: nat, ticks: nat)
    requires WordsOk(w) && Fits(w, x, t, ticks) && InTry(x.pc)
    ensures Good(w, TryStep(w, x, t), t, ticks)
  {
    if x.pc.TryTest? || x.pc.TryOwner? || x.pc.TrySet? {
      TryMidGood(w, x, t, ticks);
    } else {
      assert Look(w, x, 0);
    }
  }

  lemma {:induction false} LockMidGood(w: Words, x: Task, t: nat, ticks: nat)
    requires WordsOk(w) && Fits(w, x, t, ticks) && (x.pc.Check? || x.pc.CheckOwner? || x.pc.Elapse? || x.pc.After?)
    ensures Good(w, LockStep(w, x, t, ticks), t, ticks)
  {
    assert Look(w, x, 0);
  }

  lemma {:induction false} LockGood(w: Words, x: Task, t: nat, ticks: nat)
    requires WordsOk(w) && Fits(w, x, t, ticks) && InLock(x.pc)
    ensures Good(w, LockStep(w, x, t, ticks), t, ticks)
  {
    if x.pc.Check? || x.pc.CheckOwner? || x.pc.Elapse? || x.pc.After? {
      LockMidGood(w, x, t, ticks);
    } else {
      assert Look(w, x, 0);
    }
  }

  lemma {:induction false} ConditionMidGood(w: Words, x: Task, t: nat, ticks: nat)
    requires WordsOk(w) && Fits(w, x, t, ticks) && (x.pc.Test? || x.pc.Retest?)
    ensures Good(w, ConditionStep(w, x, t), t, ticks)
  {
    assert Look(w, x, 0);
  }

  lemma {:induction false} ConditionGood(w: Words, x: Task, t: nat, ticks: nat)
    requires WordsOk(w) && Fits(w, x, t, ticks) && InCondition(x.pc)
    ensures Good(w, ConditionStep(w, x, t), t, ticks)
  {
    if x.pc.Test? || x.pc.Retest? {
      ConditionMidGood(w, x, t, ticks);
    } else {
      assert Look(w, x, 0);
    }
  }

  lemma {:induction false} UnlockMidGood(w: Words, x: Task, t: nat, ticks: nat)
    requires WordsOk(w) && Fits(w, x, t, ticks) && (x.pc.UnCheck? || x.pc.UnOwner? || x.pc.UnName? || x.pc.UnClear?)
    ensures Good(w, UnlockStep(w, x, t), t, ticks)
  {
    assert Look(w, x, 0);
  }

  lemma {:induction false} UnlockGood(w: Words, x: Task, t: nat, ticks: nat)
    requires WordsOk(w) && Fits(w, x, t, ticks) && InUnlock(x.pc) && !x.pc.UnWake?
    ensures Good(w, UnlockStep(w, x, t), t, ticks)
  {
    if x.pc.UnCheck? || x.pc.UnOwner? || x.pc.UnName? || x.pc.UnClear? {
      UnlockMidGood(w, x, t, ticks);
    } else {
      assert Look(w, x, 0);
    }
  }

  lemma {:induction false} StepGood(w: Words, x: Task, t: nat, ticks: nat)
    requires WordsOk(w) && Fits(w, x, t, ticks) && !InWait(x.pc) && !x.pc.UnWake? && !x.pc.Idle?
    ensures Good(w, TaskStep(w, x, t, ticks), t, ticks)
  {
    if InTry(x.pc) { TryGood(w, x, t, ticks); }
    else if InLock(x.pc) { LockGood(w, x, t, ticks); }
    else if InCondition(x.pc) { ConditionGood(w, x, t, ticks); }
    else { UnlockGood(w, x, t, ticks); }
  }

  // ------------------------------------------------------------------------------------
  // Steps on the state
  // ------------------------------------------------------------------------------------

  /** A step that fits its task fits everybody. */
  lemma {:induction false} AssembleInv(s: State, t: nat, v: Words, x: Task, count: nat)
    requires Inv(s) && t < |s.tasks| && OwnStep(s.words, v, t) && Fits(v, x, t, s.ticks)
    requires x.sleep.Asleep? <==> s.tasks[t].sleep.Asleep?
    requires count == |CountedTasks(s.tasks[t := x])|
    ensures Inv(At(s, t, x).(words := v, count := count))
  {
    var r := At(s, t, x).(words := v, count := count);
    forall u | 0 <= u < |s.tasks| ensures TaskAt(r, u) {
      assert TaskAt(s, u);
      if u != t { OthersKept(s.words, v, t, s.tasks[u], u, s.ticks); }
    }
  }

  lemma {:induction false} SelfStep(w: Words, t: nat)
    requires WordsOk(w)
    ensures OwnStep(w, w, t)
  {
  }

  lemma {:induction false} PanicInv(s: State)
    requires Inv(s)
    ensures Inv(Panic(s))
  {
    forall u | 0 <= u < |s.tasks| ensures TaskAt(Panic(s), u) {
      assert TaskAt(s, u);
    }
  }

  lemma {:induction false} AwakeFacts(w: Words, x: Task, t: nat, ticks: nat)
    requires Fits(w, x, t, ticks) && !x.pc.Wait? && !x.pc.Dec?
    ensures x.sleep.Awake?
  {
    assert Look(w, x, 0);
  }

  lemma {:induction false} ApplyInv(s: State, t: nat)
    requires Inv(s) && t < |s.tasks| && !InWait(s.tasks[t].pc) && !s.tasks[t].pc.UnWake? && !s.tasks[t].pc.Idle?
    ensures Inv(Apply(s, t, TaskStep(s.words, s.tasks[t], t, s.ticks)))
  {
    var x := s.tasks[t];
    assert TaskAt(s, t);
    var e := TaskStep(s.words, x, t, s.ticks);
    StepGood(s.words, x, t, s.ticks);
    PanicInv(s);
    AwakeFacts(s.words, x, t, s.ticks);
    if e.Goes? {
      CountSame(s, t, e.x);
      AssembleInv(s, t, e.w, e.x, s.count);
    }
  }

  lemma {:induction false} EnterFits(w: Words, x: Task, t: nat, ticks: nat, y: Task)
    requires Fits(w, x, t, ticks) && x.pc.Idle?
    requires y == x.(pc := TrySpin) || y == x.(pc := UnSpin) ||
             (y == x.(pc := LockSpin, timeout := y.timeout, start := ticks) && y.timeout <= FOREVER)
    ensures Fits(w, y, t, ticks) && y.sleep.Awake? && x.sleep.Awake?
  {
    assert Look(w, x, 0);
  }

  lemma {:induction false} EnterInv(s: State, t: nat, call: Call)
    requires Inv(s) && t < |s.tasks|
    ensures Inv(Enter(s, t, call))
  {
    var x := s.tasks[t];
    assert TaskAt(s, t);
    if x.pc.Idle? {
      var y := Enter(s, t, call).tasks[t];
      EnterFits(s.words, x, t, s.ticks, y);
      CountSame(s, t, y);
      SelfStep(s.words, t);
      AssembleInv(s, t, s.words, y, s.count);
    }
  }

  // ------------------------------------------------------------------------------------
  // Waiting and waking
  // ------------------------------------------------------------------------------------

  /** The counter never wraps: a task that counts itself out has counted itself in. */
  lemma {:induction false} NoUnderflow(s: State, t: nat)
    requires Inv(s) && t < |s.tasks| && s.tasks[t].pc == Dec
    ensures 0 < s.count < U32 && (s.count + U32 - 1) % U32 == s.count - 1
    ensures WaitStep(s, t).halted == s.halted
  {
    CountDown(s, t, s.tasks[t].(pc := Test));
    CountBelow(s.tasks);
  }

  lemma {:induction false} WaitFits(w: Words, x: Task, t: nat, ticks: nat)
    requires Fits(w, x, t, ticks)
    ensures x.pc.Inc? ==> Fits(w, x.(pc := Block), t, ticks) && x.sleep.Awake?
    ensures x.pc.Wait? && !x.sleep.Asleep? ==> Fits(w, x.(pc := Dec), t, ticks)
    ensures x.pc.Dec? ==>
        !x.sleep.Asleep? && Fits(w, x.(pc := if x.sleep == Woken then Test else Retest, sleep := Awake), t, ticks)
  {
    assert Look(w, x, 0);
  }

  lemma {:induction false} BlockFits(w: Words, x: Task, t: nat, ticks: nat)
    requires Fits(w, x, t, ticks) && x.pc.Block?
    ensures x.wait > 0 && x.sleep.Awake?
    ensures Fits(w, x.(pc := Wait, sleep := Asleep(if x.wait == FOREVER then 0 else ticks + x.wait)), t, ticks)
  {
    assert Look(w, x, 0);
  }

  lemma {:induction false} WaitInv(s: State, t: nat)
    requires Inv(s) && t < |s.tasks| && InWait(s.tasks[t].pc)
    ensures Inv(WaitStep(s, t))
  {
    var x, r := s.tasks[t], WaitStep(s, t);
    assert TaskAt(s, t);
    WaitFits(s.words, x, t, s.ticks);
    SelfStep(s.words, t);
    match x.pc {
      case Inc =>
        CountUp(s, t, r.tasks[t]);
        CountBelow(r.tasks);
        AssembleInv(s, t, s.words, r.tasks[t], s.count + 1);
      case Block => BlockInv(s, t);
      case Wait =>
        if !x.sleep.Asleep? {
          CountSame(s, t, r.tasks[t]);
          AssembleInv(s, t, s.words, r.tasks[t], s.count);
        }
      case Dec =>
        NoUnderflow(s, t);
        CountDown(s, t, r.tasks[t]);
        AssembleInv(s, t, s.words, r.tasks[t], s.count - 1);
    }
  }

  lemma {:induction false} BlockInv(s: State, t: nat)
    requires Inv(s) && t < |s.tasks| && s.tasks[t].pc.Block?
    ensures Inv(WaitStep(s, t)) && WaitStep(s, t).waiters == s.waiters + [t]
  {
    var r := WaitStep(s, t);
    assert TaskAt(s, t);
    BlockFits(s.words, s.tasks[t], t, s.ticks);
    CountSame(s, t, r.tasks[t]);
    forall u | 0 <= u < |s.tasks| ensures TaskAt(r, u) {
      assert TaskAt(s, u);
    }
  }

  /** A task that blocks asks for at least one tick. */
  lemma {:induction false} BlockFacts(s: State, t: nat)
    requires Inv(s) && t < |s.tasks| && s.tasks[t].pc.Block?
    ensures s.tasks[t].wait > 0 && s.tasks[t].sleep.Awake?
  {
    assert TaskAt(s, t);
    BlockFits(s.words, s.tasks[t], t, s.ticks);
  }

  lemma {:induction false} LeaveFits(w: Words, x: Task, t: nat, ticks: nat)
    requires Fits(w, x, t, ticks) && x.sleep.Asleep?
    ensures x.pc.Wait? && Fits(w, x.(sleep := Woken), t, ticks) &&
      (Due(x, ticks) ==> Fits(w, x.(sleep := Expired), t, ticks))
  {
    assert Look(w, x, 0);
  }

  /** A waiter stops waiting: woken by a signal, or at its deadline. */
  lemma {:induction false} LeaveInv(s: State, t: nat, sleep: Sleep, q: seq<nat>)
    requires Inv(s) && t in s.waiters && (sleep == Woken || (sleep == Expired && Due(s.tasks[t], s.ticks)))
    requires Distinct(q) && forall x :: x in q <==> x in s.waiters && x != t
    ensures t < |s.tasks| && Inv(At(s, t, s.tasks[t].(sleep := sleep)).(waiters := q))
  {
    var r := At(s, t, s.tasks[t].(sleep := sleep)).(waiters := q);
    assert TaskAt(s, t);
    LeaveFits(s.words, s.tasks[t], t, s.ticks);
    CountSame(s, t, r.tasks[t]);
    forall u | 0 <= u < |s.tasks| ensures TaskAt(r, u) {
      assert TaskAt(s, u);
    }
  }

  lemma {:induction false} Drop1Elements(q: seq<nat>, t: nat)
    requires Distinct(q) && t in q
    ensures Distinct(Drop1(q, t)) && forall x :: x in Drop1(q, t) <==> x in q && x != t
  {
    if q[0] != t {
      Drop1Elements(q[1..], t);
      var d := Drop1(q[1..], t);
      assert forall x :: x in q <==> x == q[0] || x in q[1..];
      assert q[0] !in q[1..];
      assert Drop1(q, t) == [q[0]] + d;
      assert forall x :: x in [q[0]] + d <==> x == q[0] || x in d;
    } else {
      assert forall x :: x in q <==> x == q[0] || x in q[1..];
    }
  }

  lemma {:induction false} WakeFirstInv(s: State)
    requires Inv(s)
    ensures Inv(WakeFirst(s))
  {
    if s.waiters != [] {
      var t := s.waiters[0];
      assert forall x :: x in s.waiters <==> x == t || x in s.waiters[1..];
      LeaveInv(s, t, Woken, s.waiters[1..]);
    }
  }

  lemma {:induction false} WakeStepInv(s: State, t: nat)
    requires Inv(s) && t < |s.tasks| && s.tasks[t].pc.UnWake?
    ensures Inv(At(s, t, s.tasks[t].(pc := UnDone))) && Inv(Run(s, t))
  {
    var x, y := s.tasks[t], s.tasks[t].(pc := UnDone);
    assert TaskAt(s, t);
    assert Fits(s.words, y, t, s.ticks) by { assert Look(s.words, x, 0); }
    AwakeFacts(s.words, x, t, s.ticks);
    CountSame(s, t, y);
    SelfStep(s.words, t);
    AssembleInv(s, t, s.words, y, s.count);
    WakeFirstInv(At(s, t, y));
  }

  // ------------------------------------------------------------------------------------
  // Time
  // ------------------------------------------------------------------------------------

  lemma {:induction false} LaterFits(w: Words, x: Task, t: nat, ticks: nat)
    requires Fits(w, x, t, ticks)
    ensures Fits(w, x, t, ticks + 1)
  {
    assert Look(w, x, 0);
  }

  lemma {:induction false} ClockInv(s: State)
    requires Inv(s)
    ensures Inv(s.(ticks := s.ticks + 1))
  {
    var r := s.(ticks := s.ticks + 1);
    forall u | 0 <= u < |s.tasks| ensures TaskAt(r, u) {
      assert TaskAt(s, u);
      LaterFits(s.words, s.tasks[u], u, s.ticks);
    }
  }

  lemma {:induction false} LaterInv(s: State, ticks: nat)
    requires Inv(s) && s.ticks <= ticks
    ensures Inv(s.(ticks := ticks))
    decreases ticks - s.ticks
  {
    if s.ticks < ticks {
      ClockInv(s);
      LaterInv(s.(ticks := s.ticks + 1), ticks);
    }
  }

  lemma {:induction false} ExpireInv(s: State, rest: seq<nat>)
    requires Inv(s)
    ensures Inv(Expire(s, rest))
    decreases |rest|
  {
    if rest != [] {
      var t := rest[0];
      if t < |s.tasks| {
        ExpireOneInv(s, t);
        ExpireInv(ExpireOne(s, t), rest[1..]);
      } else {
        ExpireInv(s, rest[1..]);
      }
    }
  }

  lemma {:induction false} ExpireOneInv(s: State, t: nat)
    requires Inv(s) && t < |s.tasks|
    ensures Inv(ExpireOne(s, t))
  {
    if Due(s.tasks[t], s.ticks) {
      assert TaskAt(s, t);
      Drop1Elements(s.waiters, t);
      LeaveInv(s, t, Expired, Drop1(s.waiters, t));
    }
  }

  /** The waiters whose deadline has not come. */
  function NotDue(tasks: seq<Task>, ticks: nat, rest: seq<nat>): seq<nat> {
    if rest == [] then []
    else
      (if rest[0] < |tasks| && Due(tasks[rest[0]], ticks) then [] else [rest[0]]) + NotDue(tasks, ticks, rest[1..])
  }

  lemma {:induction false} Drop1At(kept: seq<nat>, t: nat, rest: seq<nat>)
    requires t !in kept
    ensures Drop1(kept + [t] + rest, t) == kept + rest
  {
    var q := kept + [t] + rest;
    if kept == [] {
      assert q[1..] == rest;
    } else {
      assert q[1..] == kept[1..] + [t] + rest;
      Drop1At(kept[1..], t, rest);
      assert [kept[0]] + (kept[1..] + rest) == kept + rest;
    }
  }

  lemma {:induction false} NotDueSame(a: seq<Task>, b: seq<Task>, ticks: nat, rest: seq<nat>)
    requires |a| == |b| && forall i :: 0 <= i < |rest| && rest[i] < |a| ==> a[rest[i]] == b[rest[i]]
    ensures NotDue(a, ticks, rest) == NotDue(b, ticks, rest)
  {
    if rest != [] { NotDueSame(a, b, ticks, rest[1..]); }
  }

  /** The first waiter that is looked at leaves the queue if it is due. */
  lemma {:induction false} ExpireHead(s: State, kept: seq<nat>, rest: seq<nat>)
    requires rest != [] && s.waiters == kept + rest && Distinct(kept + rest)
    requires rest[0] < |s.tasks| && Due(s.tasks[rest[0]], s.ticks)
    ensures ExpireOne(s, rest[0]).waiters == kept + rest[1..] && Distinct(kept + rest[1..])
    ensures NotDue(ExpireOne(s, rest[0]).tasks, s.ticks, rest[1..]) == NotDue(s.tasks, s.ticks, rest[1..])
  {
    var t, more, q := rest[0], rest[1..], kept + rest;
    assert q == kept + [t] + more && q[|kept|] == t;
    assert forall i :: 0 <= i < |kept| ==> kept[i] == q[i] != t;
    Drop1At(kept, t, more);
    assert forall i :: 0 <= i < |kept + more| ==> (kept + more)[i] == q[if i < |kept| then i else i + 1];
    assert forall i :: 0 <= i < |more| ==> more[i] == q[|kept| + 1 + i] != t;
    NotDueSame(s.tasks, ExpireOne(s, t).tasks, s.ticks, more);
  }

  /** Expiry takes the waiters that are due from the queue and keeps the order of the others. */
  lemma {:induction false} ExpireQueue(s: State, kept: seq<nat>, rest: seq<nat>)
    requires s.waiters == kept + rest && Distinct(kept + rest)
    ensures Expire(s, rest).waiters == kept + NotDue(s.tasks, s.ticks, rest)
    decreases |rest|
  {
    if rest == [] {
      assert kept + rest == kept;
    } else {
      var t, more := rest[0], rest[1..];
      if t < |s.tasks| && Due(s.tasks[t], s.ticks) {
        ExpireHead(s, kept, rest);
        ExpireQueue(ExpireOne(s, t), kept, more);
      } else {
        assert kept + rest == (kept + [t]) + more;
        ExpireQueue(s, kept + [t], more);
        assert kept + [t] + NotDue(s.tasks, s.ticks, more) == kept + ([t] + NotDue(s.tasks, s.ticks, more));
      }
    }
  }

  lemma {:induction false} ExpireTask(s: State, rest: seq<nat>, u: nat)
    requires u < |s.tasks|
    ensures |Expire(s, rest).tasks| == |s.tasks|
    ensures Expire(s, rest).tasks[u] ==
            if u in rest && Due(s.tasks[u], s.ticks) then s.tasks[u].(sleep := Expired) else s.tasks[u]
    decreases |rest|
  {
    if rest != [] {
      var t := rest[0];
      assert u in rest <==> u == t || u in rest[1..];
      ExpireTask(if t < |s.tasks| then ExpireOne(s, t) else s, rest[1..], u);
    }
  }

  lemma {:induction false} TickQueue(s: State)
    requires Distinct(s.waiters) && !s.halted
    ensures Step(s, Ticks).waiters == NotDue(s.tasks, s.ticks + 1, s.waiters)
  {
    var later, q := s.(ticks := s.ticks + 1), NotDue(s.tasks, s.ticks + 1, s.waiters);
    assert [] + s.waiters == s.waiters;
    ExpireQueue(later, [], s.waiters);
    assert Expire(later, s.waiters).waiters == [] + q;
    assert [] + q == q;
  }

  /** A tick expires a task exactly if it waits and is due. */
  lemma {:induction false} TickTask(s: State, u: nat)
    requires Inv(s) && !s.halted && u < |s.tasks|
    ensures var r := Step(s, Ticks);
      u < |r.tasks| && r.tasks[u].sleep == if u in s.waiters &&
      Due(s.tasks[u], s.ticks + 1) then Expired else s.tasks[u].sleep
  {
    ExpireTask(s.(ticks := s.ticks + 1), s.waiters, u);
  }

  lemma {:induction false} RunInv(s: State, t: nat)
    requires Inv(s) && t < |s.tasks|
    ensures Inv(Run(s, t))
  {
    var pc := s.tasks[t].pc;
    if InWait(pc) { WaitInv(s, t); }
    else if pc.UnWake? { WakeStepInv(s, t); }
    else if pc.Idle? { assert Run(s, t) == s; }
    else { ApplyInv(s, t); }
  }

  lemma {:induction false} StepInv(s: State, e: Event)
    requires Inv(s)
    ensures Inv(Step(s, e))
  {
    if !s.halted {
      match e {
        case Calls(t, call) => if t < |s.tasks| { EnterInv(s, t, call); }
        case Runs(t) => if t < |s.tasks| { RunInv(s, t); }
        case Ticks => ClockInv(s); ExpireInv(s.(ticks := s.ticks + 1), s.waiters);
      }
    }
  }

  // ------------------------------------------------------------------------------------
  // Every run
  // ------------------------------------------------------------------------------------

  function AfterAll(s: State, events: seq<Event>): State
    decreases |events|
  {
    if events == [] then s else AfterAll(Step(s, events[0]), events[1..])
  }

  /** `kmutex_init`, and `n` tasks that have not called yet. */
  function Start(n: nat): State {
    State(Words(false, false, NONE, 0, NONE, 0), 0, 0, [],
          seq(n, _ => Task(Idle, 0, 0, 0, 0, false, Awake, false, 0, 0, 0)), false)
  }

  lemma {:induction false} StartInv(n: nat)
    requires n < U32
    ensures Inv(Start(n))
  {
    assert CountedTasks(Start(n).tasks) == {};
    forall t | 0 <= t < n ensures TaskAt(Start(n), t) {
    }
  }

  lemma {:induction false} RunKeepsInv(s: State, events: seq<Event>)
    requires Inv(s)
    ensures Inv(AfterAll(s, events)) && |AfterAll(s, events).tasks| == |s.tasks|
    decreases |events|
  {
    if events != [] {
      StepInv(s, events[0]);
      StepSize(s, events[0]);
      RunKeepsInv(Step(s, events[0]), events[1..]);
    }
  }

  lemma {:induction false} ExpireSize(s: State, rest: seq<nat>)
    ensures |Expire(s, rest).tasks| == |s.tasks| && Expire(s, rest).halted == s.halted &&
      Expire(s, rest).ticks == s.ticks
    decreases |rest|
  {
    if rest != [] {
      ExpireSize(if rest[0] < |s.tasks| then ExpireOne(s, rest[0]) else s, rest[1..]);
    }
  }

  lemma {:induction false} StepSize(s: State, e: Event)
    ensures |Step(s, e).tasks| == |s.tasks| && (e.Ticks? && !s.halted ==> Step(s, e).ticks == s.ticks + 1)
  {
    if e.Ticks? { ExpireSize(s.(ticks := s.ticks + 1), s.waiters); }
  }

  /** What the invariant says of one task. */
  lemma {:induction false} TaskFacts(s: State, t: nat)
    requires Inv(s) && t < |s.tasks|
    ensures var x, w := s.tasks[t], s.words;
      (InSpin(x.pc) <==> w.holder == t) && (x.holds <==> w.locked && w.owner == t) &&
      ReadsOk(x, t, w.locked, w.owner) &&
      ClockOk(x, s.ticks) && SleepOk(x, s.ticks) && SignalOk(x, w.signals) && (t in s.waiters <==> x.sleep.Asleep?)
  {
    assert TaskAt(s, t);
    assert Look(s.words, s.tasks[t], 0);
  }

  /** Events in which nobody blocks, is woken or expires. */
  predicate Quiet(s: State, e: Event) {
    !e.Ticks? && (e.Runs? && e.t < |s.tasks| ==> !s.tasks[e.t].pc.Block? && !s.tasks[e.t].pc.UnWake?)
  }

  lemma {:induction false} SleepKept(w: Words, x: Task, t: nat, ticks: nat)
    requires TaskStep(w, x, t, ticks).Goes?
    ensures TaskStep(w, x, t, ticks).x.sleep == x.sleep
  {
  }

  /** They keep the queue and the clock, and at most take note that a wait is over. */
  lemma {:induction false} QuietKeeps(s: State, e: Event)
    requires Inv(s) && Quiet(s, e)
    ensures Step(s, e).waiters == s.waiters && Step(s, e).ticks == s.ticks && |Step(s, e).tasks| == |s.tasks|
    ensures forall u :: 0 <= u < |s.tasks| ==>
      var y := Step(s, e).tasks[u].sleep; y == s.tasks[u].sleep || (y.Awake? && !s.tasks[u].sleep.Asleep?)
  {
    if e.Runs? && e.t < |s.tasks| {
      var x := s.tasks[e.t];
      if InWait(x.pc) { TaskFacts(s, e.t); }
      else if TaskStep(s.words, x, e.t, s.ticks).Goes? { SleepKept(s.words, x, e.t, s.ticks); }
    }
  }

  /** Mutual exclusion, in every run of any number of tasks: at most one task has the spinlock; a
      task is between its successful lock and its unlock exactly if the mutex is locked with it
      as owner, so there is at most one such task; a mutex that is locked without an owner is
      being written by the task with the spinlock, and then nobody holds it; and the waiter count
      is the number of tasks inside `kwait_wait`. */
  lemma {:induction false} MutualExclusion(n: nat, events: seq<Event>, t: nat, u: nat)
    requires n < U32 && t < n && u < n
    ensures var s := AfterAll(Start(n), events);
      |s.tasks| == n && (InSpin(s.tasks[t].pc) && InSpin(s.tasks[u].pc) ==> t == u) &&
      (s.tasks[t].holds <==> s.words.locked && s.words.owner == t) &&
      (s.tasks[t].holds && s.tasks[u].holds ==> t == u) &&
      !(s.tasks[t].holds && MidWrite(s.tasks[u].pc)) &&
      (s.words.locked && s.words.owner == NONE && InSpin(s.tasks[t].pc) ==> MidWrite(s.tasks[t].pc)) &&
      s.count == |CountedTasks(s.tasks)|
  {
    StartInv(n);
    RunKeepsInv(Start(n), events);
    TaskFacts(AfterAll(Start(n), events), t);
    TaskFacts(AfterAll(Start(n), events), u);
  }

  /** A lock that returns true holds the mutex.  A lock with a timeout returns false only when at
      least that many ticks have passed since the call, and a lock that is to wait forever never
      does, so `kmutex_lock` does not panic. */
  lemma {:induction false} LockReturns(n: nat, events: seq<Event>, t: nat)
    requires n < U32 && t < n
    ensures var s := AfterAll(Start(n), events);
      |s.tasks| == n && (s.tasks[t].pc == Won || s.tasks[t].pc == TryWon ==> s.tasks[t].holds) &&
      (s.tasks[t].pc == Lost ==> s.tasks[t].timeout != FOREVER && s.ticks >= s.tasks[t].start + s.tasks[t].timeout)
  {
    StartInv(n);
    RunKeepsInv(Start(n), events);
    TaskFacts(AfterAll(Start(n), events), t);
  }

  /** The condition's answer: a wait says it was signaled exactly if the number of signals between
      its observation and its last look is no multiple of 2^32. */
  lemma {:induction false} ConditionAnswers(n: nat, events: seq<Event>, t: nat)
    requires n < U32 && t < n
    ensures var s := AfterAll(Start(n), events);
      |s.tasks| == n &&
      (s.tasks[t].pc == Relock || s.tasks[t].pc == After ==>
         var x := s.tasks[t];
         x.seen <= x.last <= s.words.signals && (x.signaled <==> (x.last - x.seen) % U32 != 0))
  {
    StartInv(n);
    RunKeepsInv(Start(n), events);
    var s := AfterAll(Start(n), events);
    TaskFacts(s, t);
    if s.tasks[t].pc == Relock || s.tasks[t].pc == After { Congruent(s.tasks[t].seen, s.tasks[t].last); }
  }

  lemma {:induction false} Congruent(a: nat, b: nat)
    requires a <= b
    ensures a % U32 == b % U32 <==> (b - a) % U32 == 0
  {
  }

  /** A lock that waits asks the scheduler for exactly the ticks that were left of its timeout at
      its last look at the clock, or for no deadline if it is to wait forever. */
  lemma {:induction false} WaitsForTheRest(n: nat, events: seq<Event>, t: nat)
    requires n < U32 && t < n
    ensures var s := AfterAll(Start(n), events);
      |s.tasks| == n && (s.tasks[t].pc == Block ==> AsksForTheRest(s.tasks[t], s.ticks))
  {
    StartInv(n);
    RunKeepsInv(Start(n), events);
    TaskFacts(AfterAll(Start(n), events), t);
  }

  /** The only panics are a lock by the holder and an unlock by a task that does not hold the
      mutex; the waiter count never underflows. */
  lemma {:induction false} PanicsByMisuse(s: State, e: Event)
    requires Inv(s) && !s.halted && Step(s, e).halted
    ensures e.Runs? && e.t < |s.tasks|
    ensures var x := s.tasks[e.t];
      ((x.pc == TryOwner || x.pc == CheckOwner) && x.holds) || ((x.pc == UnCheck || x.pc == UnOwner) && !x.holds)
  {
    if e.Ticks? { ExpireSize(s.(ticks := s.ticks + 1), s.waiters); }
    if e.Runs? && e.t < |s.tasks| {
      TaskFacts(s, e.t);
      if InWait(s.tasks[e.t].pc) { WaitNeverPanics(s, e.t); } else { PanicPlaces(s, e.t); }
    }
  }

  lemma {:induction false} WaitNeverPanics(s: State, t: nat)
    requires Inv(s) && t < |s.tasks| && InWait(s.tasks[t].pc)
    ensures WaitStep(s, t).halted == s.halted
  {
    if s.tasks[t].pc == Dec { NoUnderflow(s, t); }
  }

  lemma {:induction false} PanicPlaces(s: State, t: nat)
    requires t < |s.tasks| && !s.halted && Run(s, t).halted && !InWait(s.tasks[t].pc)
    ensures ((s.tasks[t].pc == TryOwner || s.tasks[t].pc == CheckOwner) && s.words.owner == t) ||
            ((s.tasks[t].pc == UnCheck || s.tasks[t].pc == UnOwner) && !(s.words.locked && s.words.owner == t))
  {
  }

  /** Who only locks what they do not hold and unlocks what they hold. */
  predicate PoliteEvent(s: State, e: Event) {
    e.Calls? && e.t < |s.tasks| && s.tasks[e.t].pc == Idle ==> (e.call == Unlock <==> s.tasks[e.t].holds)
  }

  predicate PoliteTask(x: Task) {
    (InTry(x.pc) && x.pc != TryWon) || (InLock(x.pc) && x.pc != Won) || InCondition(x.pc) || InWait(x.pc) ==> !x.holds
  }

  predicate PoliteUnlock(x: Task) {
    x.pc == UnSpin || x.pc == UnCheck || x.pc == UnOwner || x.pc == UnName ==> x.holds
  }

  ghost predicate Polite(s: State) {
    forall t :: 0 <= t < |s.tasks| ==> PoliteTask(s.tasks[t]) && PoliteUnlock(s.tasks[t])
  }

  ghost predicate PoliteRun(s: State, events: seq<Event>)
    decreases |events|
  {
    events != [] ==> PoliteEvent(s, events[0]) && PoliteRun(Step(s, events[0]), events[1..])
  }

  lemma {:induction false} ExpirePolite(s: State, rest: seq<nat>)
    requires Polite(s)
    ensures Polite(Expire(s, rest))
    decreases |rest|
  {
    if rest != [] {
      ExpirePolite(if rest[0] < |s.tasks| then ExpireOne(s, rest[0]) else s, rest[1..]);
    }
  }

  lemma {:induction false} PoliteAt(s: State, t: nat, x: Task)
    requires Polite(s) && t < |s.tasks| && PoliteTask(x) && PoliteUnlock(x)
    ensures Polite(At(s, t, x))
  {
  }

  /** A task's own record stays polite. */
  lemma {:induction false} StaysPolite(w: Words, x: Task, t: nat, ticks: nat)
    requires PoliteTask(x) && PoliteUnlock(x) && !InWait(x.pc) && !x.pc.UnWake?
    ensures var e := TaskStep(w, x, t, ticks); e.Goes? ==> PoliteTask(e.x) && PoliteUnlock(e.x)
  {
    if InTry(x.pc) { TryPolite(w, x, t); } else if InLock(x.pc) { LockPolite(w, x, t, ticks); }
  }

  lemma {:induction false} TryPolite(w: Words, x: Task, t: nat)
    requires PoliteTask(x) && InTry(x.pc)
    ensures var e := TryStep(w, x, t); e.Goes? ==> PoliteTask(e.x) && PoliteUnlock(e.x)
  {
  }

  lemma {:induction false} LockPolite(w: Words, x: Task, t: nat, ticks: nat)
    requires PoliteTask(x) && InLock(x.pc)
    ensures var e := LockStep(w, x, t, ticks); e.Goes? ==> PoliteTask(e.x) && PoliteUnlock(e.x)
  {
  }

  lemma {:induction false} WaitPolite(s: State, t: nat)
    requires Polite(s) && t < |s.tasks| && InWait(s.tasks[t].pc)
    ensures Polite(WaitStep(s, t))
  {
    PoliteAt(s, t, WaitStep(s, t).tasks[t]);
  }

  lemma {:induction false} WakePolite(s: State)
    requires Polite(s)
    ensures Polite(WakeFirst(s))
  {
    if s.waiters != [] && s.waiters[0] < |s.tasks| {
      PoliteAt(s, s.waiters[0], s.tasks[s.waiters[0]].(sleep := Woken));
    }
  }

  lemma {:induction false} RunPolite(s: State, t: nat)
    requires Polite(s) && t < |s.tasks|
    ensures Polite(Run(s, t))
  {
    var x := s.tasks[t];
    if InWait(x.pc) {
      WaitPolite(s, t);
    } else if x.pc.UnWake? {
      PoliteAt(s, t, x.(pc := UnDone));
      WakePolite(At(s, t, x.(pc := UnDone)));
    } else {
      StaysPolite(s.words, x, t, s.ticks);
      var e := TaskStep(s.words, x, t, s.ticks);
      if e.Goes? { PoliteAt(s, t, e.x); }
    }
  }

  lemma {:induction false} StepPolite(s: State, e: Event)
    requires Polite(s) && PoliteEvent(s, e)
    ensures Polite(Step(s, e))
  {
    if !s.halted {
      match e {
        case Calls(t, call) =>
        case Runs(t) => if t < |s.tasks| { RunPolite(s, t); }
        case Ticks => ExpirePolite(s.(ticks := s.ticks + 1), s.waiters);
      }
    }
  }

  /** Polite tasks never bring the kernel down. */
  lemma {:induction false} PoliteNeverPanics(s: State, events: seq<Event>)
    requires Inv(s) && Polite(s) && !s.halted && PoliteRun(s, events)
    ensures !AfterAll(s, events).halted
    decreases |events|
  {
    if events != [] {
      StepInv(s, events[0]);
      StepPolite(s, events[0]);
      if Step(s, events[0]).halted { PanicsByMisuse(s, events[0]); }
      PoliteNeverPanics(Step(s, events[0]), events[1..]);
    }
  }
}
