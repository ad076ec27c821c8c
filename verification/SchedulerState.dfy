/** The scheduler's state and the effect of each locked section on it, as values.  The class
    Scheduler carries the sections out on linked lists; here lists are sequences of slots. */
module SchedulerState {
  import opened TaskLists

  const LEVELS: nat := 5
  const NORMAL: nat := 2
  const FOREVER: nat := 0xFFFF_FFFF
  const NODE_ANY: nat := 0xFF

  datatype TaskState = Unused | Runnable | Running | Sleeping | Blocked | Zombie

  /** A task slot without its links.  An affinity mask is the set of its bits, null pointers and
      the unset wake-up tick are 0. */
  datatype Task = Task(id: nat, state: TaskState, priority: nat, affinity: set<nat>, preferred: nat, cpu: nat,
                       node: nat,
                       wakeup: nat, channel: nat, result: bool, slice: nat, stack: nat, space: nat)

  datatype Cpu = Cpu(online: bool, node: nat, current: int, queued: nat)

  /** History of a slot's last channel wait. */
  datatype Wait = NoWait | Waiting(channel: nat, deadline: nat) | Woken(channel: nat) | Expired(deadline: nat, at: nat)

  /** History of a released task: its id and the resources handed out for freeing. */
  datatype Release = Release(id: nat, stack: nat, space: nat)

  datatype State = State(tasks: seq<Task>, cpus: seq<Cpu>, queues: map<Name, seq<nat>>, ticks: nat, nextId: nat,
                         boot: nat, bootstrapped: bool, nodes: nat, lastBalance: nat, reserved: set<nat>,
                         waits: seq<Wait>, exited: set<nat>, released: seq<Release>)

  datatype Outcome = Panic | Done(s: State)

  function Slice(p: nat): nat {
    if p == 0 then 2 else if p == 1 then 3 else if p == 2 then 5 else if p == 3 then 7 else 9
  }

  function Sanitize(p: nat): nat {
    if p >= LEVELS then NORMAL else p
  }

  function ResetTask(boot: nat): Task {
    Task(0, Unused, NORMAL, {}, NODE_ANY, boot, 0, 0, 0, false, 0, 0, 0)
  }

  // ------------------------------------------------------------------------------------
  // The invariant
  // ------------------------------------------------------------------------------------

  predicate IsName(n: Name, cpus: nat) {
    n.RunQueue? ==> n.cpu < cpus && n.level < LEVELS
  }

  ghost predicate Shape(s: State) {
    |s.waits| == |s.tasks| && s.boot < |s.cpus| && forall n :: n in s.queues <==> IsName(n, |s.cpus|)
  }

  /** The list a slot's state names. */
  function HomeOf(x: Task, reserved: bool): Home {
    match x.state
    case Unused => if reserved then Off else On(FreeList)
    case Runnable => On(RunQueue(x.cpu, x.priority))
    case Running => Off
    case Sleeping => On(SleepingList)
    case Blocked => On(BlockedList)
    case Zombie => On(ZombieList)
  }

  ghost predicate Member(home: seq<Home>, q: seq<nat>, n: Name) {
    Distinct(q) && forall x :: x in q ==> x < |home| && home[x] == On(n)
  }

  ghost predicate Listed(queues: map<Name, seq<nat>>, h: Home, x: nat) {
    h.On? ==> h.name in queues && x in queues[h.name]
  }

  /** Each slot is on its home and on no other list. */
  ghost predicate Placed(home: seq<Home>, queues: map<Name, seq<nat>>) {
    (forall n :: n in queues ==> Member(home, queues[n], n)) &&
    (forall x :: 0 <= x < |home| ==> Listed(queues, home[x], x))
  }

  ghost function Homes(tasks: seq<Task>, reserved: set<nat>): seq<Home> {
    seq(|tasks|, t requires 0 <= t < |tasks| => HomeOf(tasks[t], t in reserved))
  }

  function QueueLength(queues: map<Name, seq<nat>>, c: nat, l: nat): nat {
    if RunQueue(c, l) in queues then |queues[RunQueue(c, l)]| else 0
  }

  function Queued(queues: map<Name, seq<nat>>, c: nat): nat {
    QueueLength(queues, c, 0) + QueueLength(queues, c, 1) + QueueLength(queues, c, 2) + QueueLength(queues, c,
        3) + QueueLength(queues, c, 4)
  }

  /** A live task has a proper level, an online CPU that its mask allows and an id of its own;
      a running one is what its CPU runs. */
  ghost predicate TaskOk(x: Task, t: nat, cpus: seq<Cpu>, nextId: nat, reserved: bool) {
    if x.state == Unused then true
    else !reserved && x.priority < LEVELS && x.cpu < |cpus| && cpus[x.cpu].online && x.cpu in x.affinity &&
         0 < x.id < nextId && (x.state == Running ==> cpus[x.cpu].current == t && x.slice < Slice(x.priority))
  }

  /** A CPU runs nothing, a running task of its own, or a task that has just exited on it. */
  ghost predicate CpuOk(x: Cpu, c: nat, tasks: seq<Task>, queues: map<Name, seq<nat>>) {
    x.queued == Queued(queues, c) && (x.current == NONE || 0 <= x.current < |tasks|) &&
    (x.current != NONE ==> x.online && tasks[x.current].cpu == c && tasks[x.current].state in {Running, Zombie})
  }

  ghost predicate Differ(tasks: seq<Task>, t: nat, u: nat)
    requires t < |tasks| && u < |tasks|
  {
    t != u && tasks[t].state != Unused && tasks[u].state != Unused ==> tasks[t].id != tasks[u].id
  }

  ghost predicate IdsDiffer(tasks: seq<Task>) {
    forall t, u :: 0 <= t < |tasks| && 0 <= u < |tasks| ==> Differ(tasks, t, u)
  }

  /** No live slot has this id. */
  ghost predicate NewId(tasks: seq<Task>, id: nat) {
    forall u :: 0 <= u < |tasks| && tasks[u].state != Unused ==> tasks[u].id != id
  }

  ghost predicate WaitOk(x: Task, w: Wait, ticks: nat) {
    match w
    case NoWait => x.state != Blocked
    case Waiting(channel, deadline) => x.state == Blocked && x.channel == channel != 0 && x.wakeup == deadline
    case Woken(_) => x.state != Blocked && x.result
    case Expired(deadline, at) => x.state != Blocked && !x.result && 0 < deadline <= at <= ticks
  }

  /** A task has exited exactly if it is a zombie, and a live task has not been released. */
  ghost predicate TaskLog(x: Task, exited: set<nat>, released: seq<Release>) {
    x.state != Unused ==>
      (x.state == Zombie <==> x.id in exited) && forall i :: 0 <= i < |released| ==> released[i].id != x.id
  }

  /** Ids in the release log are distinct and belong to exited tasks. */
  ghost predicate LogOk(exited: set<nat>, released: seq<Release>, nextId: nat) {
    (forall i, j :: 0 <= i < j < |released| ==> released[i].id != released[j].id) &&
    (forall i :: 0 <= i < |released| ==> released[i].id in exited) &&
    (forall id :: id in exited ==> id < nextId)
  }

  ghost predicate TaskAt(s: State, t: nat) {
    t < |s.tasks| == |s.waits| && TaskOk(s.tasks[t], t, s.cpus, s.nextId, t in s.reserved) &&
    WaitOk(s.tasks[t], s.waits[t], s.ticks) && TaskLog(s.tasks[t], s.exited, s.released)
  }

  ghost predicate CpuAt(s: State, c: nat) {
    c < |s.cpus| && CpuOk(s.cpus[c], c, s.tasks, s.queues)
  }

  /** Every slot is on exactly the list its state names, counts and current tasks are exact, and
      the histories fit. */
  ghost predicate Core(s: State) {
    Shape(s) && s.cpus[s.boot].online && 0 < s.nextId &&
    Placed(Homes(s.tasks, s.reserved), s.queues) && (forall t :: t in s.reserved ==> t < |s.tasks|) &&
    (forall t :: 0 <= t < |s.tasks| ==> TaskAt(s, t)) &&
    (forall c :: 0 <= c < |s.cpus| ==> CpuAt(s, c)) &&
    IdsDiffer(s.tasks) && LogOk(s.exited, s.released, s.nextId)
  }

  ghost predicate Unlocked(s: State, k: int) { true }

  /** The invariant.  It is stated under a guard so that proofs that only pass it on do not look
      inside; `assert Unlocked(s, 0)` opens it. */
  ghost predicate Inv(s: State) {
    Shape(s) && forall k :: Unlocked(s, k) ==> Core(s)
  }

  // ------------------------------------------------------------------------------------
  // Taking a slot out of everything, and putting it somewhere
  // ------------------------------------------------------------------------------------

  function Unqueue(cpus: seq<Cpu>, h: Home): seq<Cpu> {
    if h.On? && h.name.RunQueue? && h.name.cpu < |cpus| then
      var c := h.name.cpu;
      cpus[c := cpus[c].(queued := if cpus[c].queued > 0 then cpus[c].queued - 1 else 0)]
    else cpus
  }

  function Enqueued(cpus: seq<Cpu>, h: Home): seq<Cpu> {
    if h.On? && h.name.RunQueue? && h.name.cpu < |cpus| then
      var c := h.name.cpu;
      cpus[c := cpus[c].(queued := cpus[c].queued + 1)]
    else cpus
  }

  function Idle(cpus: seq<Cpu>, c: nat, t: int): seq<Cpu> {
    if c < |cpus| && cpus[c].current == t then cpus[c := cpus[c].(current := NONE)] else cpus
  }

  function Delist(queues: map<Name, seq<nat>>, h: Home, t: nat): map<Name, seq<nat>> {
    if h.On? && h.name in queues then queues[h.name := Without(queues[h.name], t)] else queues
  }

  function Enlist(queues: map<Name, seq<nat>>, h: Home, t: nat): map<Name, seq<nat>> {
    if h.On? && h.name in queues then queues[h.name := queues[h.name] + [t]] else queues
  }

  /** The slot leaves its list and its CPU and counts as being created. */
  function Vacate(s: State, t: nat): State
    requires t < |s.tasks| == |s.waits|
  {
    var x := s.tasks[t];
    var h := HomeOf(x, t in s.reserved);
    s.(tasks := s.tasks[t := ResetTask(s.boot)], waits := s.waits[t := NoWait], reserved := s.reserved + {t},
       queues := Delist(s.queues, h, t),
       cpus := Idle(Unqueue(s.cpus, h), x.cpu, t))
  }

  /** A slot that is being created becomes `x`. */
  function Occupy(s: State, t: nat, x: Task, w: Wait): State
    requires t < |s.tasks| == |s.waits|
  {
    var h := HomeOf(x, false);
    var cpus := Enqueued(s.cpus, h);
    s.(tasks := s.tasks[t := x], waits := s.waits[t := w], reserved := s.reserved - {t},
       queues := Enlist(s.queues, h, t),
       cpus := if x.state == Running && x.cpu < |cpus| then cpus[x.cpu := cpus[x.cpu].(current := t)] else cpus)
  }

  lemma {:induction false} PlacedCut(home: seq<Home>, queues: map<Name, seq<nat>>, t: nat)
    requires Placed(home, queues) && t < |home|
    ensures Placed(home[t := Off], Delist(queues, home[t], t))
  {
    var h, queues', home' := home[t], Delist(queues, home[t], t), home[t := Off];
    assert Listed(queues, h, t);
    forall n | n in queues' ensures Member(home', queues'[n], n) {
      assert Member(home, queues[n], n);
      if h == On(n) { WithoutElements(queues[n], t); }
    }
    forall x | 0 <= x < |home| ensures Listed(queues', home'[x], x) {
      assert Listed(queues, home[x], x);
      if h.On? && home[x] == h {
        assert Member(home, queues[h.name], h.name);
        WithoutElements(queues[h.name], t);
      }
    }
  }

  lemma {:induction false} PlacedAdd(home: seq<Home>, queues: map<Name, seq<nat>>, t: nat, h: Home)
    requires Placed(home, queues) && t < |home| && home[t] == Off && (h.On? ==> h.name in queues)
    ensures Placed(home[t := h], Enlist(queues, h, t))
  {
    var queues', home' := Enlist(queues, h, t), home[t := h];
    forall n | n in queues' ensures Member(home', queues'[n], n) {
      assert Member(home, queues[n], n);
    }
    forall x | 0 <= x < |home| ensures Listed(queues', home'[x], x) {
      assert Listed(queues, home[x], x);
    }
  }

  lemma {:induction false} HomesUpdate(tasks: seq<Task>, reserved: set<nat>, reserved': set<nat>, t: nat, x: Task)
    requires t < |tasks| && reserved - {t} == reserved' - {t}
    ensures Homes(tasks[t := x], reserved') == Homes(tasks, reserved)[t := HomeOf(x, t in reserved')]
  {
    forall u | 0 <= u < |tasks| && u != t ensures u in reserved <==> u in reserved' {
      assert u in reserved - {t} <==> u in reserved' - {t};
    }
  }

  /** A list that gains or loses one slot shifts its CPU's count by one. */
  lemma {:induction false} QueuedCut(queues: map<Name, seq<nat>>, h: Home, t: nat, c: nat, cpus: nat)
    requires forall n :: n in queues <==> IsName(n, cpus)
    requires h.On? ==> h.name in queues && Distinct(queues[h.name]) && t in queues[h.name]
    ensures Queued(Delist(queues, h, t), c) == Queued(queues, c) - if h.On? && h.name.RunQueue? &&
      h.name.cpu == c then 1 else 0
  {
    if h.On? { WithoutElements(queues[h.name], t); }
  }

  lemma {:induction false} QueuedAdd(queues: map<Name, seq<nat>>, h: Home, t: nat, c: nat, cpus: nat)
    requires (forall n :: n in queues <==> IsName(n, cpus)) && (h.On? ==> h.name in queues)
    ensures Queued(Enlist(queues, h, t), c) == Queued(queues, c) + if h.On? && h.name.RunQueue? &&
      h.name.cpu == c then 1 else 0
  {
  }

  /** The record fits the slot of a state in which the slot is being created. */
  ghost predicate Fits(s: State, t: nat, x: Task, w: Wait)
    requires t < |s.tasks|
  {
    x.priority < LEVELS && x.cpu < |s.cpus| && s.cpus[x.cpu].online && x.cpu in x.affinity && 0 < x.id < s.nextId &&
    (x.state == Running ==> s.cpus[x.cpu].current == NONE && x.slice < Slice(x.priority)) &&
    NewId(s.tasks, x.id) &&
    TaskLog(x, s.exited, s.released) && WaitOk(x, w, s.ticks)
  }

  lemma {:induction false} VacatePlaced(s: State, t: nat)
    requires Shape(s) && Placed(Homes(s.tasks, s.reserved), s.queues) && t < |s.tasks|
    ensures Shape(Vacate(s, t)) && Placed(Homes(Vacate(s, t).tasks, Vacate(s, t).reserved), Vacate(s, t).queues)
  {
    var s' := Vacate(s, t);
    HomesUpdate(s.tasks, s.reserved, s'.reserved, t, ResetTask(s.boot));
    PlacedCut(Homes(s.tasks, s.reserved), s.queues, t);
  }

  lemma {:induction false} VacateCpu(s: State, t: nat, c: nat)
    requires Shape(s) && Placed(Homes(s.tasks, s.reserved), s.queues) && t < |s.tasks| && CpuAt(s, c)
    ensures CpuAt(Vacate(s, t), c)
  {
    var h := HomeOf(s.tasks[t], t in s.reserved);
    assert h == Homes(s.tasks, s.reserved)[t];
    assert Listed(s.queues, h, t);
    if h.On? { assert Member(Homes(s.tasks, s.reserved), s.queues[h.name], h.name); }
    QueuedCut(s.queues, h, t, c, |s.cpus|);
  }

  lemma {:induction false} VacateTask(s: State, t: nat, u: nat)
    requires t < |s.tasks| && TaskAt(s, u)
    ensures TaskAt(Vacate(s, t), u)
  {
  }

  lemma {:induction false} VacateIds(s: State, t: nat)
    requires t < |s.tasks| && IdsDiffer(s.tasks)
    ensures IdsDiffer(s.tasks[t := ResetTask(s.boot)])
    ensures NewId(s.tasks[t := ResetTask(s.boot)], s.tasks[t].id) || s.tasks[t].state == Unused
  {
    var r := s.tasks[t := ResetTask(s.boot)];
    forall u, v | 0 <= u < |r| && 0 <= v < |r| ensures Differ(r, u, v) {
      assert Differ(s.tasks, u, v);
    }
    forall u | 0 <= u < |r| && r[u].state != Unused && s.tasks[t].state != Unused ensures r[u].id != s.tasks[t].id {
      assert Differ(s.tasks, u, t);
    }
  }

  lemma {:induction false} VacateInv(s: State, t: nat)
    requires Core(s) && t < |s.tasks|
    ensures Core(Vacate(s, t))
  {
    var s' := Vacate(s, t);
    VacateIds(s, t);
    VacatePlaced(s, t);
    forall u | 0 <= u < |s.tasks| ensures TaskAt(s', u) {
      assert TaskAt(s, u);
      VacateTask(s, t, u);
    }
    forall c | 0 <= c < |s.cpus| ensures CpuAt(s', c) {
      assert CpuAt(s, c);
      VacateCpu(s, t, c);
    }
  }

  lemma {:induction false} OccupyPlaced(s: State, t: nat, x: Task, w: Wait)
    requires Shape(s) && Placed(Homes(s.tasks, s.reserved), s.queues) && TaskAt(s, t) && t in s.reserved
    requires x.cpu < |s.cpus| && x.priority < LEVELS
    ensures Shape(Occupy(s, t, x, w)) &&
      Placed(Homes(Occupy(s, t, x, w).tasks, Occupy(s, t, x, w).reserved), Occupy(s, t, x, w).queues)
  {
    var s' := Occupy(s, t, x, w);
    HomesUpdate(s.tasks, s.reserved, s'.reserved, t, x);
    PlacedAdd(Homes(s.tasks, s.reserved), s.queues, t, HomeOf(x, false));
  }

  lemma {:induction false} OccupyCpu(s: State, t: nat, x: Task, w: Wait, c: nat)
    requires Shape(s) && TaskAt(s, t) && t in s.reserved && CpuAt(s, c)
    requires x.cpu < |s.cpus| && x.priority < LEVELS && (x.state == Running ==> s.cpus[x.cpu].online)
    ensures CpuAt(Occupy(s, t, x, w), c)
  {
    QueuedAdd(s.queues, HomeOf(x, false), t, c, |s.cpus|);
  }

  lemma {:induction false} OccupyTask(s: State, t: nat, x: Task, w: Wait, u: nat)
    requires t < |s.tasks| && TaskAt(s, u) && t in s.reserved && s.boot < |s.cpus|
    requires Fits(s, t, x, w) || (x == ResetTask(s.boot) && w == NoWait)
    ensures TaskAt(Occupy(s, t, x, w), u)
  {
  }

  lemma {:induction false} OccupyIds(s: State, t: nat, x: Task, w: Wait)
    requires t < |s.tasks| && IdsDiffer(s.tasks) && (Fits(s, t, x, w) || x == ResetTask(s.boot))
    ensures IdsDiffer(s.tasks[t := x])
  {
    var r := s.tasks[t := x];
    forall u, v | 0 <= u < |r| && 0 <= v < |r| ensures Differ(r, u, v) {
      assert Differ(s.tasks, u, v);
    }
  }

  lemma {:induction false} OccupyInv(s: State, t: nat, x: Task, w: Wait)
    requires Core(s) && t in s.reserved
    requires Fits(s, t, x, w) || (x == ResetTask(s.boot) && w == NoWait)
    ensures Core(Occupy(s, t, x, w))
  {
    var s' := Occupy(s, t, x, w);
    assert TaskAt(s, t);
    OccupyPlaced(s, t, x, w);
    forall u | 0 <= u < |s.tasks| ensures TaskAt(s', u) {
      assert TaskAt(s, u);
      OccupyTask(s, t, x, w, u);
    }
    forall c | 0 <= c < |s.cpus| ensures CpuAt(s', c) {
      assert CpuAt(s, c);
      OccupyCpu(s, t, x, w, c);
    }
    OccupyIds(s, t, x, w);
  }

  lemma {:induction false} TaskFacts(s: State, t: nat)
    requires Inv(s) && t < |s.tasks|
    ensures TaskAt(s, t)
  {
    assert Unlocked(s, 0);
  }

  lemma {:induction false} CpuFacts(s: State, c: nat)
    requires Inv(s) && c < |s.cpus|
    ensures CpuAt(s, c)
  {
    assert Unlocked(s, 0);
  }
}
