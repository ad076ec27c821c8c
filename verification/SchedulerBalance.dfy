/** Choosing a CPU for a task and levelling the load of the CPUs. */
module SchedulerBalance {
  import opened TaskLists
  import opened SchedulerState
  import opened SchedulerSteps

  /** The CPUs a task may be put on: the online ones of its mask, all online ones if there are
      none. */
  function Allowed(cpus: seq<Cpu>, affinity: set<nat>): set<nat> {
    if affinity * OnlineMask(cpus) == {} then OnlineMask(cpus) else affinity * OnlineMask(cpus)
  }

  predicate Candidate(cpus: seq<Cpu>, allowed: set<nat>, preferred: nat, enforce: bool, c: nat)
    requires c < |cpus|
  {
    c in allowed && (enforce ==> cpus[c].node == preferred)
  }

  /** The scan's choice between the best CPU so far and the next one. */
  function Better(loads: seq<nat>, best: int, c: nat, local: nat): int
    requires c < |loads| && (best == NONE || 0 <= best < |loads|)
  {
    if best == NONE || loads[c] < loads[best] then c
    else if loads[c] == loads[best] && c == local && best != local then c
    else if loads[c] == loads[best] && best != local && c < best then c
    else best
  }

  /** The best of the first `k` CPUs. */
  function Best(cpus: seq<Cpu>, loads: seq<nat>, allowed: set<nat>, preferred: nat, enforce: bool, local: nat,
                k: nat): (r: int)
    requires k <= |cpus| == |loads|
    ensures r == NONE || 0 <= r < k
  {
    if k == 0 then NONE
    else
      var best := Best(cpus, loads, allowed, preferred, enforce, local, k - 1);
      if Candidate(cpus, allowed, preferred, enforce, k - 1) then Better(loads, best, k - 1, local) else best
  }

  /** The scan finds a least loaded candidate; among equals the local CPU, else the first. */
  lemma {:induction false} BestIsLeast(cpus: seq<Cpu>, loads: seq<nat>, allowed: set<nat>, preferred: nat,
                                       enforce: bool, local: nat, k: nat)
    requires k <= |cpus| == |loads|
    ensures var r := Best(cpus, loads, allowed, preferred, enforce, local, k);
      if r == NONE then forall c :: 0 <= c < k ==> !Candidate(cpus, allowed, preferred, enforce, c)
      else Candidate(cpus, allowed, preferred, enforce, r) &&
           forall c :: 0 <= c < k && Candidate(cpus, allowed, preferred, enforce, c) ==>
             loads[r] <= loads[c] && (loads[c] == loads[r] && c != r ==> c != local && (r == local || r < c))
  {
    if k > 0 {
      BestIsLeast(cpus, loads, allowed, preferred, enforce, local, k - 1);
    }
  }

  /** `scheduler_select_best_cpu_from_view`: the preferred node first, then any node. */
  function SelectBest(cpus: seq<Cpu>, loads: seq<nat>, affinity: set<nat>, preferred: nat, local: nat): (r: int)
    requires |cpus| == |loads|
    ensures r == NONE || 0 <= r < |cpus|
  {
    if OnlineMask(cpus) == {} then NONE
    else
      var allowed := Allowed(cpus, affinity);
      var first := Best(cpus, loads, allowed, preferred, preferred != NODE_ANY, local, |cpus|);
      if first != NONE then first else Best(cpus, loads, allowed, preferred, false, local, |cpus|)
  }

  lemma {:induction false} SelectAllowed(cpus: seq<Cpu>, loads: seq<nat>, affinity: set<nat>, preferred: nat,
                                         local: nat)
    requires |cpus| == |loads| && OnlineMask(cpus) != {}
    ensures var r := SelectBest(cpus, loads, affinity, preferred, local);
      r != NONE && r in Allowed(cpus, affinity) && cpus[r].online &&
      (affinity * OnlineMask(cpus) != {} ==> r in affinity) &&
      (preferred == NODE_ANY ==> forall c :: c in Allowed(cpus, affinity) ==> loads[r] <= loads[c])
  {
    var allowed := Allowed(cpus, affinity);
    assert allowed != {} && allowed <= OnlineMask(cpus);
    var d :| d in allowed;
    BestIsLeast(cpus, loads, allowed, preferred, preferred != NODE_ANY, local, |cpus|);
    BestIsLeast(cpus, loads, allowed, preferred, false, local, |cpus|);
    assert Candidate(cpus, allowed, preferred, false, d);
    if preferred == NODE_ANY {
      forall c | c in allowed ensures loads[SelectBest(cpus, loads, affinity, preferred, local)] <= loads[c] {
        assert Candidate(cpus, allowed, preferred, false, c);
      }
    }
  }

  // ------------------------------------------------------------------------------------
  // Loads
  // ------------------------------------------------------------------------------------

  function Load(s: State, c: nat): nat
    requires c < |s.cpus|
  {
    s.cpus[c].queued + if RunsTask(s, c) then 1 else 0
  }

  function Loads(s: State): (r: seq<nat>)
    ensures |r| == |s.cpus|
  {
    seq(|s.cpus|, c requires 0 <= c < |s.cpus| => Load(s, c))
  }

  function Sum(a: seq<nat>): nat {
    if a == [] then 0 else a[0] + Sum(a[1..])
  }

  function Squares(a: seq<nat>): nat {
    if a == [] then 0 else a[0] * a[0] + Squares(a[1..])
  }

  lemma {:induction false} SumUpdate(a: seq<nat>, i: nat, v: nat)
    requires i < |a|
    ensures Sum(a[i := v]) == Sum(a) - a[i] + v
    ensures Squares(a[i := v]) == Squares(a) - a[i] * a[i] + v * v
  {
    if i > 0 {
      assert a[i := v][1..] == a[1..][i - 1 := v];
      SumUpdate(a[1..], i - 1, v);
    } else {
      assert a[i := v][1..] == a[1..];
    }
  }

  /** One unit moved from a place to one that is at least two lower. */
  lemma {:induction false} ShiftLevels(a: seq<nat>, i: nat, j: nat)
    requires i < |a| && j < |a| && i != j && a[i] > a[j] + 1
    ensures Sum(a[i := a[i] - 1][j := a[j] + 1]) == Sum(a)
    ensures Squares(a[i := a[i] - 1][j := a[j] + 1]) < Squares(a)
  {
    SumUpdate(a, i, a[i] - 1);
    SumUpdate(a[i := a[i] - 1], j, a[j] + 1);
    SquareStep(a[i], a[j]);
  }

  lemma {:induction false} SquareStep(x: nat, y: nat)
    requires x > y + 1
    ensures (x - 1) * (x - 1) + (y + 1) * (y + 1) < x * x + y * y
  {
    assert (x - 1) * (x - 1) == x * x - 2 * x + 1;
    assert (y + 1) * (y + 1) == y * y + 2 * y + 1;
  }

  // ------------------------------------------------------------------------------------
  // One balancing step
  // ------------------------------------------------------------------------------------

  /** The queued slot `t` of CPU `c` has a CPU to go to that is at least two lighter. */
  predicate Movable(s: State, c: nat, t: nat)
    requires c < |s.cpus| && t < |s.tasks|
  {
    var g := SelectBest(s.cpus, Loads(s), s.tasks[t].affinity, s.tasks[t].preferred, c);
    g != NONE && g != c && Load(s, c) > Load(s, g) + 1 && g in s.tasks[t].affinity
  }

  /** The first movable slot of a queue, of the levels below `l` (the highest first), and of the
      CPUs from `c` on. */
  function FirstInQueue(s: State, c: nat, q: seq<nat>): (r: int)
    requires c < |s.cpus| && Slots(q, |s.tasks|)
    ensures r == NONE || r in q
  {
    if q == [] then NONE else if Movable(s, c, q[0]) then q[0] else FirstInQueue(s, c, q[1..])
  }

  function FirstInLevels(s: State, c: nat, l: nat): int
    requires Shape(s) && c < |s.cpus| && l <= LEVELS &&
      forall k :: 0 <= k < LEVELS ==> Slots(s.queues[RunQueue(c, k)], |s.tasks|)
  {
    if l == 0 then NONE
    else
      var t := FirstInQueue(s, c, s.queues[RunQueue(c, l - 1)]);
      if t != NONE then t else FirstInLevels(s, c, l - 1)
  }

  ghost predicate QueueSlots(s: State)
    requires Shape(s)
  {
    forall c, k :: 0 <= c < |s.cpus| && 0 <= k < LEVELS ==> Slots(s.queues[RunQueue(c, k)], |s.tasks|)
  }

  function FirstMovable(s: State, c: nat): int
    requires Shape(s) && QueueSlots(s) && c <= |s.cpus|
    decreases |s.cpus| - c
  {
    if c == |s.cpus| then NONE
    else
      var t := if s.cpus[c].online && s.cpus[c].queued != 0 then FirstInLevels(s, c, LEVELS) else NONE;
      if t != NONE then t else FirstMovable(s, c + 1)
  }

  lemma {:induction false} InvSlots(s: State)
    requires Inv(s)
    ensures QueueSlots(s)
  {
    forall c, k | 0 <= c < |s.cpus| && 0 <= k < LEVELS ensures Slots(s.queues[RunQueue(c, k)], |s.tasks|) {
      InvBounds(s, c);
      assert forall i :: 0 <= i < |s.queues[RunQueue(c, k)]| ==>
          s.queues[RunQueue(c, k)][i] in s.queues[RunQueue(c, k)];
    }
  }

  /** The migration itself. */
  function Migrate(s: State, c: nat, t: nat, g: nat): State
    requires Shape(s) && c < |s.cpus| && g < |s.cpus| && t < |s.tasks| && s.tasks[t].priority < LEVELS
  {
    Requeue(s, t, s.tasks[t], c, g)
  }

  lemma {:induction false} QueueSearch(s: State, c: nat, q: seq<nat>)
    requires c < |s.cpus| && Slots(q, |s.tasks|)
    ensures var t := FirstInQueue(s, c, q);
      if t == NONE then forall x :: x in q ==> x < |s.tasks| && !Movable(s, c, x) else t in q && Movable(s, c, t)
  {
    if q != [] && !Movable(s, c, q[0]) {
      QueueSearch(s, c, q[1..]);
      assert forall x :: x in q ==> x == q[0] || x in q[1..];
    }
  }

  /** Slot `t` is queued on CPU `c`. */
  ghost predicate QueuedOn(s: State, c: nat, t: nat) {
    t < |s.tasks| && s.tasks[t].state == Runnable && s.tasks[t].cpu == c && s.tasks[t].priority < LEVELS
  }

  lemma {:induction false} QueuedSlots(s: State, c: nat, k: nat)
    requires Inv(s) && c < |s.cpus| && k < LEVELS
    ensures forall t: nat :: t in s.queues[RunQueue(c, k)] <==> QueuedOn(s, c, t) && s.tasks[t].priority == k
  {
    assert Unlocked(s, 0);
    var home, n := Homes(s.tasks, s.reserved), RunQueue(c, k);
    assert Member(home, s.queues[n], n);
    forall t: nat | QueuedOn(s, c, t) && s.tasks[t].priority == k ensures t in s.queues[n] {
      assert Listed(s.queues, home[t], t);
    }
  }

  lemma {:induction false} LevelSearch(s: State, c: nat, l: nat)
    requires Inv(s) && QueueSlots(s) && c < |s.cpus| && l <= LEVELS
    ensures var t := FirstInLevels(s, c, l);
      if t == NONE then forall u: nat :: QueuedOn(s, c, u) && s.tasks[u].priority < l ==> !Movable(s, c, u)
      else 0 <= t && QueuedOn(s, c, t) && Movable(s, c, t)
  {
    if l > 0 {
      var q := s.queues[RunQueue(c, l - 1)];
      QueueSearch(s, c, q);
      QueuedSlots(s, c, l - 1);
      LevelSearch(s, c, l - 1);
      if FirstInLevels(s, c, l) == NONE {
        forall u: nat | QueuedOn(s, c, u) && s.tasks[u].priority < l ensures !Movable(s, c, u) {
          assert s.tasks[u].priority == l - 1 ==> u in q;
        }
      }
    }
  }

  lemma {:induction false} CpuSearch(s: State, c: nat)
    requires Inv(s) && QueueSlots(s) && c <= |s.cpus|
    ensures var t := FirstMovable(s, c);
      if t == NONE then
        forall u :: 0 <= u < |s.tasks| && s.tasks[u].state == Runnable && c <= s.tasks[u].cpu < |s.cpus| ==>
          !Movable(s, s.tasks[u].cpu, u)
      else
        0 <= t < |s.tasks| && s.tasks[t].state == Runnable && s.tasks[t].cpu < |s.cpus| &&
        Movable(s, s.tasks[t].cpu, t)
    decreases |s.cpus| - c
  {
    if c < |s.cpus| {
      LevelSearch(s, c, LEVELS);
      CpuSearch(s, c + 1);
      forall u | 0 <= u < |s.tasks| && s.tasks[u].state == Runnable && s.tasks[u].cpu == c
        ensures QueuedOn(s, c, u) && s.cpus[c].online && s.cpus[c].queued != 0
      {
        TaskFacts(s, u);
        CountsIn(s, u);
      }
    }
  }

  /** A CPU with a queued task has a positive count. */
  lemma {:induction false} CountsIn(s: State, u: nat)
    requires Inv(s) && u < |s.tasks| && s.tasks[u].state == Runnable
    ensures s.tasks[u].cpu < |s.cpus| && s.cpus[s.tasks[u].cpu].queued > 0
  {
    TaskFacts(s, u);
    CpuFacts(s, s.tasks[u].cpu);
    QueuedSlots(s, s.tasks[u].cpu, s.tasks[u].priority);
    assert QueuedOn(s, s.tasks[u].cpu, u);
    assert QueueLength(s.queues, s.tasks[u].cpu, s.tasks[u].priority) > 0;
  }

  /** No step to take: no queued task without a node preference has an allowed online CPU that is
      two or more lighter than its own. */
  lemma {:induction false} BalancedWhenStuck(s: State, t: nat, g: nat)
    requires Inv(s) && QueueSlots(s) && FirstMovable(s, 0) == NONE
    requires t < |s.tasks| && s.tasks[t].state == Runnable && s.tasks[t].preferred == NODE_ANY
    requires g < |s.cpus| && s.cpus[g].online && g in s.tasks[t].affinity
    ensures s.tasks[t].cpu < |s.cpus| && Load(s, s.tasks[t].cpu) < Load(s, g) + 2
  {
    TaskFacts(s, t);
    CpuSearch(s, 0);
    var c, x := s.tasks[t].cpu, s.tasks[t];
    assert g in x.affinity * OnlineMask(s.cpus);
    SelectAllowed(s.cpus, Loads(s), x.affinity, x.preferred, c);
    var r := SelectBest(s.cpus, Loads(s), x.affinity, x.preferred, c);
    assert Loads(s)[r] <= Loads(s)[g];
  }

  lemma {:induction false} MigrateEach(s: State, t: nat, g: nat, r: State)
    requires Inv(s) && t < |s.tasks| && s.tasks[t].state == Runnable && TaskAt(s, t) && g < |s.cpus| &&
      g != s.tasks[t].cpu
    requires r == Migrate(s, s.tasks[t].cpu, t, g) && s.cpus[s.tasks[t].cpu].queued > 0
    ensures |r.cpus| == |s.cpus|
    ensures forall d :: 0 <= d < |s.cpus| ==>
      Load(r, d) == if d == g then Load(s, d) + 1 else if d == s.tasks[t].cpu then Load(s, d) - 1 else Load(s, d)
  {
    forall d | 0 <= d < |s.cpus| ensures RunsTask(r, d) == RunsTask(s, d) {
      NotCurrent(s, t, d);
    }
  }

  /** A step: the loads of two CPUs change by one, the total stays, the squares fall. */
  lemma {:induction false} MigrateLoads(s: State, t: nat, g: nat)
    requires Inv(s) && t < |s.tasks| && s.tasks[t].state == Runnable && TaskAt(s, t)
    requires g < |s.cpus| && s.cpus[g].online && g in s.tasks[t].affinity && g != s.tasks[t].cpu
    requires Load(s, s.tasks[t].cpu) > Load(s, g) + 1
    ensures var c, r := s.tasks[t].cpu, Migrate(s, s.tasks[t].cpu, t, g);
      Inv(r) && Loads(r) == Loads(s)[c := Load(s, c) - 1][g := Load(s, g) + 1] &&
      Sum(Loads(r)) == Sum(Loads(s)) && Squares(Loads(r)) < Squares(Loads(s))
  {
    var c := s.tasks[t].cpu;
    RequeueInv(s, t, s.tasks[t].priority, g);
    CountsIn(s, t);
    var r := Migrate(s, c, t, g);
    MigrateEach(s, t, g, r);
    assert Loads(r) == Loads(s)[c := Load(s, c) - 1][g := Load(s, g) + 1];
    ShiftLevels(Loads(s), c, g);
  }
}
