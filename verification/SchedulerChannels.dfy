/** A wait channel seen from outside: the queue of its waiters.  Blocking appends, a wake takes
    from the front, a tick drops the expired, and nothing else touches it. */
module SchedulerChannels {
  import opened TaskLists
  import opened SchedulerState
  import opened SchedulerSteps
  import opened SchedulerRuns
  import opened SchedulerWaits

  /** The tasks blocked on a channel, in the order they blocked. */
  ghost function Waiters(s: State, channel: nat): seq<nat>
    requires Inv(s)
  {
    ListStates(s);
    OnChannel(s.tasks, channel, s.queues[BlockedList])
  }

  /** What a walk leaves on the blocked list. */
  function Unchosen(tasks: seq<Task>, channel: nat, rest: seq<nat>, limit: nat): (r: seq<nat>)
    requires Slots(rest, |tasks|)
    ensures Slots(r, |tasks|)
    decreases |rest|
  {
    if rest == [] || limit == 0 then rest
    else if tasks[rest[0]].channel == channel then Unchosen(tasks, channel, rest[1..], limit - 1)
    else [rest[0]] + Unchosen(tasks, channel, rest[1..], limit)
  }

  function NotDue(tasks: seq<Task>, ticks: nat, rest: seq<nat>): (r: seq<nat>)
    requires Slots(rest, |tasks|)
    ensures Slots(r, |tasks|) && forall x :: x in r ==> x in rest
    decreases |rest|
  {
    if rest == [] then []
    else (if Due(tasks[rest[0]], ticks) then [] else [rest[0]]) + NotDue(tasks, ticks, rest[1..])
  }

  lemma {:induction false} OnChannelAppend(tasks: seq<Task>, channel: nat, q: seq<nat>, t: nat)
    requires Slots(q, |tasks|) && t < |tasks|
    ensures Slots(q + [t], |tasks|)
    ensures OnChannel(tasks, channel, q + [t]) ==
        OnChannel(tasks, channel, q) + if tasks[t].channel == channel then [t] else []
    decreases |q|
  {
    if q != [] {
      OnChannelAppend(tasks, channel, q[1..], t);
      assert (q + [t])[1..] == q[1..] + [t];
    }
  }

  lemma {:induction false} OnChannelSame(a: seq<Task>, b: seq<Task>, channel: nat, q: seq<nat>)
    requires |a| == |b| && Slots(q, |a|) && forall i :: 0 <= i < |q| ==> a[q[i]].channel == b[q[i]].channel
    ensures OnChannel(a, channel, q) == OnChannel(b, channel, q)
    decreases |q|
  {
    if q != [] {
      OnChannelSame(a, b, channel, q[1..]);
    }
  }

  /** Of the channel's own waiters a wake takes the first ones, of another channel's none. */
  lemma {:induction false} UnchosenWaiters(tasks: seq<Task>, channel: nat, rest: seq<nat>, limit: nat, other: nat)
    requires Slots(rest, |tasks|)
    ensures var all := OnChannel(tasks, other, rest);
      OnChannel(tasks, other, Unchosen(tasks, channel, rest, limit)) ==
      if other != channel then all else if limit < |all| then all[limit..] else []
    decreases |rest|
  {
    if rest != [] && limit > 0 {
      if tasks[rest[0]].channel == channel {
        UnchosenWaiters(tasks, channel, rest[1..], limit - 1, other);
      } else {
        UnchosenWaiters(tasks, channel, rest[1..], limit, other);
        var u := Unchosen(tasks, channel, rest[1..], limit);
        assert ([rest[0]] + u)[1..] == u;
      }
    }
  }

  lemma {:induction false} NotDueWaiters(tasks: seq<Task>, ticks: nat, rest: seq<nat>, channel: nat)
    requires Slots(rest, |tasks|)
    ensures Slots(OnChannel(tasks, channel, rest), |tasks|)
    ensures OnChannel(tasks, channel, NotDue(tasks, ticks, rest)) ==
        NotDue(tasks, ticks, OnChannel(tasks, channel, rest))
    decreases |rest|
  {
    if rest != [] {
      NotDueWaiters(tasks, ticks, rest[1..], channel);
      var d := NotDue(tasks, ticks, rest[1..]);
      assert ([rest[0]] + d)[1..] == d && [] + d == d;
      var o := OnChannel(tasks, channel, rest[1..]);
      assert ([rest[0]] + o)[1..] == o && [] + o == o;
    }
  }

  // ------------------------------------------------------------------------------------
  // The walks
  // ------------------------------------------------------------------------------------

  lemma {:induction false} RouseBlocked(s: State, t: nat, x: Task, w: Wait, kept: seq<nat>, rest: seq<nat>)
    requires Inv(s) && s.queues[BlockedList] == kept + rest && rest != [] && rest[0] == t && t < |s.tasks|
    ensures Rouse(s, BlockedList, t, x, w).queues[BlockedList] == kept + rest[1..]
  {
    assert Unlocked(s, 0);
    var q := s.queues[BlockedList];
    assert Member(Homes(s.tasks, s.reserved), q, BlockedList);
    assert q[|kept|] == t;
    WithoutAt(q, |kept|);
    assert q[..|kept|] == kept && q[|kept| + 1..] == rest[1..];
  }

  lemma {:induction false} WakesQueue(s: State, channel: nat, kept: seq<nat>, rest: seq<nat>, limit: nat)
    requires Inv(s) && AllIn(s, rest, Blocked) && s.queues[BlockedList] == kept + rest
    ensures Slots(rest, |s.tasks|)
    ensures Wakes(s, channel, rest, limit).queues[BlockedList] == kept + Unchosen(s.tasks, channel, rest, limit)
    decreases |rest|
  {
    if rest != [] && limit > 0 {
      var t := rest[0];
      WakeOneInv(s, rest);
      if s.tasks[t].channel == channel {
        var s1 := WakeOne(s, t);
        RouseBlocked(s, t, s.tasks[t].(channel := 0, result := true, wakeup := 0), Woken(s.tasks[t].channel), kept,
                     rest);
        WakesQueue(s1, channel, kept, rest[1..], limit - 1);
        UnchosenSame(s.tasks, s1.tasks, channel, rest[1..], limit - 1);
      } else {
        assert kept + rest == (kept + [t]) + rest[1..];
        WakesQueue(s, channel, kept + [t], rest[1..], limit);
      }
    }
  }

  lemma {:induction false} UnchosenSame(a: seq<Task>, b: seq<Task>, channel: nat, rest: seq<nat>, limit: nat)
    requires |a| == |b| && Slots(rest, |a|) && forall i :: 0 <= i < |rest| ==> a[rest[i]] == b[rest[i]]
    ensures Unchosen(a, channel, rest, limit) == Unchosen(b, channel, rest, limit)
    decreases |rest|
  {
    if rest != [] && limit > 0 {
      UnchosenSame(a, b, channel, rest[1..], limit);
      UnchosenSame(a, b, channel, rest[1..], limit - 1);
    }
  }

  lemma {:induction false} NotDueSame(a: seq<Task>, b: seq<Task>, ticks: nat, rest: seq<nat>)
    requires |a| == |b| && Slots(rest, |a|) && forall i :: 0 <= i < |rest| ==> a[rest[i]] == b[rest[i]]
    ensures NotDue(a, ticks, rest) == NotDue(b, ticks, rest)
    decreases |rest|
  {
    if rest != [] {
      NotDueSame(a, b, ticks, rest[1..]);
    }
  }

  lemma {:induction false} ExpireQueue(s: State, kept: seq<nat>, rest: seq<nat>)
    requires Inv(s) && AllIn(s, rest, Blocked) && s.queues[BlockedList] == kept + rest
    ensures Slots(rest, |s.tasks|)
    ensures ExpireWaits(s, rest).queues[BlockedList] == kept + NotDue(s.tasks, s.ticks, rest)
    decreases |rest|
  {
    if rest != [] {
      var t := rest[0];
      if Due(s.tasks[t], s.ticks) {
        var s1 := ExpireOne(s, t);
        ExpireOneInv(s, rest);
        RouseBlocked(s, t, s.tasks[t].(channel := 0, result := false, wakeup := 0), Expired(s.tasks[t].wakeup, s.ticks),
                     kept, rest);
        ExpireQueue(s1, kept, rest[1..]);
        NotDueSame(s.tasks, s1.tasks, s.ticks, rest[1..]);
      } else {
        assert kept + rest == (kept + [t]) + rest[1..];
        ExpireQueue(s, kept + [t], rest[1..]);
      }
    }
  }

  // ------------------------------------------------------------------------------------
  // Sections that leave the blocked list alone
  // ------------------------------------------------------------------------------------

  /** The blocked list and the channels of the slots on it are as before. */
  ghost predicate SameBlocked(s: State, r: State) {
    |r.tasks| == |s.tasks| && BlockedList in s.queues && BlockedList in r.queues &&
    r.queues[BlockedList] == s.queues[BlockedList] &&
    forall i :: 0 <= i < |s.queues[BlockedList]| ==>
      var x := s.queues[BlockedList][i];
      x < |s.tasks| && r.tasks[x].channel == s.tasks[x].channel && r.tasks[x].wakeup == s.tasks[x].wakeup
  }

  lemma {:induction false} SameTrans(a: State, b: State, c: State)
    requires SameBlocked(a, b) && SameBlocked(b, c)
    ensures SameBlocked(a, c)
  {
  }

  lemma {:induction false} SameWaiters(s: State, r: State, channel: nat)
    requires Inv(s) && Inv(r) && SameBlocked(s, r)
    ensures Waiters(r, channel) == Waiters(s, channel)
  {
    ListStates(s);
    OnChannelSame(s.tasks, r.tasks, channel, s.queues[BlockedList]);
  }

  lemma {:induction false} BlockedSlots(s: State)
    requires Inv(s)
    ensures Slots(s.queues[BlockedList], |s.tasks|)
    ensures forall i :: 0 <= i < |s.queues[BlockedList]| ==> s.tasks[s.queues[BlockedList][i]].state == Blocked
  {
    ListStates(s);
  }

  lemma {:induction false} ScheduleSame(s: State, c: nat)
    requires Shape(s) && InBounds(s, c) && Schedule(s, c).Done? && Slots(s.queues[BlockedList], |s.tasks|)
    ensures SameBlocked(s, Schedule(s, c).s)
  {
  }

  lemma {:induction false} BalanceSame(s: State)
    requires Inv(s)
    ensures SameBlocked(s, BalanceOnce(s))
  {
    BlockedSlots(s);
  }

  lemma {:induction false} SleepersSame(s: State, rest: seq<nat>)
    requires Inv(s) && AllIn(s, rest, Sleeping)
    ensures Slots(rest, |s.tasks|) && SameBlocked(s, WakeSleepers(s, rest)) && WakeSleepers(s, rest).ticks == s.ticks
    decreases |rest|
  {
    BlockedSlots(s);
    if rest != [] {
      var t := rest[0];
      TaskFacts(s, t);
      RouseOthers(s, SleepingList, t, s.tasks[t], s.waits[t], rest, Sleeping);
      if s.tasks[t].wakeup <= s.ticks {
        RouseInv(s, SleepingList, t, s.tasks[t], s.waits[t]);
        SleepersSame(Rouse(s, SleepingList, t, s.tasks[t], s.waits[t]), rest[1..]);
        SameTrans(s, Rouse(s, SleepingList, t, s.tasks[t], s.waits[t]), WakeSleepers(s, rest));
      } else {
        SleepersSame(s, rest[1..]);
      }
    }
  }

  lemma {:induction false} TickBackSame(s: State, c: nat)
    requires Inv(s) && c < |s.cpus| && TickBack(s, c).Done?
    ensures SameBlocked(s, TickBack(s, c).s)
  {
    InvBounds(s, c);
    BlockedSlots(s);
    if !RunsTask(s, c) {
      ScheduleSame(s, c);
    } else if Expires(s, c) {
      Charged(s, c);
      ScheduleSame(s, c);
    }
  }

  // ------------------------------------------------------------------------------------
  // Every section
  // ------------------------------------------------------------------------------------

  /** A tick drops the waiters whose deadline has come and keeps the others in order. */
  lemma {:induction false} TimersWaiters(s: State, channel: nat)
    requires Inv(s)
    ensures Slots(Waiters(s, channel), |s.tasks|)
    ensures Waiters(AdvanceTimers(s), channel) == NotDue(s.tasks, s.ticks, Waiters(s, channel))
  {
    ListStates(s);
    SleepersSame(s, s.queues[SleepingList]);
    WakeSleepersInv(s, s.queues[SleepingList]);
    var s1 := WakeSleepers(s, s.queues[SleepingList]);
    ListStates(s1);
    SameWaiters(s, s1, channel);
    ExpireWaitsInv(s1, s1.queues[BlockedList]);
    ExpireWaiters(s1, channel);
    WaitersDue(s, s1, channel);
  }

  lemma {:induction false} ExpireWaiters(s: State, channel: nat)
    requires Inv(s) && AllIn(s, s.queues[BlockedList], Blocked) && Inv(ExpireWaits(s, s.queues[BlockedList]))
    ensures Slots(Waiters(s, channel), |s.tasks|)
    ensures Waiters(ExpireWaits(s, s.queues[BlockedList]), channel) == NotDue(s.tasks, s.ticks, Waiters(s, channel))
  {
    var q, r := s.queues[BlockedList], ExpireWaits(s, s.queues[BlockedList]);
    assert q == [] + q;
    ExpireQueue(s, [], q);
    NotDueWaiters(s.tasks, s.ticks, q, channel);
    var left := NotDue(s.tasks, s.ticks, q);
    assert r.queues[BlockedList] == left;
    forall i | 0 <= i < |left| ensures s.tasks[left[i]].channel == r.tasks[left[i]].channel {
      ExpireEffect(s, q, left[i]);
      BlockedSlots(r);
    }
    OnChannelSame(s.tasks, r.tasks, channel, left);
  }

  lemma {:induction false} WaitersDue(s: State, r: State, channel: nat)
    requires Inv(s) && Inv(r) && SameBlocked(s, r) && r.ticks == s.ticks
    ensures Slots(Waiters(s, channel), |s.tasks|) && Waiters(r, channel) == Waiters(s, channel)
    ensures NotDue(r.tasks, r.ticks, Waiters(s, channel)) == NotDue(s.tasks, s.ticks, Waiters(s, channel))
  {
    SameWaiters(s, r, channel);
    var q := Waiters(s, channel);
    WaitersIn(s, channel);
    DueSame(s.tasks, r.tasks, s.ticks, q);
  }

  lemma {:induction false} WaitersIn(s: State, channel: nat)
    requires Inv(s)
    ensures Slots(Waiters(s, channel), |s.tasks|)
    ensures forall i :: 0 <= i < |Waiters(s, channel)| ==> Waiters(s, channel)[i] in s.queues[BlockedList]
  {
    ListStates(s);
    OnChannelIn(s.tasks, channel, s.queues[BlockedList]);
  }

  lemma {:induction false} OnChannelIn(tasks: seq<Task>, channel: nat, q: seq<nat>)
    requires Slots(q, |tasks|)
    ensures forall i :: 0 <= i < |OnChannel(tasks, channel, q)| ==>
        OnChannel(tasks, channel, q)[i] in q && OnChannel(tasks, channel, q)[i] < |tasks|
    decreases |q|
  {
    if q != [] {
      OnChannelIn(tasks, channel, q[1..]);
    }
  }

  lemma {:induction false} DueSame(a: seq<Task>, b: seq<Task>, ticks: nat, q: seq<nat>)
    requires |a| == |b| && Slots(q, |a|) && forall i :: 0 <= i < |q| ==> a[q[i]].wakeup == b[q[i]].wakeup
    ensures NotDue(a, ticks, q) == NotDue(b, ticks, q)
    decreases |q|
  {
    if q != [] {
      DueSame(a, b, ticks, q[1..]);
    }
  }

  lemma {:induction false} TickWaiters(s: State, c: nat, smp: bool, channel: nat)
    requires Inv(s) && c < |s.cpus| && Tick(s, c, smp).Done?
    ensures Slots(Waiters(s, channel), |s.tasks|)
    ensures Waiters(Tick(s, c, smp).s, channel) == NotDue(s.tasks, s.ticks + 1, Waiters(s, channel))
  {
    ClockInv(s, s.ticks + 1, s.lastBalance);
    var s0 := s.(ticks := s.ticks + 1);
    TimersWaiters(s0, channel);
    TickFrontSame(s, c, smp, channel);
    TickBackSame(TickFront(s, c, smp), c);
    SameWaiters(TickFront(s, c, smp), Tick(s, c, smp).s, channel);
  }

  lemma {:induction false} TickFrontSame(s: State, c: nat, smp: bool, channel: nat)
    requires Inv(s) && Inv(s.(ticks := s.ticks + 1))
    ensures Waiters(TickFront(s, c, smp), channel) == Waiters(AdvanceTimers(s.(ticks := s.ticks + 1)), channel)
  {
    var s1 := AdvanceTimers(s.(ticks := s.ticks + 1));
    ClockInv(s1, s1.ticks, s1.ticks);
    var s2 := s1.(lastBalance := s1.ticks);
    BlockedSlots(s1);
    SameWaiters(s1, s2, channel);
    BalanceSame(s2);
    SameWaiters(s2, BalanceOnce(s2), channel);
    BalanceSame(BalanceOnce(s2));
    SameWaiters(BalanceOnce(s2), BalancePeriodic(s2), channel);
  }

  /** A wake takes waiters from the front of its channel's queue and from no other's. */
  lemma {:induction false} WakeWaiters(s: State, channel: nat, max: nat, other: nat)
    requires Inv(s) && channel != 0
    ensures var all := Waiters(s, other);
      Waiters(Wake(s, channel, max), other) ==
      if other != channel then all else if Limit(max) < |all| then all[Limit(max)..] else []
  {
    ListStates(s);
    var q, r := s.queues[BlockedList], Wake(s, channel, max);
    assert q == [] + q;
    WakesQueue(s, channel, [], q, Limit(max));
    var left := Unchosen(s.tasks, channel, q, Limit(max));
    assert r.queues[BlockedList] == left;
    forall i | 0 <= i < |left| ensures s.tasks[left[i]].channel == r.tasks[left[i]].channel {
      WakesEffect(s, channel, q, Limit(max), left[i]);
      BlockedSlots(r);
    }
    OnChannelSame(s.tasks, r.tasks, other, left);
    UnchosenWaiters(s.tasks, channel, q, Limit(max), other);
  }

  /** Blocking appends the task to its channel's queue. */
  lemma {:induction false} BlockWaiters(s: State, c: nat, channel: nat, timeout: nat, other: nat)
    requires Inv(s) && c < |s.cpus| && RunsTask(s, c) && channel != 0 && timeout != 0 &&
      Step(s, WaitOnChannel(c, channel, timeout)).Done?
    ensures Waiters(Step(s, WaitOnChannel(c, channel, timeout)).s, other) ==
            Waiters(s, other) + if other == channel then [s.cpus[c].current] else []
  {
    InvBounds(s, c);
    BlockedSlots(s);
    var t, u, r := s.cpus[c].current, Waits(s, c, channel, timeout), Step(s, WaitOnChannel(c, channel, timeout)).s;
    var q := s.queues[BlockedList];
    assert u.queues[BlockedList] == q + [t];
    OnChannelAppend(u.tasks, other, q, t);
    ScheduleSame(u, c);
    OnChannelSame(u.tasks, r.tasks, other, q + [t]);
    OnChannelSame(s.tasks, u.tasks, other, q);
  }

  /** A slot that is not blocked may change as it likes. */
  lemma {:induction false} SlotSame(s: State, r: State, t: nat)
    requires Inv(s) && t < |s.tasks| == |r.tasks| && s.tasks[t].state != Blocked && r.tasks == s.tasks[t := r.tasks[t]]
    requires BlockedList in r.queues && r.queues[BlockedList] == s.queues[BlockedList]
    ensures SameBlocked(s, r)
  {
    BlockedSlots(s);
  }

  lemma {:induction false} CreateSame(s: State, op: Op)
    requires Inv(s) && Enabled(s, op) && (op.Boot? || op.ReserveSlot? || op.AbandonSlot? || op.CreateTask?)
    ensures Step(s, op).Done? && SameBlocked(s, Step(s, op).s)
  {
    ListStates(s);
    BlockedSlots(s);
    ReservedSlots(s);
    if op.Boot? || op.ReserveSlot? {
      if s.queues[FreeList] != [] && (op.Boot? ==> CanBoot(s, op.c)) {
        SlotSame(s, Step(s, op).s, s.queues[FreeList][0]);
      }
    } else {
      TaskFacts(s, op.t);
      SlotSame(s, Step(s, op).s, op.t);
    }
  }

  lemma {:induction false} ReleaseSame(s: State, op: Op)
    requires Inv(s) && (op.JoinTask? || op.ReapOne?)
    ensures Step(s, op).Done? && SameBlocked(s, Step(s, op).s)
  {
    ListStates(s);
    BlockedSlots(s);
    var t := if op.JoinTask? then FindTask(s.tasks, op.id, 0) else FirstReapable(s, s.queues[ZombieList]);
    if t != NONE && Reapable(s, t) { SlotSame(s, Free(s, t), t); }
  }

  lemma {:induction false} LevelSame(s: State, id: nat, p: nat)
    requires Inv(s)
    ensures Step(s, SetLevel(id, p)).Done? && SameBlocked(s, Step(s, SetLevel(id, p)).s)
  {
    BlockedSlots(s);
  }

  lemma {:induction false} OtherSame(s: State, op: Op)
    requires Inv(s) && Enabled(s, op) && Step(s, op).Done? && !op.TickOn? && !op.WakeChannel?
    requires op.WaitOnChannel? ==> op.channel == 0 || op.timeout == 0
    ensures SameBlocked(s, Step(s, op).s)
  {
    BlockedSlots(s);
    match op {
      case YieldOn(c) => InvBounds(s, c); ScheduleSame(s, c);
      case SleepOn(c, n) => InvBounds(s, c); SleepSame(s, c, n);
      case SetLevel(id, p) => LevelSame(s, id, p);
      case ExitOn(c) => SlotSame(s, ExitMark(s, c), s.cpus[c].current);
      case WaitOnChannel(_, _, _) =>
      case JoinTask(_) => ReleaseSame(s, op);
      case ReapOne => ReleaseSame(s, op);
      case _ => CreateSame(s, op);
    }
  }

  lemma {:induction false} SleepSame(s: State, c: nat, n: nat)
    requires Inv(s) && c < |s.cpus| && RunsTask(s, c) && InBounds(s, c) && Sleep(s, c, n).Done?
    ensures SameBlocked(s, Sleep(s, c, n).s)
  {
    BlockedSlots(s);
    if n == 0 {
      ScheduleSame(s, c);
    } else {
      ScheduleSame(Asleep(s, c, n), c);
      SameTrans(s, Asleep(s, c, n), Sleep(s, c, n).s);
    }
  }

  /** What each section does to the queue of a channel. */
  ghost function WaitersAfter(s: State, op: Op, channel: nat): seq<nat>
    requires Inv(s) && Enabled(s, op)
  {
    var all := Waiters(s, channel);
    match op
    case WakeChannel(ch, max) => if ch != channel ||
    ch == 0 then all else if Limit(max) < |all| then all[Limit(max)..] else []
    case WaitOnChannel(c, ch, timeout) => if ch != channel || ch == 0 ||
    timeout == 0 then all else all + [s.cpus[c].current]
    case TickOn(_, _) => WaitersIn(s, channel); NotDue(s.tasks, s.ticks + 1, all)
    case _ => all
  }

  /** A channel is a queue: blocking appends to it, a wake takes from its front, a tick drops the
      expired, and no other section touches it. */
  lemma {:induction false} ChannelIsQueue(s: State, op: Op, channel: nat)
    requires Inv(s) && Enabled(s, op) && Step(s, op).Done?
    ensures Waiters(Step(s, op).s, channel) == WaitersAfter(s, op, channel)
  {
    match op {
      case WakeChannel(ch, max) => if ch != 0 { WakeWaiters(s, ch, max, channel); }
      case TickOn(c, smp) => TickWaiters(s, c, smp, channel);
      case WaitOnChannel(c, ch, timeout) =>
        if ch != 0 && timeout != 0 {
          BlockWaiters(s, c, ch, timeout, channel);
        }
      case _ =>
        OtherSame(s, op);
        SameWaiters(s, Step(s, op).s, channel);
    }
  }
}
