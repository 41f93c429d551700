/** The scheduler over every run: safety, bounded waiting, sleepers, exits, and the sleep that
    loses its caller. */
module SchedulerRuns {
  import opened Bytes
  import opened Scheduler

  // ---------------------------------------------------------------- safety

  /** A process whose state the caller changed just before schedule(). */
  lemma LeftRunning(s: Sys, p: Proc)
    requires Inv(s) && p.pid == s.procs[s.current].pid && p.state != Ready && p.state != Running
    requires s.current == IDLE ==> p.state == Sleeping
    ensures AlmostInv(s.(procs := s.procs[s.current := p]))
  {
  }

  lemma InvIsAlmost(s: Sys, t: Sys)
    requires Inv(s) && t == s.(tickCounter := t.tickCounter)
    ensures AlmostInv(t) && !Due(t.procs[t.current], 0)
    ensures forall now :: !Due(t.procs[t.current], now)
  {
  }

  lemma EnqueueKeeps(s: Sys, i: nat, p: Proc, pids: nat)
    requires Inv(s) && 0 < i < MAX_PROCS && p.state == Ready && s.procs[i].state in {Blocked, Zombie}
    requires (pids == s.nextPid && i < s.nextPid && p.pid == s.procs[i].pid)
             || (i == s.nextPid == p.pid && pids == s.nextPid + 1)
    ensures Inv(Enqueue(s.(procs := s.procs[i := p], nextPid := pids), i))
  {
    assert i !in s.queue;
    assert i != s.current;
    var r := Enqueue(s.(procs := s.procs[i := p], nextPid := pids), i);
    assert forall j :: j in r.queue <==> j in s.queue || j == i;
  }

  lemma CreateSlot(s: Sys)
    requires Inv(s)
    ensures FreeSlot(s.procs, 0) == s.nextPid
  {
    assert forall i | 0 < i < s.nextPid :: s.procs[i].pid != 0;
    assert s.procs[IDLE].state != Zombie;
    assert s.nextPid < MAX_PROCS ==> s.procs[s.nextPid].state == Zombie && s.procs[s.nextPid].pid == 0;
  }

  /** Every legal step keeps the invariant: the run queue holds each ready process once and never
      the current one, exactly the current process runs, and slots in use have distinct PIDs. */
  lemma StepKeeps(s: Sys, e: Event)
    requires Inv(s) && Legal(s, e)
    ensures Inv(Step(s, e))
  {
    hide Schedule, Linkable, ReadyQueued, RunningCurrent, PidsInOrder;
    InvRange(s);
    match e
    case Creates =>
      CreateSlot(s);
      if s.nextPid < MAX_PROCS {
        NewSlot(s);
        EnqueueKeeps(s, s.nextPid, s.procs[s.nextPid].(pid := s.nextPid, state := Ready), s.nextPid + 1);
      }
    case Yields(now) =>
      InvIsAlmost(s, s);
      ScheduleKeeps(s, now);
    case Blocks(now) =>
      LeftRunning(s, s.procs[s.current].(state := Blocked));
      ScheduleKeeps(SetState(s, s.current, Blocked), now);
    case Unblocks(i) =>
      if i < MAX_PROCS && s.procs[i].state == Blocked {
        UsedSlot(s, i);
        EnqueueKeeps(s, i, s.procs[i].(state := Ready), s.nextPid);
      }
    case Sleeps(now, ms) =>
      SleepKeeps(s, now, ms);
    case Exits(now) =>
      LeftRunning(s, s.procs[s.current].(state := Zombie));
      ScheduleKeeps(SetState(s, s.current, Zombie), now);
    case Ticks(now) =>
      InvIsAlmost(s, s.(tickCounter := 0));
      if s.tickCounter + 1 >= 2 { ScheduleKeeps(s.(tickCounter := 0), now); }
      else { CounterKeeps(s, s.tickCounter + 1); }
  }

  lemma CounterKeeps(s: Sys, n: nat)
    requires Inv(s)
    ensures Inv(s.(tickCounter := n))
  {
  }

  lemma InvRange(s: Sys)
    requires Inv(s)
    ensures |s.procs| == MAX_PROCS && s.current < MAX_PROCS && (forall i | i in s.queue :: i < MAX_PROCS)
    ensures 1 <= s.nextPid <= MAX_PROCS
  {
  }

  lemma NewSlot(s: Sys)
    requires Inv(s) && s.nextPid < MAX_PROCS
    ensures s.procs[s.nextPid].state == Zombie
  {
  }

  lemma UsedSlot(s: Sys, i: nat)
    requires Inv(s) && i < MAX_PROCS && s.procs[i].state == Blocked
    ensures 0 < i < s.nextPid
  {
  }

  /** The state in which proc_sleep calls schedule(). */
  function Asleep(s: Sys, now: nat, ms: nat): Sys
    requires |s.procs| == MAX_PROCS && s.current < MAX_PROCS
  {
    s.(procs := s.procs[s.current := s.procs[s.current].(state := Sleeping, wakeTick := WakeTick(now, ms))])
  }

  lemma SleepKeeps(s: Sys, now: nat, ms: nat)
    requires Inv(s) && !WakesItself(s, now, ms)
    ensures Inv(Schedule(Asleep(s, now, ms), now))
  {
    var t := Asleep(s, now, ms);
    LeftRunning(s, t.procs[s.current]);
    assert forall j | 0 <= j < s.current :: Due(t.procs[j], now) == Due(s.procs[j], now);
    hide Schedule, Linkable, ReadyQueued, RunningCurrent;
    ScheduleKeeps(t, now);
  }

  /** A caller that wakes itself stays current in the READY state and in no queue. */
  lemma SelfWake(s: Sys, now: nat, ms: nat)
    requires Inv(s) && WakesItself(s, now, ms)
    ensures Schedule(Asleep(s, now, ms), now).current == s.current
            && Schedule(Asleep(s, now, ms), now).procs[s.current].state == Ready
            && s.current !in Schedule(Asleep(s, now, ms), now).queue
            && Linkable(Schedule(Asleep(s, now, ms), now))
  {
    var t := Asleep(s, now, ms);
    LeftRunning(s, t.procs[s.current]);
    assert t.procs[s.current].pid != 0;
    WakeEffect(t, now, 0);
    WakeHead(t, now, 0, s.current);
    SwitchLinkable(Wake(t, now, 0));
    SwitchEffect(Wake(t, now, 0));
    assert Wake(t, now, 0).queue == [s.current] + Wake(t, now, 0).queue[1..];
  }

  /** proc_sleep keeps the invariant exactly when the caller does not wake itself at the head of
      the queue. */
  lemma SleepKeepsIff(s: Sys, now: nat, ms: nat)
    requires Inv(s)
    ensures Inv(Step(s, Sleeps(now, ms))) <==> !WakesItself(s, now, ms)
  {
    if WakesItself(s, now, ms) { SelfWake(s, now, ms); } else { SleepKeeps(s, now, ms); }
  }

  /** Sleeping for less than a tick while nothing else is ready does it. */
  lemma ShortSleepAlone(s: Sys, now: nat)
    requires Inv(s) && s.current != IDLE && s.queue == [] && now < U32
    requires forall j | 0 <= j < MAX_PROCS :: s.procs[j].state != Sleeping
    ensures WakesItself(s, now, 9)
  {
  }

  // ---------------------------------------------------------------- runs

  ghost predicate LegalRun(s: Sys, es: seq<Event>)
    requires Inv(s)
    decreases |es|
  {
    InvRange(s);
    es == [] || (Legal(s, es[0]) && (StepKeeps(s, es[0]); LegalRun(Step(s, es[0]), es[1..])))
  }

  /** Every legal run keeps the invariant. */
  ghost function Run(s: Sys, es: seq<Event>): (r: Sys)
    requires Inv(s) && LegalRun(s, es)
    ensures Inv(r)
    decreases |es|
  {
    if es == [] then s else
      InvRange(s);
      StepKeeps(s, es[0]);
      Run(Step(s, es[0]), es[1..])
  }

  /** The schedule() calls made during a run. */
  ghost function Calls(s: Sys, es: seq<Event>): nat
    requires Inv(s) && LegalRun(s, es)
    decreases |es|
  {
    if es == [] then 0 else
      InvRange(s);
      StepKeeps(s, es[0]);
      (if CallsAt(s, es[0]).Some? then 1 else 0) + Calls(Step(s, es[0]), es[1..])
  }

  // ---------------------------------------------------------------- bounded waiting

  /** A schedule() call dispatches the head of the queue and moves everyone else up by one. */
  lemma ScheduleAdvances(s: Sys, now: nat, k: nat)
    requires AlmostInv(s) && k < |s.queue|
    ensures var r := Schedule(s, now);
            if k == 0 then r.current == s.queue[0] else k - 1 < |r.queue| && r.queue[k - 1] == s.queue[k]
  {
    WakeEffect(s, now, 0);
    var w := Wake(s, now, 0);
    assert w.queue[..|s.queue|][k] == s.queue[k] && w.queue[..|s.queue|][0] == s.queue[0];
    SwitchEffect(w);
    hide Switch, Wake;
    if k > 0 {
      assert w.queue[1..][k - 1] == w.queue[k];
    }
  }

  /** Steps without a schedule() call only add to the end of the queue. */
  lemma StepAdvances(s: Sys, e: Event, k: nat)
    requires Inv(s) && Legal(s, e) && k < |s.queue|
    ensures var r := Step(s, e);
            if CallsAt(s, e) == None then k < |r.queue| && r.queue[k] == s.queue[k]
            else if k == 0 then r.current == s.queue[0]
            else k - 1 < |r.queue| && r.queue[k - 1] == s.queue[k]
  {
    hide Schedule, Linkable, ReadyQueued, RunningCurrent, PidsInOrder;
    InvRange(s);
    match e
    case Creates =>
    case Unblocks(i) =>
    case Yields(now) => InvIsAlmost(s, s); ScheduleAdvances(s, now, k);
    case Blocks(now) =>
      LeftRunning(s, s.procs[s.current].(state := Blocked));
      ScheduleAdvances(SetState(s, s.current, Blocked), now, k);
    case Sleeps(now, ms) =>
      LeftRunning(s, Asleep(s, now, ms).procs[s.current]);
      ScheduleAdvances(Asleep(s, now, ms), now, k);
    case Exits(now) =>
      LeftRunning(s, s.procs[s.current].(state := Zombie));
      ScheduleAdvances(SetState(s, s.current, Zombie), now, k);
    case Ticks(now) =>
      InvIsAlmost(s, s.(tickCounter := 0));
      if s.tickCounter + 1 >= 2 { ScheduleAdvances(s.(tickCounter := 0), now, k); }
  }

  /** Whatever steps interleave, the process at index k waits while k schedule() calls pass, one
      place nearer to the head with each. */
  lemma {:induction false} QueueAdvances(s: Sys, es: seq<Event>, k: nat)
    requires Inv(s) && LegalRun(s, es) && k < |s.queue| && Calls(s, es) <= k
    ensures var r, n := Run(s, es), Calls(s, es);
            k - n < |r.queue| && r.queue[k - n] == s.queue[k]
    decreases |es|
  {
    hide Inv, Step, Legal, CallsAt;
    if es != [] {
      InvRange(s);
      StepKeeps(s, es[0]);
      StepAdvances(s, es[0], k);
      var t := Step(s, es[0]);
      QueueAdvances(t, es[1..], if CallsAt(s, es[0]).Some? then k - 1 else k);
    }
  }

  /** Bounded waiting: a process at queue index k is dispatched by exactly the (k+1)-th schedule()
      call that follows. */
  lemma DispatchedInTurn(s: Sys, es: seq<Event>, e: Event, k: nat)
    requires Inv(s) && LegalRun(s, es) && k < |s.queue| && Calls(s, es) == k
    requires Legal(Run(s, es), e) && CallsAt(Run(s, es), e).Some?
    ensures Step(Run(s, es), e).current == s.queue[k]
  {
    hide Inv, Step, Legal, CallsAt;
    QueueAdvances(s, es, k);
    InvRange(Run(s, es));
    StepAdvances(Run(s, es), e, 0);
  }

  // ---------------------------------------------------------------- sleepers and exits

  /** What one step does to a process that is neither queued nor current. */
  lemma ScheduleOther(s: Sys, now: nat, i: nat)
    requires AlmostInv(s) && 0 < i < MAX_PROCS && s.procs[i].state in {Sleeping, Zombie, Blocked}
    ensures var r := Schedule(s, now);
            if Due(s.procs[i], now)
            then r.procs[i].pid == s.procs[i].pid && (i in r.queue || r.current == i)
            else r.procs[i] == s.procs[i] && r.current != i && i !in r.queue
  {
    WakeEffect(s, now, 0);
    var w := Wake(s, now, 0);
    assert s.procs[i].state != Ready ==> i !in s.queue;
    SwitchLinkable(w);
    SwitchEffect(w);
    hide Switch, Wake, PidsInOrder;
  }

  lemma StepOther(s: Sys, e: Event, i: nat)
    requires Inv(s) && Legal(s, e) && 0 < i < MAX_PROCS && s.procs[i].pid != 0
    requires s.procs[i].state in {Sleeping, Zombie} || (s.procs[i].state == Blocked && e != Unblocks(i))
    ensures var r := Step(s, e);
            if CallsAt(s, e).Some? && Due(s.procs[i], CallsAt(s, e).value)
            then i in r.queue || r.current == i
            else r.procs[i] == s.procs[i] && r.current != i && i !in r.queue
  {
    NotCurrent(s, i);
    hide Schedule, Linkable, ReadyQueued, RunningCurrent, PidsInOrder;
    InvRange(s);
    match e
    case Creates =>
    case Unblocks(j) =>
    case Yields(now) => InvIsAlmost(s, s); ScheduleOther(s, now, i);
    case Blocks(now) =>
      LeftRunning(s, s.procs[s.current].(state := Blocked));
      ScheduleOther(SetState(s, s.current, Blocked), now, i);
    case Sleeps(now, ms) =>
      LeftRunning(s, Asleep(s, now, ms).procs[s.current]);
      ScheduleOther(Asleep(s, now, ms), now, i);
    case Exits(now) =>
      LeftRunning(s, s.procs[s.current].(state := Zombie));
      ScheduleOther(SetState(s, s.current, Zombie), now, i);
    case Ticks(now) =>
      InvIsAlmost(s, s.(tickCounter := 0));
      if s.tickCounter + 1 >= 2 { ScheduleOther(s.(tickCounter := 0), now, i); }
  }

  lemma NotCurrent(s: Sys, i: nat)
    requires Inv(s) && 0 < i < MAX_PROCS && s.procs[i].state in {Sleeping, Zombie, Blocked}
    ensures i != s.current && i !in s.queue
  {
  }

  /** Every schedule() call of the run comes before tick w. */
  ghost predicate AllBefore(s: Sys, es: seq<Event>, w: nat)
    requires Inv(s) && LegalRun(s, es)
    decreases |es|
  {
    es == [] ||
    (InvRange(s); StepKeeps(s, es[0]);
     (CallsAt(s, es[0]).Some? ==> CallsAt(s, es[0]).value < w) && AllBefore(Step(s, es[0]), es[1..], w))
  }

  /** A sleeper is not dispatched, nor even queued, before its wake tick. */
  lemma {:induction false} SleepsUntilDue(s: Sys, es: seq<Event>, i: nat)
    requires Inv(s) && LegalRun(s, es) && 0 < i < MAX_PROCS && s.procs[i].pid != 0 && s.procs[i].state == Sleeping
    requires AllBefore(s, es, s.procs[i].wakeTick)
    ensures var r := Run(s, es);
            |r.procs| == MAX_PROCS && r.procs[i] == s.procs[i] && r.current != i && i !in r.queue
    decreases |es|
  {
    hide Inv, Step, Legal, CallsAt;
    InvRange(s);
    if es == [] {
      NotCurrent(s, i);
    } else {
      StepKeeps(s, es[0]);
      StepOther(s, es[0], i);
      InvRange(Step(s, es[0]));
      SleepsUntilDue(Step(s, es[0]), es[1..], i);
    }
  }

  /** The first schedule() call at or past the wake tick makes the sleeper ready or runs it. */
  lemma WokenWhenDue(s: Sys, es: seq<Event>, e: Event, i: nat)
    requires Inv(s) && LegalRun(s, es) && 0 < i < MAX_PROCS && s.procs[i].pid != 0 && s.procs[i].state == Sleeping
    requires AllBefore(s, es, s.procs[i].wakeTick)
    requires Legal(Run(s, es), e)
    requires CallsAt(Run(s, es), e).Some? && CallsAt(Run(s, es), e).value >= s.procs[i].wakeTick
    ensures var r := Step(Run(s, es), e); i in r.queue || r.current == i
  {
    hide Inv, Step, Legal, CallsAt;
    SleepsUntilDue(s, es, i);
    InvRange(Run(s, es));
    StepOther(Run(s, es), e, i);
  }

  /** Every schedule() call of the run comes while less than ms milliseconds, in ticks of 10, have passed
      since tick `now`. */
  ghost predicate AllWithin(s: Sys, es: seq<Event>, now: nat, ms: nat)
    requires Inv(s) && LegalRun(s, es)
    decreases |es|
  {
    es == [] ||
    (InvRange(s); StepKeeps(s, es[0]);
     (CallsAt(s, es[0]).Some? ==> 10 * (CallsAt(s, es[0]).value - now) + 10 <= ms) && AllWithin(Step(s, es[0]), es[1..], now, ms))
  }

  lemma {:induction false} WithinIsBefore(s: Sys, es: seq<Event>, now: nat, ms: nat)
    requires Inv(s) && LegalRun(s, es) && AllWithin(s, es, now, ms)
    ensures AllBefore(s, es, now + ms / 10)
    decreases |es|
  {
    hide Inv, Step, Legal, CallsAt;
    InvRange(s);
    if es != [] {
      StepKeeps(s, es[0]);
      WithinIsBefore(Step(s, es[0]), es[1..], now, ms);
    }
  }

  /** What proc_sleep leaves: the caller asleep when ten milliseconds or more were asked for, otherwise
      ready or running again. */
  lemma FallsAsleep(s: Sys, now: nat, ms: nat)
    requires Inv(s) && Legal(s, Sleeps(now, ms)) && s.current != IDLE && now + ms / 10 < U32
    ensures var t, c := Step(s, Sleeps(now, ms)), s.current;
            && Inv(t) && |t.procs| == MAX_PROCS && t.procs[c].pid != 0
            && if ms < 10 then c in t.queue || t.current == c
               else t.procs[c].state == Sleeping && t.procs[c].wakeTick == now + ms / 10 && c !in t.queue && t.current != c
  {
    hide Schedule, Linkable, ReadyQueued, RunningCurrent;
    CallerInUse(s);
    StepKeeps(s, Sleeps(now, ms));
    LeftRunning(s, Asleep(s, now, ms).procs[s.current]);
    ScheduleOther(Asleep(s, now, ms), now, s.current);
  }

  lemma CallerInUse(s: Sys)
    requires Inv(s) && s.current != IDLE
    ensures 0 < s.current < MAX_PROCS && s.procs[s.current].pid != 0
  {}

  /** How long a sleep lasts: whatever is called, the caller is neither ready nor running while all schedule()
      calls come before its time in milliseconds, rounded down to ticks, is over, and the first call that
      comes later makes it ready or runs it. */
  lemma SleepLasts(s: Sys, now: nat, ms: nat, es: seq<Event>)
    requires Inv(s) && Legal(s, Sleeps(now, ms)) && s.current != IDLE && now + ms / 10 < U32
    ensures Inv(Step(s, Sleeps(now, ms)))
    ensures ms < 10 ==> s.current in Step(s, Sleeps(now, ms)).queue || Step(s, Sleeps(now, ms)).current == s.current
    ensures ms >= 10 && LegalRun(Step(s, Sleeps(now, ms)), es) && AllWithin(Step(s, Sleeps(now, ms)), es, now, ms) ==>
              var r := Run(Step(s, Sleeps(now, ms)), es);
              && s.current !in r.queue && r.current != s.current
              && forall e | Legal(r, e) && CallsAt(r, e).Some? && 10 * (CallsAt(r, e).value - now) + 10 > ms ::
                   s.current in Step(r, e).queue || Step(r, e).current == s.current
  {
    FallsAsleep(s, now, ms);
    hide Inv, Step, Legal, CallsAt, LegalRun, Run, AllBefore, AllWithin;
    var t, c := Step(s, Sleeps(now, ms)), s.current;
    if ms >= 10 && LegalRun(t, es) && AllWithin(t, es, now, ms) {
      WithinIsBefore(t, es, now, ms);
      CallerInRange(s);
      SleepsUntilDue(t, es, c);
      forall e | Legal(Run(t, es), e) && CallsAt(Run(t, es), e).Some? && 10 * (CallsAt(Run(t, es), e).value - now) + 10 > ms
        ensures c in Step(Run(t, es), e).queue || Step(Run(t, es), e).current == c
      {
        WokenWhenDue(t, es, e, c);
      }
    }
  }

  lemma CallerInRange(s: Sys)
    requires Inv(s) && s.current != IDLE
    ensures 0 < s.current < MAX_PROCS
  {}

  /** wake_tick has 32 bits: a sleep beyond its range is over at once. */
  lemma SleepWraps(s: Sys, now: nat, ms: nat)
    requires Inv(s) && Legal(s, Sleeps(now, ms)) && s.current != IDLE && now < U32 <= now + ms / 10 && ms < U32
    ensures s.current in Step(s, Sleeps(now, ms)).queue || Step(s, Sleeps(now, ms)).current == s.current
  {
    hide Schedule, Linkable, ReadyQueued, RunningCurrent;
    CallerInUse(s);
    LeftRunning(s, Asleep(s, now, ms).procs[s.current]);
    ScheduleOther(Asleep(s, now, ms), now, s.current);
  }

  /** The boot context, PID 0, is not woken by time: asleep it joins no queue however late it is, and runs
      again exactly when a schedule() call finds no other process ready or due. */
  lemma IdleSleepsOn(s: Sys, now: nat)
    requires Inv(s) && s.procs[IDLE].state == Sleeping && s.current != IDLE
    ensures var r := Schedule(s, now);
            && IDLE !in r.queue
            && (r.current == IDLE <==>
                  s.queue == [] && forall j | 0 < j < MAX_PROCS && s.procs[j].state == Sleeping :: now < s.procs[j].wakeTick)
            && (r.current != IDLE ==> |r.procs| == MAX_PROCS && r.procs[IDLE] == s.procs[IDLE])
  {
    assert s.procs[IDLE].pid == 0 && IDLE !in s.queue;
    SleepersAreInUse(s);
    WakeEffect(s, now, 0);
    var w := Wake(s, now, 0);
    if w.queue == [] {
      assert forall j | 0 < j < MAX_PROCS :: !Due(s.procs[j], now);
    } else {
      assert w.queue[0] in w.queue;
      if s.queue == [] { assert Due(s.procs[w.queue[0]], now); }
    }
    SwitchEffect(w);
    hide Wake, Switch, Linkable;
  }

  lemma SleepersAreInUse(s: Sys)
    requires Inv(s)
    ensures forall j | 0 < j < MAX_PROCS && s.procs[j].state == Sleeping :: s.procs[j].pid != 0
  {}

  // ---------------------------------------------------------------- each call

  /** proc_create_kernel takes the lowest free slot while there is one, gives the next PID, and queues the
      process last. */
  lemma CreateQueues(s: Sys)
    requires Inv(s)
    ensures var r, i := Step(s, Creates), s.nextPid;
            if i == MAX_PROCS then r == s
            else
              && r.queue == s.queue + [i] && r.procs == s.procs[i := Proc(i, Ready, s.procs[i].wakeTick)]
              && r.nextPid == i + 1 && r.current == s.current && r.tickCounter == s.tickCounter
  {
    CreateSlot(s);
    assert s.nextPid < MAX_PROCS ==> s.procs[s.nextPid].pid == 0;
  }

  /** proc_unblock queues a blocked process last and makes it ready; any other it leaves alone. */
  lemma UnblockQueues(s: Sys, i: nat)
    requires Inv(s) && i < MAX_PROCS
    ensures var r := Step(s, Unblocks(i));
            if s.procs[i].state != Blocked then r == s
            else
              && r.queue == s.queue + [i] && r.procs[i] == s.procs[i].(state := Ready) && r.current == s.current
              && (forall j | 0 <= j < MAX_PROCS && j != i :: r.procs[j] == s.procs[j])
              && (r.nextPid, r.tickCounter) == (s.nextPid, s.tickCounter)
  {}

  /** Whatever else happens, a blocked process is neither queued nor current until it is unblocked. */
  lemma {:induction false} BlockedStays(s: Sys, es: seq<Event>, i: nat)
    requires Inv(s) && LegalRun(s, es) && 0 < i < MAX_PROCS && s.procs[i].pid != 0 && s.procs[i].state == Blocked
    requires Unblocks(i) !in es
    ensures var r := Run(s, es);
            |r.procs| == MAX_PROCS && r.procs[i] == s.procs[i] && r.current != i && i !in r.queue
    decreases |es|
  {
    hide Inv, Step, Legal, CallsAt;
    InvRange(s);
    if es == [] {
      NotCurrent(s, i);
    } else {
      StepKeeps(s, es[0]);
      StepOther(s, es[0], i);
      InvRange(Step(s, es[0]));
      BlockedStays(Step(s, es[0]), es[1..], i);
    }
  }

  /** What becomes of a caller other than idle: blocked, exited, or, when it yields or its time slice ends,
      ready and last in the queue (idle runs when no other process is ready). */
  lemma CallerAfter(s: Sys, e: Event)
    requires Inv(s) && Legal(s, e) && s.current != IDLE
    ensures var r, c := Step(s, e), s.current;
            && |r.procs| == MAX_PROCS
            && (e.Blocks? ==> r.procs[c] == s.procs[c].(state := Blocked) && r.current != c && c !in r.queue)
            && (e.Exits? ==> r.procs[c] == s.procs[c].(state := Zombie) && r.current != c && c !in r.queue)
            && ((e.Yields? || e.Ticks?) && CallsAt(s, e).Some? ==>
                  r.current != c && r.queue != [] && r.queue[|r.queue| - 1] == c && r.procs[c] == s.procs[c].(state := Ready))
  {
    hide Schedule, Linkable, ReadyQueued, PidsInOrder;
    InvRange(s);
    CallerRuns(s);
    match e
    case Blocks(now) =>
      LeftRunning(s, s.procs[s.current].(state := Blocked));
      ScheduleOther(SetState(s, s.current, Blocked), now, s.current);
    case Exits(now) =>
      LeftRunning(s, s.procs[s.current].(state := Zombie));
      ScheduleOther(SetState(s, s.current, Zombie), now, s.current);
    case Yields(now) =>
      Preempts(s, now);
    case Ticks(now) =>
      CounterKeeps(s, 0);
      if s.tickCounter + 1 >= 2 { Preempts(s.(tickCounter := 0), now); }
    case _ =>
  }

  lemma CallerRuns(s: Sys)
    requires Inv(s) && s.current != IDLE
    ensures s.procs[s.current].state == Running
  {}

  lemma Preempts(s: Sys, now: nat)
    requires Inv(s) && s.current != IDLE
    ensures var r, c := Schedule(s, now), s.current;
            && |r.procs| == MAX_PROCS
            && r.current != c && r.queue != [] && r.queue[|r.queue| - 1] == c && r.procs[c] == s.procs[c].(state := Ready)
  {
    WakeEffect(s, now, 0);
    var w := Wake(s, now, 0);
    assert s.current !in w.queue;
    SwitchEffect(w);
    hide Wake, Switch;
  }

  // ---------------------------------------------------------------- the timer

  function IsTick(e: Event): nat { if e.Ticks? then 1 else 0 }

  /** The ticks of a run, and how many of them call schedule(). */
  function TicksIn(es: seq<Event>): nat { if es == [] then 0 else IsTick(es[0]) + TicksIn(es[1..]) }

  ghost function TickCalls(s: Sys, es: seq<Event>): nat
    requires Inv(s) && LegalRun(s, es)
    decreases |es|
  {
    if es == [] then 0 else
      InvRange(s);
      StepKeeps(s, es[0]);
      (if es[0].Ticks? && CallsAt(s, es[0]).Some? then 1 else 0) + TickCalls(Step(s, es[0]), es[1..])
  }

  lemma ScheduleCounter(s: Sys, now: nat)
    requires |s.procs| == MAX_PROCS && s.current < MAX_PROCS && forall i | i in s.queue :: i < MAX_PROCS
    ensures Schedule(s, now).tickCounter == s.tickCounter
  {
    WakeShape(s, now, 0);
    hide Wake;
  }

  lemma CounterAfter(s: Sys, e: Event)
    requires Inv(s) && Legal(s, e) && s.tickCounter < 2
    ensures Step(s, e).tickCounter == (s.tickCounter + IsTick(e)) % 2
    ensures e.Ticks? ==> (CallsAt(s, e).Some? <==> s.tickCounter == 1)
  {
    hide Schedule;
    InvRange(s);
    match e
    case Creates =>
    case Unblocks(_) =>
    case Yields(now) => ScheduleCounter(s, now);
    case Blocks(now) => ScheduleCounter(SetState(s, s.current, Blocked), now);
    case Sleeps(now, ms) => ScheduleCounter(Asleep(s, now, ms), now);
    case Exits(now) => ScheduleCounter(SetState(s, s.current, Zombie), now);
    case Ticks(now) => if s.tickCounter + 1 >= 2 { ScheduleCounter(s.(tickCounter := 0), now); }
  }

  /** Every second timer tick preempts, whatever is called in between. */
  lemma {:induction false} EverySecondTick(s: Sys, es: seq<Event>)
    requires Inv(s) && LegalRun(s, es) && s.tickCounter < 2
    ensures Run(s, es).tickCounter == (s.tickCounter + TicksIn(es)) % 2
    ensures TickCalls(s, es) == (s.tickCounter + TicksIn(es)) / 2
    decreases |es|
  {
    hide Inv, Step, Legal, CallsAt;
    if es != [] {
      InvRange(s);
      StepKeeps(s, es[0]);
      CounterAfter(s, es[0]);
      EverySecondTick(Step(s, es[0]), es[1..]);
    }
  }

  // ---------------------------------------------------------------- exits

  /** An exited process never runs again, and its slot and PID are never given to another. */
  lemma {:induction false} ExitedStays(s: Sys, es: seq<Event>, i: nat)
    requires Inv(s) && LegalRun(s, es) && 0 < i < MAX_PROCS && s.procs[i].pid != 0 && s.procs[i].state == Zombie
    ensures var r := Run(s, es);
            |r.procs| == MAX_PROCS && r.procs[i] == s.procs[i] && r.current != i && i !in r.queue
    decreases |es|
  {
    hide Inv, Step, Legal, CallsAt;
    InvRange(s);
    if es == [] {
      NotCurrent(s, i);
    } else {
      StepKeeps(s, es[0]);
      StepOther(s, es[0], i);
      InvRange(Step(s, es[0]));
      ExitedStays(Step(s, es[0]), es[1..], i);
    }
  }

  // ---------------------------------------------------------------- the lost process

  /** READY, but in no queue and not running. */
  ghost predicate Lost(s: Sys, c: nat) {
    && Linkable(s) && s.current !in s.queue
    && s.procs[s.current].state !in {Blocked, Zombie} && s.procs[IDLE].state !in {Blocked, Zombie}
    && 0 < c < MAX_PROCS && s.procs[c].state == Ready && c !in s.queue && c != s.current
  }

  lemma ScheduleLost(s: Sys, now: nat, c: nat)
    requires Linkable(s) && 0 < c < MAX_PROCS && s.procs[c].state == Ready && c !in s.queue
    requires s.procs[IDLE].state !in {Blocked, Zombie}
    ensures Lost(Schedule(s, now), c)
  {
    WakeEffect(s, now, 0);
    SwitchLinkable(Wake(s, now, 0));
    SwitchEffect(Wake(s, now, 0));
    hide Switch, Wake;
  }

  /** The state a caller that woke itself is left in: current and READY, but in no queue. */
  ghost predicate SelfWoken(s: Sys, c: nat) {
    && Linkable(s) && 0 < c == s.current < MAX_PROCS && s.procs[c].state == Ready && c !in s.queue
    && s.procs[IDLE].state !in {Blocked, Zombie}
  }

  /** proc_sleep by a caller that wakes itself leads there. */
  lemma SelfWakeLeads(s: Sys, now: nat, ms: nat)
    requires Inv(s) && WakesItself(s, now, ms)
    ensures SelfWoken(Step(s, Sleeps(now, ms)), s.current)
  {
    SelfWake(s, now, ms);
    WakeEffect(Asleep(s, now, ms), now, 0) by { LeftRunning(s, Asleep(s, now, ms).procs[s.current]); }
    SwitchEffect(Wake(Asleep(s, now, ms), now, 0));
    hide Wake, Switch;
  }

  /** Calls that do not schedule leave it so. */
  lemma SelfWokenStays(s: Sys, e: Event, c: nat)
    requires SelfWoken(s, c) && CallsAt(s, e).None?
    ensures SelfWoken(Step(s, e), c)
  {
    match e
    case Creates => var i := FreeSlot(s.procs, 0); assert i < MAX_PROCS ==> i !in s.queue && i != c;
    case _ =>
  }

  /** The next call that schedules loses the caller exactly when it is a yield or a timer tick; when the
      caller blocks, sleeps or exits of itself it is accounted for again. */
  lemma SelfWokenLosesIff(s: Sys, e: Event, c: nat)
    requires SelfWoken(s, c) && CallsAt(s, e).Some?
    ensures Lost(Step(s, e), c) <==> e.Yields? || e.Ticks?
  {
    hide Schedule, Lost;
    match e
    case Yields(now) => ScheduleLost(s, now, c);
    case Ticks(now) => ScheduleLost(s.(tickCounter := 0), now, c);
    case Blocks(now) => NotLost(s, s.procs[c].(state := Blocked), now);
    case Exits(now) => NotLost(s, s.procs[c].(state := Zombie), now);
    case Sleeps(now, ms) => NotLost(s, Asleep(s, now, ms).procs[c], now);
  }

  lemma NotLost(s: Sys, p: Proc, now: nat)
    requires SelfWoken(s, s.current) && p.state !in {Ready, Running}
    ensures !Lost(Schedule(s.(procs := s.procs[s.current := p]), now), s.current)
  {
    var t := s.(procs := s.procs[s.current := p]);
    CallerLeaves(s, p);
    WakeEffect(t, now, 0);
    SwitchLinkable(Wake(t, now, 0));
    SwitchEffect(Wake(t, now, 0));
    hide Switch, Wake, Due;
  }

  /** So a caller that wakes itself in proc_sleep is lost by the yield or tick that follows. */
  lemma SelfWakeLoses(s: Sys, now: nat, ms: nat, e: Event)
    requires Inv(s) && WakesItself(s, now, ms) && CallsAt(Step(s, Sleeps(now, ms)), e).Some?
    ensures var r := Step(s, Sleeps(now, ms));
            Linkable(r) && (Lost(Step(r, e), s.current) <==> e.Yields? || e.Ticks?)
  {
    SelfWakeLeads(s, now, ms);
    hide Step;
    SelfWokenLosesIff(Step(s, Sleeps(now, ms)), e, s.current);
  }

  lemma CallerLeaves(s: Sys, p: Proc)
    requires Linkable(s) && s.current !in s.queue
    ensures Linkable(s.(procs := s.procs[s.current := p]))
  {
  }

  /** ... and no later call of any kind (idle still never blocks or exits) ever dispatches it again. */
  lemma LostStays(s: Sys, e: Event, c: nat)
    requires Lost(s, c) && (e.Blocks? || e.Exits? ==> s.current != IDLE)
    ensures Lost(Step(s, e), c)
  {
    hide Schedule;
    match e
    case Creates =>
      var i := FreeSlot(s.procs, 0);
      assert i < MAX_PROCS ==> i !in s.queue && i != c;
    case Unblocks(i) =>
    case Yields(now) => ScheduleLost(s, now, c);
    case Blocks(now) =>
      CallerLeaves(s, s.procs[s.current].(state := Blocked));
      ScheduleLost(SetState(s, s.current, Blocked), now, c);
    case Sleeps(now, ms) => CallerLeaves(s, Asleep(s, now, ms).procs[s.current]); ScheduleLost(Asleep(s, now, ms), now, c);
    case Exits(now) => CallerLeaves(s, s.procs[s.current].(state := Zombie)); ScheduleLost(SetState(s, s.current, Zombie), now, c);
    case Ticks(now) => if s.tickCounter + 1 >= 2 { ScheduleLost(s.(tickCounter := 0), now, c); }
  }
}
