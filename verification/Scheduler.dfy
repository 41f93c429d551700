/** The round-robin scheduler (kernel/proc/process.c) on values: each call is one step, taken with
    the timer's tick count at that moment. Module SchedulerQueue runs the steps on the linked
    run queue. */
module Scheduler {
  import opened Bytes

  const MAX_PROCS: nat := 64
  const IDLE: nat := 0

  datatype State = Running | Ready | Blocked | Sleeping | Zombie

  datatype Proc = Proc(pid: nat, state: State, wakeTick: nat)

  /** The process table, the run queue from its head (as slot numbers), the current slot. */
  datatype Sys = Sys(procs: seq<Proc>, queue: seq<nat>, current: nat, nextPid: nat, tickCounter: nat)

  /** What the C code needs to follow its queue links: the queue names distinct READY slots. */
  ghost predicate Linkable(s: Sys) {
    && |s.procs| == MAX_PROCS && s.current < MAX_PROCS
    && (forall k | 0 <= k < |s.queue| :: s.queue[k] < MAX_PROCS && s.procs[s.queue[k]].state == Ready)
    && (forall k, l | 0 <= k < l < |s.queue| :: s.queue[k] != s.queue[l])
  }

  // ---------------------------------------------------------------- steps

  /** proc_init: a table of free slots and the idle process in slot 0, which is current. */
  function Init(): Sys {
    Sys(seq(MAX_PROCS, i => Proc(0, if i == IDLE then Ready else Zombie, 0)), [], IDLE, 1, 0)
  }

  function SetState(s: Sys, i: nat, st: State): Sys
    requires i < |s.procs|
  {
    s.(procs := s.procs[i := s.procs[i].(state := st)])
  }

  function Enqueue(s: Sys, i: nat): Sys { s.(queue := s.queue + [i]) }

  predicate Due(p: Proc, now: nat) {
    p.state == Sleeping && p.pid != 0 && now >= p.wakeTick
  }

  /** The first loop of schedule(), from slot i on: wake every sleeper whose tick has come. */
  function Wake(s: Sys, now: nat, i: nat): Sys
    requires i <= |s.procs|
    decreases |s.procs| - i
  {
    if i == |s.procs| then s
    else Wake(if Due(s.procs[i], now) then Enqueue(SetState(s, i, Ready), i) else s, now, i + 1)
  }

  /** The rest of schedule(): take the head of the queue, or idle, and switch to it. */
  function Switch(s: Sys): (r: Sys)
    requires |s.procs| == MAX_PROCS && s.current < MAX_PROCS && forall i | i in s.queue :: i < MAX_PROCS
    ensures |r.procs| == MAX_PROCS
  {
    assert s.queue != [] ==> s.queue[0] in s.queue;
    var next := if s.queue == [] then IDLE else s.queue[0];
    var t := s.(queue := if s.queue == [] then [] else s.queue[1..]);
    if next == s.current then t else
      var u := if t.procs[t.current].state == Running
        then Enqueue(SetState(t, t.current, Ready), t.current) else t;
      SetState(u, next, Running).(current := next)
  }

  lemma {:induction false} WakeShape(s: Sys, now: nat, i: nat)
    requires |s.procs| == MAX_PROCS && i <= MAX_PROCS && (forall j | j in s.queue :: j < MAX_PROCS)
    ensures var r := Wake(s, now, i);
            && |r.procs| == MAX_PROCS && r.current == s.current && r.nextPid == s.nextPid
            && r.tickCounter == s.tickCounter && forall j | j in r.queue :: j < MAX_PROCS
    decreases MAX_PROCS - i
  {
    if i < MAX_PROCS {
      WakeShape(if Due(s.procs[i], now) then Enqueue(SetState(s, i, Ready), i) else s, now, i + 1);
    }
  }

  function Schedule(s: Sys, now: nat): (r: Sys)
    requires |s.procs| == MAX_PROCS && s.current < MAX_PROCS && forall i | i in s.queue :: i < MAX_PROCS
    ensures |r.procs| == MAX_PROCS
  {
    WakeShape(s, now, 0);
    Switch(Wake(s, now, 0))
  }

  function FreeSlot(procs: seq<Proc>, i: nat): (r: nat)
    requires i <= |procs|
    ensures i <= r <= |procs|
    ensures r < |procs| ==> procs[r].state == Zombie && procs[r].pid == 0
    ensures forall j | i <= j < r :: !(procs[j].state == Zombie && procs[j].pid == 0)
    decreases |procs| - i
  {
    if i == |procs| || (procs[i].state == Zombie && procs[i].pid == 0) then i else FreeSlot(procs, i + 1)
  }

  /** What other code may ask of the scheduler. */
  datatype Event =
    | Creates
    | Yields(now: nat)
    | Blocks(now: nat)
    | Unblocks(slot: nat)
    | Sleeps(now: nat, ms: nat)
    | Exits(now: nat)
    | Ticks(now: nat)

  /** wake_tick is a uint32_t: the sum with the 64-bit tick count is cut to 32 bits. */
  function WakeTick(now: nat, ms: nat): nat { (now + ms / 10) % U32 }

  function Create(s: Sys): Sys
    requires |s.procs| == MAX_PROCS
  {
    var i := FreeSlot(s.procs, 0);
    if i == MAX_PROCS then s else
      Enqueue(s.(procs := s.procs[i := s.procs[i].(pid := s.nextPid, state := Ready)],
                 nextPid := (s.nextPid + 1) % U32), i)
  }

  function Step(s: Sys, e: Event): (r: Sys)
    requires |s.procs| == MAX_PROCS && s.current < MAX_PROCS && forall i | i in s.queue :: i < MAX_PROCS
    ensures |r.procs| == MAX_PROCS
  {
    match e
    case Creates => Create(s)
    case Yields(now) => Schedule(s, now)
    case Blocks(now) => Schedule(SetState(s, s.current, Blocked), now)
    case Unblocks(i) =>
      if i < MAX_PROCS && s.procs[i].state == Blocked then Enqueue(SetState(s, i, Ready), i) else s
    case Sleeps(now, ms) =>
      Schedule(s.(procs := s.procs[s.current := s.procs[s.current].(state := Sleeping, wakeTick := WakeTick(now, ms))]), now)
    case Exits(now) => Schedule(SetState(s, s.current, Zombie), now)
    case Ticks(now) =>
      if s.tickCounter + 1 >= 2 then Schedule(s.(tickCounter := 0), now)
      else s.(tickCounter := s.tickCounter + 1)
  }

  /** The tick count of the schedule() call an event makes; None when it makes none. */
  function CallsAt(s: Sys, e: Event): Option<nat> {
    match e
    case Creates => None
    case Unblocks(_) => None
    case Yields(now) => Some(now)
    case Blocks(now) => Some(now)
    case Sleeps(now, _) => Some(now)
    case Exits(now) => Some(now)
    case Ticks(now) => if s.tickCounter + 1 >= 2 then Some(now) else None
  }

  // ---------------------------------------------------------------- the invariant

  /** Slots below nextPid are in use and hold the process of that number; the others are free. */
  ghost predicate PidsInOrder(s: Sys) {
    && 1 <= s.nextPid <= MAX_PROCS == |s.procs|
    && (forall i | 0 <= i < s.nextPid :: s.procs[i].pid == i)
    && (forall i | s.nextPid <= i < MAX_PROCS :: s.procs[i].pid == 0 && s.procs[i].state == Zombie)
  }

  /** A process other than idle is READY exactly when it is queued. */
  ghost predicate ReadyQueued(s: Sys)
    requires |s.procs| == MAX_PROCS
  {
    forall i | 0 < i < MAX_PROCS :: s.procs[i].state == Ready <==> i in s.queue
  }

  ghost predicate RunningCurrent(s: Sys)
    requires |s.procs| == MAX_PROCS
  {
    forall i | 0 < i < MAX_PROCS :: s.procs[i].state == Running <==> i == s.current
  }

  ghost predicate Inv(s: Sys) {
    && Linkable(s) && PidsInOrder(s) && ReadyQueued(s) && RunningCurrent(s)
    && s.current !in s.queue
    && s.procs[IDLE].state != Zombie && s.procs[IDLE].state != Blocked
  }

  /** The sleeper would be woken at once and be at the head of the queue: nothing is queued, its wake
      tick has already come, and no sleeper in a lower slot is due. */
  ghost predicate WakesItself(s: Sys, now: nat, ms: nat)
    requires |s.procs| == MAX_PROCS && s.current < MAX_PROCS
  {
    && s.current != IDLE && s.queue == [] && WakeTick(now, ms) <= now
    && forall j | 0 <= j < s.current :: !Due(s.procs[j], now)
  }

  /** Idle, which is the boot and shell context, neither blocks nor exits; a sleeper does not wake
      itself. */
  ghost predicate Legal(s: Sys, e: Event)
    requires |s.procs| == MAX_PROCS && s.current < MAX_PROCS
  {
    match e
    case Blocks(_) => s.current != IDLE
    case Exits(_) => s.current != IDLE
    case Sleeps(now, ms) => !WakesItself(s, now, ms)
    case _ => true
  }

  lemma InitInv()
    ensures Inv(Init())
  {
  }

  /** The first process made after proc_init is PID 1 and runs at the first yield; idle, which was not
      running yet, does not join the queue. */
  lemma FirstDispatch(now: nat)
    ensures var s := Create(Init());
            && |s.procs| == MAX_PROCS && s.queue == [1] && s.current == IDLE && s.procs[1] == Proc(1, Ready, 0)
            && var r := Schedule(s, now);
               r.current == 1 && r.queue == [] && r.procs[1].state == Running && r.procs[IDLE] == Proc(0, Ready, 0)
  {
    assert FreeSlot(Init().procs, 1) == 1;
    var s := Create(Init());
    WakeNobody(s, now, 0);
  }

  lemma {:induction false} WakeNobody(s: Sys, now: nat, i: nat)
    requires i <= |s.procs| && forall j | i <= j < |s.procs| :: !Due(s.procs[j], now)
    ensures Wake(s, now, i) == s
    decreases |s.procs| - i
  {
    if i < |s.procs| { WakeNobody(s, now, i + 1); }
  }

  // ---------------------------------------------------------------- waking

  lemma InRange(s: Sys)
    requires Linkable(s)
    ensures |s.procs| == MAX_PROCS && s.current < MAX_PROCS
  {
  }

  lemma WakeOne(s: Sys, i: nat)
    requires Linkable(s) && i < MAX_PROCS && s.procs[i].state == Sleeping
    ensures Linkable(Enqueue(SetState(s, i, Ready), i))
    ensures forall j :: j in Enqueue(SetState(s, i, Ready), i).queue <==> j in s.queue || j == i
  {
    assert i !in s.queue;
  }

  lemma {:induction false} WakeQueue(s: Sys, now: nat, i: nat)
    requires Linkable(s) && i <= MAX_PROCS
    ensures var r := Wake(s, now, i);
            && Linkable(r) && r.current == s.current && r.nextPid == s.nextPid && r.tickCounter == s.tickCounter
            && |r.queue| >= |s.queue| && r.queue[..|s.queue|] == s.queue
    decreases MAX_PROCS - i
  {
    InRange(s);
    hide Linkable;
    if i < MAX_PROCS && Due(s.procs[i], now) {
      var t := Enqueue(SetState(s, i, Ready), i);
      WakeOne(s, i);
      WakeQueue(t, now, i + 1);
      assert Wake(t, now, i + 1).queue[..|t.queue|][..|s.queue|] == s.queue;
    } else if i < MAX_PROCS {
      WakeQueue(s, now, i + 1);
    }
  }

  lemma {:induction false} WakeProcs(s: Sys, now: nat, i: nat)
    requires Linkable(s) && i <= MAX_PROCS
    ensures var r := Wake(s, now, i);
            && |r.procs| == MAX_PROCS
            && (forall j | 0 <= j < MAX_PROCS ::
                  r.procs[j] == if i <= j && Due(s.procs[j], now) then s.procs[j].(state := Ready) else s.procs[j])
            && (forall j | 0 <= j < MAX_PROCS :: j in r.queue <==> j in s.queue || (i <= j && Due(s.procs[j], now)))
    decreases MAX_PROCS - i
  {
    InRange(s);
    hide Linkable;
    if i < MAX_PROCS && Due(s.procs[i], now) {
      WakeOne(s, i);
      WakeProcs(Enqueue(SetState(s, i, Ready), i), now, i + 1);
    } else if i < MAX_PROCS {
      WakeProcs(s, now, i + 1);
    }
  }

  /** What the wake loop does from slot i on. */
  lemma WakeEffect(s: Sys, now: nat, i: nat)
    requires Linkable(s) && i <= MAX_PROCS
    ensures var r := Wake(s, now, i);
            && Linkable(r) && r.current == s.current && r.nextPid == s.nextPid && r.tickCounter == s.tickCounter
            && |r.queue| >= |s.queue| && r.queue[..|s.queue|] == s.queue
            && (forall j | 0 <= j < MAX_PROCS ::
                  r.procs[j] == if i <= j && Due(s.procs[j], now) then s.procs[j].(state := Ready) else s.procs[j])
            && (forall j | 0 <= j < MAX_PROCS :: j in r.queue <==> j in s.queue || (i <= j && Due(s.procs[j], now)))
  {
    hide Wake;
    WakeQueue(s, now, i);
    WakeProcs(s, now, i);
  }

  /** Those that wake join the queue in the order of their slots. */
  lemma {:induction false} WakeInOrder(s: Sys, now: nat, i: nat)
    requires Linkable(s) && i <= MAX_PROCS
    ensures var r := Wake(s, now, i);
            && |r.queue| >= |s.queue|
            && (forall k | |s.queue| <= k < |r.queue| :: i <= r.queue[k])
            && forall k, l | |s.queue| <= k < l < |r.queue| :: r.queue[k] < r.queue[l]
    decreases MAX_PROCS - i
  {
    InRange(s);
    hide Linkable;
    if i < MAX_PROCS && Due(s.procs[i], now) {
      var t := Enqueue(SetState(s, i, Ready), i);
      WakeOne(s, i);
      WakeInOrder(t, now, i + 1);
      WakeQueue(t, now, i + 1);
      assert Wake(t, now, i + 1).queue[..|t.queue|][|s.queue|] == i;
    } else if i < MAX_PROCS {
      WakeInOrder(s, now, i + 1);
    }
  }

  /** The first process to join an empty queue is the due sleeper in the lowest slot. */
  lemma {:induction false} WakeHead(s: Sys, now: nat, i: nat, c: nat)
    requires Linkable(s) && i <= c < MAX_PROCS && s.queue == [] && Due(s.procs[c], now)
    requires forall j | i <= j < c :: !Due(s.procs[j], now)
    ensures Wake(s, now, i).queue != [] && Wake(s, now, i).queue[0] == c
    decreases c - i
  {
    if i < c {
      WakeHead(s, now, i + 1, c);
    } else {
      WakeEffect(Enqueue(SetState(s, i, Ready), i), now, i + 1);
    }
  }

  // ---------------------------------------------------------------- schedule() keeps the invariant

  /** The invariant as schedule() finds it: the caller may have left the running state. */
  ghost predicate AlmostInv(s: Sys) {
    && Linkable(s) && PidsInOrder(s) && ReadyQueued(s) && s.current !in s.queue
    && (forall i | 0 < i < MAX_PROCS && s.procs[i].state == Running :: i == s.current)
    && s.procs[IDLE].state != Zombie && s.procs[IDLE].state != Blocked
  }

  lemma WakeKeeps(s: Sys, now: nat)
    requires AlmostInv(s)
    ensures var r := Wake(s, now, 0);
            && Linkable(r) && PidsInOrder(r) && ReadyQueued(r) && r.current == s.current
            && (forall i | 0 < i < MAX_PROCS && r.procs[i].state == Running :: i == r.current)
            && r.procs[IDLE].state != Zombie && r.procs[IDLE].state != Blocked
            && (r.current in r.queue <==> Due(s.procs[s.current], now))
  {
    WakeEffect(s, now, 0);
  }

  /** The invariant between the wake loop and the switch: the caller may be queued, not at the head. */
  ghost predicate MidSchedule(s: Sys) {
    && Linkable(s) && PidsInOrder(s) && ReadyQueued(s)
    && (forall i | 0 < i < MAX_PROCS && s.procs[i].state == Running :: i == s.current)
    && s.procs[IDLE].state != Zombie && s.procs[IDLE].state != Blocked
    && (s.current in s.queue ==> s.queue[0] != s.current)
  }

  /** Switching restores the invariant unless the caller itself is taken from the head of the queue */
  lemma SwitchKeeps(s: Sys)
    requires MidSchedule(s)
    ensures Inv(Switch(s))
  {
    SwitchLinkable(s);
    SwitchReady(s);
    SwitchRunning(s);
    SwitchPids(s);
    hide Switch, Linkable, ReadyQueued, RunningCurrent, PidsInOrder;
  }

  lemma SwitchReady(s: Sys)
    requires MidSchedule(s)
    ensures Switch(s).current !in Switch(s).queue && |Switch(s).procs| == MAX_PROCS && ReadyQueued(Switch(s))
  {
    SwitchEffect(s);
    SwitchLinkable(s);
    hide Switch, PidsInOrder, Linkable;
  }

  lemma SwitchRunning(s: Sys)
    requires MidSchedule(s)
    ensures |Switch(s).procs| == MAX_PROCS && RunningCurrent(Switch(s))
    ensures Switch(s).procs[IDLE].state != Zombie && Switch(s).procs[IDLE].state != Blocked
  {
    SwitchEffect(s);
    SwitchLinkable(s);
    hide Switch, PidsInOrder, Linkable;
  }

  lemma SwitchPids(s: Sys)
    requires MidSchedule(s)
    ensures PidsInOrder(Switch(s))
  {
    assert Linkable(s) && PidsInOrder(s) && s.procs[IDLE].state != Zombie;
    hide Switch, ReadyQueued, MidSchedule;
    SwitchedSlots(s);
  }

  /** A switch changes no PID and brings no zombie back. */
  lemma SwitchedSlots(s: Sys)
    requires Linkable(s) && s.procs[IDLE].state != Zombie
    ensures var r := Switch(s);
            && |r.procs| == MAX_PROCS && r.nextPid == s.nextPid
            && forall i | 0 <= i < MAX_PROCS ::
                 r.procs[i].pid == s.procs[i].pid && (s.procs[i].state == Zombie ==> r.procs[i].state == Zombie)
  {
    SwitchLinkable(s);
    SwitchEffect(s);
    hide Switch, QueueSwitched;
  }

  lemma SwitchLinkable(s: Sys)
    requires Linkable(s)
    ensures Linkable(Switch(s))
    ensures s.queue != [] ==> s.queue[0] < MAX_PROCS && s.procs[s.queue[0]].state == Ready && s.queue[0] in s.queue
  {
    hide Switch;
    SwitchEffect(s);
    var r := Switch(s);
    var rest := if s.queue == [] then [] else s.queue[1..];
    forall k | 0 <= k < |rest| ensures r.queue[k] == s.queue[k + 1] {
    }
  }

  /** What a switch does to the queue and to each process. */
  lemma SwitchEffect(s: Sys)
    requires Linkable(s)
    ensures var r, next := Switch(s), if s.queue == [] then IDLE else s.queue[0];
            var requeued := next != s.current && s.procs[s.current].state == Running;
            && QueueSwitched(s, r, next, requeued)
            && |r.procs| == MAX_PROCS && r.current == next < MAX_PROCS && r.nextPid == s.nextPid && r.tickCounter == s.tickCounter
            && (forall i | 0 <= i < MAX_PROCS ::
                  r.procs[i] == if i == next && next != s.current then s.procs[i].(state := Running)
                                else if i == s.current && requeued then s.procs[i].(state := Ready)
                                else s.procs[i])
  {
    assert s.queue != [] ==> s.queue == [s.queue[0]] + s.queue[1..];
  }

  /** The queue after a switch: its head is gone, a requeued process is at its end. */
  ghost predicate QueueSwitched(s: Sys, r: Sys, next: nat, requeued: bool) {
    && r.queue == (if s.queue == [] then [] else s.queue[1..]) + (if requeued then [s.current] else [])
    && (forall i | i != next || s.queue == [] :: i in r.queue <==> i in s.queue || (requeued && i == s.current))
    && (s.queue != [] && !(requeued && next == s.current) ==> next !in r.queue)
  }

  lemma ScheduleKeeps(s: Sys, now: nat)
    requires AlmostInv(s)
    requires !(s.current != IDLE && s.queue == [] && Due(s.procs[s.current], now)
               && forall j | 0 <= j < s.current :: !Due(s.procs[j], now))
    ensures Inv(Schedule(s, now))
  {
    WakeKeeps(s, now);
    var r := Wake(s, now, 0);
    WakeEffect(s, now, 0);
    if Due(s.procs[s.current], now) {
      if s.queue != [] {
        assert r.queue[0] == r.queue[..|s.queue|][0] == s.queue[0] && s.queue[0] in s.queue;
      } else {
        var j := FirstDue(s, now, 0);
        WakeHead(s, now, 0, j);
      }
    }
    SwitchKeeps(r);
  }

  lemma {:induction false} FirstDue(s: Sys, now: nat, i: nat) returns (c: nat)
    requires |s.procs| == MAX_PROCS && i < MAX_PROCS && exists j :: i <= j < MAX_PROCS && Due(s.procs[j], now)
    ensures i <= c < MAX_PROCS && Due(s.procs[c], now) && forall j | i <= j < c :: !Due(s.procs[j], now)
    decreases MAX_PROCS - i
  {
    if Due(s.procs[i], now) { c := i; } else { c := FirstDue(s, now, i + 1); }
  }
}
