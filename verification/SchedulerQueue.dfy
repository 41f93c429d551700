/** The scheduler as the kernel runs it (kernel/proc/process.c): the static process table, and the
    `next` links that thread the run queue through it. A process pointer is its slot number, NULL
    is -1. Every call is proved equal to its step in module Scheduler. */
module SchedulerQueue {
  import opened Bytes
  import S = Scheduler

  const NULL: int := -1

  /** The link of the k-th queued process. */
  ghost predicate LinkAt(next: seq<int>, q: seq<nat>, k: nat)
    requires k < |q|
  {
    q[k] < |next| && next[q[k]] == if k + 1 < |q| then q[k + 1] else NULL
  }

  /** The links thread exactly this queue, starting at `head`. */
  ghost predicate Threads(next: seq<int>, q: seq<nat>, head: int) {
    && (forall k, l | 0 <= k < l < |q| :: q[k] != q[l])
    && head == (if q == [] then NULL else q[0])
    && (forall k: nat | k < |q| :: LinkAt(next, q, k))
  }

  lemma ThreadsAppend(next: seq<int>, q: seq<nat>, head: int, p: nat)
    requires Threads(next, q, head) && p < |next| && p !in q
    ensures q == [] ==> Threads(next[p := NULL], [p], p)
    ensures q != [] ==> q[|q| - 1] < |next| && Threads(next[p := NULL][q[|q| - 1] := p], q + [p], head)
  {
    if q != [] {
      assert LinkAt(next, q, |q| - 1);
      var (r, s) := (next[p := NULL][q[|q| - 1] := p], q + [p]);
      forall k: nat | k < |s| ensures LinkAt(r, s, k) {
        if k < |q| { assert LinkAt(next, q, k); }
      }
    }
  }

  lemma ThreadsTail(next: seq<int>, q: seq<nat>, head: int)
    requires Threads(next, q, head) && q != []
    ensures q[0] < |next| && Threads(next[q[0] := NULL], q[1..], next[q[0]])
  {
    assert LinkAt(next, q, 0);
    var (r, s) := (next[q[0] := NULL], q[1..]);
    forall k: nat | k < |s| ensures LinkAt(r, s, k) {
      assert LinkAt(next, q, k + 1);
    }
  }

  class Kernel {
    const procs: array<S.Proc>     // proc_table, without the links
    const next: array<int>         // the links
    var current: nat
    var runQueue: int
    var nextPid: nat
    var tickCounter: nat
    ghost var Queue: seq<nat>      // slots from the head of the run queue

    ghost predicate Linked()
      reads this`runQueue, this`Queue, next
    {
      next.Length == S.MAX_PROCS && Threads(next[..], Queue, runQueue)
    }

    ghost function Sys(): S.Sys
      reads this, procs
    {
      S.Sys(procs[..], Queue, current, nextPid, tickCounter)
    }

    ghost predicate Valid()
      reads this, procs, next
    {
      Linked() && procs.Length == S.MAX_PROCS && S.Linkable(Sys())
    }

    /** proc_init. */
    constructor ()
      ensures Valid() && Sys() == S.Init()
    {
      procs := new S.Proc[S.MAX_PROCS];
      next := new int[S.MAX_PROCS];
      current, runQueue, nextPid, tickCounter := S.IDLE, NULL, 1, 0;
      Queue := [];
      new;
      for i := 0 to S.MAX_PROCS
        invariant forall j | 0 <= j < i :: procs[j] == S.Proc(0, S.Zombie, 0)
        invariant current == S.IDLE && runQueue == NULL && nextPid == 1 && tickCounter == 0 && Queue == []
      {
        procs[i] := S.Proc(0, S.Zombie, 0);
        next[i] := NULL;
      }
      procs[S.IDLE] := S.Proc(0, S.Ready, 0);
      assert procs[..] == S.Init().procs;
    }

    // -------------------------------------------------------------- the queue

    /** enqueue: walk to the tail and hang p behind it. */
    method Enqueue(p: nat)
      requires Linked() && p < S.MAX_PROCS && p !in Queue
      modifies this`runQueue, this`Queue, next
      ensures Linked() && Queue == old(Queue) + [p]
    {
      ThreadsAppend(next[..], Queue, runQueue, p);
      ghost var was := next[..];
      next[p] := NULL;
      if runQueue == NULL {
        runQueue := p;
        Queue := [p];
        return;
      }
      var t := runQueue;
      ghost var k := 0;
      assert LinkAt(was, Queue, 0);
      while next[t] != NULL
        invariant 0 <= k < |Queue| && t == Queue[k] < next.Length && next[..] == was[p := NULL]
        decreases |Queue| - k
      {
        assert LinkAt(was, Queue, k);
        t := next[t];
        k := k + 1;
        assert LinkAt(was, Queue, k);
      }
      assert LinkAt(was, Queue, k);
      next[t] := p;
      Queue := Queue + [p];
    }

    /** dequeue: the head of the queue, or NULL. */
    method Dequeue() returns (p: int)
      requires Linked()
      modifies this`runQueue, this`Queue, next
      ensures Linked()
      ensures p == if old(Queue) == [] then NULL else old(Queue)[0]
      ensures Queue == if old(Queue) == [] then [] else old(Queue)[1..]
    {
      if runQueue == NULL {
        return NULL;
      }
      ThreadsTail(next[..], Queue, runQueue);
      p := runQueue;
      runQueue := next[p];
      next[p] := NULL;
      Queue := Queue[1..];
    }

    method SetState(p: nat, st: S.State)
      requires p < procs.Length
      modifies procs
      ensures procs[..] == old(procs[..])[p := old(procs[p]).(state := st)]
    {
      procs[p] := procs[p].(state := st);
    }

    // -------------------------------------------------------------- schedule

    /** The wake loop of schedule(). */
    method WakeSleepers(now: nat)
      requires Valid()
      modifies this`runQueue, this`Queue, procs, next
      ensures Valid() && Sys() == S.Wake(old(Sys()), now, 0)
    {
      hide S.Linkable;
      ghost var goal := S.Wake(Sys(), now, 0);
      for i := 0 to S.MAX_PROCS
        invariant Valid() && S.Wake(Sys(), now, i) == goal
      {
        if procs[i].state == S.Sleeping && procs[i].pid != 0 && now >= procs[i].wakeTick {
          S.WakeOne(Sys(), i);
          NotQueued(i);
          SetState(i, S.Ready);
          Enqueue(i);
        }
      }
    }

    lemma NotQueued(i: nat)
      requires Valid() && i < S.MAX_PROCS && procs[i].state != S.Ready
      ensures i !in Queue
    {
    }

    /** schedule(); the context switch itself is setting `current`. */
    method Schedule(now: nat)
      requires Valid()
      modifies this`runQueue, this`Queue, this`current, procs, next
      ensures Valid() && Sys() == S.Schedule(old(Sys()), now)
    {
      WakeSleepers(now);
      SwitchTo();
    }

    /** The part of schedule() behind the wake loop. */
    method SwitchTo()
      requires Valid()
      modifies this`runQueue, this`Queue, this`current, procs, next
      ensures Valid() && Sys() == S.Switch(old(Sys()))
    {
      ghost var w := Sys();
      S.SwitchLinkable(w);
      var prev := current;
      var head := Dequeue();
      var chosen := if head == NULL then S.IDLE else head;
      if chosen == prev {
        return;
      }
      if procs[prev].state == S.Running {
        assert prev !in Queue;
        SetState(prev, S.Ready);
        Enqueue(prev);
      }
      SetState(chosen, S.Running);
      current := chosen;
      assert Sys() == S.Switch(w);
    }

    // -------------------------------------------------------------- the calls

    method Yield(now: nat)
      requires Valid()
      modifies this`runQueue, this`Queue, this`current, procs, next
      ensures Valid() && Sys() == S.Step(old(Sys()), S.Yields(now))
    {
      Schedule(now);
    }

    method Block(now: nat)
      requires Valid() && current !in Queue
      modifies this`runQueue, this`Queue, this`current, procs, next
      ensures Valid() && Sys() == S.Step(old(Sys()), S.Blocks(now))
    {
      SetState(current, S.Blocked);
      Schedule(now);
    }

    method Unblock(p: nat)
      requires Valid() && p < S.MAX_PROCS
      modifies this`runQueue, this`Queue, procs, next
      ensures Valid() && Sys() == S.Step(old(Sys()), S.Unblocks(p))
    {
      if procs[p].state == S.Blocked {
        NotQueued(p);
        SetState(p, S.Ready);
        Enqueue(p);
      }
    }

    method Sleep(now: nat, ms: nat)
      requires Valid() && current !in Queue
      modifies this`runQueue, this`Queue, this`current, procs, next
      ensures Valid() && Sys() == S.Step(old(Sys()), S.Sleeps(now, ms))
    {
      ghost var s := Sys();
      procs[current] := procs[current].(wakeTick := (now + ms / 10) % U32);
      procs[current] := procs[current].(state := S.Sleeping);
      SleepingCaller(s, S.WakeTick(now, ms));
      hide S.Schedule, S.Linkable;
      Schedule(now);
    }

    lemma SleepingCaller(s: S.Sys, wake: nat)
      requires S.Linkable(s) && s.current !in s.queue && procs.Length == S.MAX_PROCS
      requires procs[..] == s.procs[s.current := s.procs[s.current].(state := S.Sleeping, wakeTick := wake)]
      requires (Queue, current, nextPid, tickCounter) == (s.queue, s.current, s.nextPid, s.tickCounter)
      ensures S.Linkable(Sys())
      ensures Sys() == s.(procs := s.procs[s.current := s.procs[s.current].(state := S.Sleeping, wakeTick := wake)])
    {
    }

    /** proc_exit, up to the point from which it never returns. */
    method Exit(now: nat)
      requires Valid() && current !in Queue
      modifies this`runQueue, this`Queue, this`current, procs, next
      ensures Valid() && Sys() == S.Step(old(Sys()), S.Exits(now))
    {
      SetState(current, S.Zombie);
      Schedule(now);
    }

    method Tick(now: nat)
      requires Valid()
      modifies this`runQueue, this`Queue, this`current, this`tickCounter, procs, next
      ensures Valid() && Sys() == S.Step(old(Sys()), S.Ticks(now))
    {
      tickCounter := tickCounter + 1;
      if tickCounter >= 2 {
        tickCounter := 0;
        Schedule(now);
      }
    }

    /** alloc_proc: a slot that is ZOMBIE with PID 0, or NULL. */
    method AllocProc() returns (p: int)
      requires procs.Length == S.MAX_PROCS
      ensures p == if S.FreeSlot(procs[..], 0) == S.MAX_PROCS then NULL else S.FreeSlot(procs[..], 0)
    {
      for i := 0 to S.MAX_PROCS
        invariant S.FreeSlot(procs[..], 0) == S.FreeSlot(procs[..], i)
      {
        if procs[i].state == S.Zombie && procs[i].pid == 0 {
          return i;
        }
      }
      return NULL;
    }

    /** proc_create_kernel, as far as the table and the queue are concerned; NULL when the table is full. */
    method CreateKernel() returns (p: int)
      requires Valid()
      modifies this`runQueue, this`Queue, this`nextPid, procs, next
      ensures Valid() && Sys() == S.Step(old(Sys()), S.Creates)
      ensures p == if S.FreeSlot(old(procs[..]), 0) == S.MAX_PROCS then NULL else S.FreeSlot(old(procs[..]), 0)
    {
      p := AllocProc();
      if p == NULL {
        return;
      }
      NotQueued(p);
      ghost var s := Sys();
      procs[p] := procs[p].(pid := nextPid);
      nextPid := (nextPid + 1) % U32;
      procs[p] := procs[p].(state := S.Ready);
      hide Threads;
      Enqueue(p);
      assert Sys() == S.Create(s);
    }
  }
}
