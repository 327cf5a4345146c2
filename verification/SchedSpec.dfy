/** The O(1) scheduler on abstract queues: what each operation of the run queue computes, the invariant
    every operation keeps, and bounded waiting. */
module SchedSpec {
  import opened Lists

  const MAX_PRIO: nat := 140
  const DEFAULT_PRIO: int := 120
  const DEF_TIMESLICE: int := 10
  const MIN_TIMESLICE: nat := 1
  const MAX_TIMESLICE: nat := 100

  datatype State = Running | Interruptible | Uninterruptible | Zombie

  /** What a sleeping task waits for: WaitChild(t) is the address of t's wait_chldexit. */
  datatype Chan = NoChan | WaitChild(task: nat) | Other(id: nat)

  /** The fields of task_struct that the scheduler and the process code work on.  waiting records the pid
      argument of the do_wait call in which the task last went to sleep and has not yet resumed. */
  datatype Task = Task(
    state: State, prio: int, onRq: bool, slice: nat,
    chan: Chan, killed: bool, waiting: Option<int>,
    pid: int, pgrp: int, parent: nat, realParent: nat, exitCode: int)

  type Queues = seq<seq<nat>>

  datatype Sched = Sched(active: Queues, expired: Queues, curr: nat, idle: nat, tasks: map<nat, Task>)

  // ----- time slices

  function Clamp(prio: int): (k: nat)
    ensures k < MAX_PRIO
  {
    if prio < 0 then 0 else if prio >= MAX_PRIO then MAX_PRIO - 1 else prio
  }

  /** task_timeslice; a negative value turns into a huge unsigned one before it is clamped. */
  function Timeslice(prio: int): (t: nat)
    ensures MIN_TIMESLICE <= t <= MAX_TIMESLICE
  {
    if prio < 100 then MAX_TIMESLICE else
      var t := DEF_TIMESLICE - (prio - DEFAULT_PRIO);
      if t < 0 then MAX_TIMESLICE else if t < MIN_TIMESLICE then MIN_TIMESLICE
      else if t > MAX_TIMESLICE then MAX_TIMESLICE else t
  }

  /** A numerically smaller priority gets at least as long a slice exactly when the larger one is at most
      130, or the smaller one gets the maximum anyway. */
  lemma TimesliceMonotone(p: int, q: int)
    requires p <= q
    ensures Timeslice(p) >= Timeslice(q) <==> q <= 130 || p < 100 || p > 130
  {}

  // ----- state and invariant

  predicate InActive(s: Sched, p: nat)
    requires |s.active| == MAX_PRIO
  {
    p in s.tasks && p in s.active[Clamp(s.tasks[p].prio)]
  }

  predicate InExpired(s: Sched, p: nat)
    requires |s.expired| == MAX_PRIO
  {
    p in s.tasks && p in s.expired[Clamp(s.tasks[p].prio)]
  }

  /** Queue k holds, once each, tasks of priority k only. */
  ghost predicate Filed(q: Queues, tasks: map<nat, Task>) {
    && |q| == MAX_PRIO
    && (forall k | 0 <= k < MAX_PRIO :: NoDup(q[k]))
    && (forall k, p {:trigger p in q[k]} | 0 <= k < MAX_PRIO && p in q[k] :: p in tasks && Clamp(tasks[p].prio) == k)
  }

  /** A task is on a queue, and then on exactly one, exactly when its on_rq flag is set. */
  ghost predicate TaskOk(s: Sched, p: nat)
    requires p in s.tasks && |s.active| == MAX_PRIO == |s.expired|
  {
    && (s.tasks[p].onRq <==> InActive(s, p) || InExpired(s, p))
    && !(InActive(s, p) && InExpired(s, p))
    && (s.tasks[p].onRq ==> MIN_TIMESLICE <= s.tasks[p].slice <= MAX_TIMESLICE)
  }

  ghost predicate FlagsMatch(s: Sched)
    requires |s.active| == MAX_PRIO == |s.expired|
  {
    forall p {:trigger TaskOk(s, p)} | p in s.tasks :: TaskOk(s, p)
  }

  ghost predicate Queued(s: Sched) {
    && Filed(s.active, s.tasks) && Filed(s.expired, s.tasks) && FlagsMatch(s)
    && s.idle in s.tasks && !s.tasks[s.idle].onRq && s.tasks[s.idle].state == Running
    && s.curr in s.tasks
  }

  /** A task is queued exactly when it is runnable. */
  predicate SettledAt(s: Sched, p: nat)
    requires p in s.tasks
  {
    s.tasks[p].state == Running <==> s.tasks[p].onRq
  }

  /** So it is for every task but the idle task, and possibly one in transit. */
  ghost predicate Settled(s: Sched, transit: nat) {
    forall p {:trigger SettledAt(s, p)} | p in s.tasks && p != s.idle && p != transit :: SettledAt(s, p)
  }

  /** The invariant between two scheduling points: the current task is the idle task or on the active
      array. */
  ghost predicate Inv(s: Sched) {
    Queued(s) && Settled(s, s.idle) && (s.curr == s.idle || InActive(s, s.curr))
  }

  /** What schedule() may be called in: the current task may have given up the processor. */
  ghost predicate CanSchedule(s: Sched) {
    && Queued(s) && Settled(s, s.curr)
    && (s.curr == s.idle || s.tasks[s.curr].onRq)
    && (s.tasks[s.curr].state != Running ==> InActive(s, s.curr))
  }

  // ----- operations

  function PutTask(s: Sched, p: nat, t: Task): Sched { s.(tasks := s.tasks[p := t]) }

  /** enqueue_task */
  function Enqueue(s: Sched, p: nat): Sched
    requires p in s.tasks && |s.active| == MAX_PRIO
  {
    var k := Clamp(s.tasks[p].prio);
    PutTask(s, p, s.tasks[p].(onRq := true)).(active := s.active[k := s.active[k] + [p]])
  }

  /** dequeue_task for a task on the active array. */
  function Dequeue(s: Sched, p: nat): Sched
    requires |s.active| == MAX_PRIO && InActive(s, p)
  {
    var k := Clamp(s.tasks[p].prio);
    PutTask(s, p, s.tasks[p].(onRq := false)).(active := s.active[k := Without(s.active[k], p)])
  }

  predicate AllEmpty(q: Queues) { forall k | 0 <= k < |q| :: q[k] == [] }

  /** The task pick_next_task chooses from the active array: the front of the first non-empty queue. */
  function Front(s: Sched): nat {
    match FirstFit(s.active, 0)
    case None => s.idle
    case Some(k) => s.active[k][0]
  }

  /** pick_next_task swaps the arrays when the active one is empty. */
  function Refill(s: Sched): Sched {
    if AllEmpty(s.active) then s.(active := s.expired, expired := s.active) else s
  }

  function Switch(s: Sched): Sched { Refill(s).(curr := Front(Refill(s))) }

  function Schedule(s: Sched): Sched
    requires s.curr in s.tasks && |s.active| == MAX_PRIO
    requires s.tasks[s.curr].state != Running && s.tasks[s.curr].onRq ==> InActive(s, s.curr)
  {
    if s.tasks[s.curr].state != Running && s.tasks[s.curr].onRq then Switch(Dequeue(s, s.curr)) else Switch(s)
  }

  /** Append to the expired array. */
  function Expire(s: Sched, p: nat): Sched
    requires p in s.tasks && |s.expired| == MAX_PRIO
  {
    var k := Clamp(s.tasks[p].prio);
    PutTask(s, p, s.tasks[p].(onRq := true)).(expired := s.expired[k := s.expired[k] + [p]])
  }

  /** The current task's slice runs out with this tick. */
  predicate LastTick(s: Sched)
    requires s.curr in s.tasks
  {
    s.curr != s.idle && s.tasks[s.curr].slice <= 1
  }

  /** scheduler_tick */
  function Tick(s: Sched): Sched
    requires s.curr in s.tasks && |s.active| == MAX_PRIO == |s.expired|
    requires s.tasks[s.curr].onRq ==> InActive(s, s.curr)
  {
    var t := s.tasks[s.curr];
    if s.curr == s.idle then s
    else if !LastTick(s) then PutTask(s, s.curr, t.(slice := t.slice - 1))
    else
      var s1 := PutTask(s, s.curr, t.(slice := Timeslice(t.prio)));
      if t.onRq then Expire(Dequeue(s1, s.curr), s.curr) else s1
  }

  /** A tick, followed by schedule() when it has set the need-resched flag. */
  function TickStep(s: Sched): Sched
    requires Inv(s)
  {
    if LastTick(s) then Switch(Tick(s)) else Tick(s)
  }

  function Yield(s: Sched): Sched
    requires Inv(s)
  {
    if s.curr == s.idle then Switch(s) else Switch(Enqueue(Dequeue(s, s.curr), s.curr))
  }

  /** wake_up_process */
  function WakeUp(s: Sched, p: nat): Sched
    requires p in s.tasks && |s.active| == MAX_PRIO
  {
    if s.tasks[p].state == Running then s
    else
      var s1 := PutTask(s, p, s.tasks[p].(state := Running));
      if s.tasks[p].onRq then s1 else Enqueue(s1, p)
  }

  /** wake_up_new_task for a task that has just been created. */
  function WakeUpNew(s: Sched, p: nat, t: Task): Sched
    requires |s.active| == MAX_PRIO
  {
    Enqueue(PutTask(s, p, t.(state := Running, slice := Timeslice(t.prio))), p)
  }

  // ----- every operation keeps the invariant

  lemma EnqueueQueued(s: Sched, p: nat)
    requires Queued(s) && p in s.tasks && p != s.idle && !s.tasks[p].onRq
    requires MIN_TIMESLICE <= s.tasks[p].slice <= MAX_TIMESLICE
    ensures Queued(Enqueue(s, p)) && InActive(Enqueue(s, p), p)
  {
    var s' := Enqueue(s, p);
    assert TaskOk(s, p);
    forall q | q in s'.tasks ensures TaskOk(s', q) { assert TaskOk(s, q); }
  }

  lemma DequeueQueued(s: Sched, p: nat)
    requires Queued(s) && InActive(s, p)
    ensures Queued(Dequeue(s, p)) && !InActive(Dequeue(s, p), p) && !InExpired(Dequeue(s, p), p)
  {
    var s' := Dequeue(s, p);
    WithoutProps(s.active[Clamp(s.tasks[p].prio)], p);
    assert TaskOk(s, p);
    forall q | q in s'.tasks ensures TaskOk(s', q) { assert TaskOk(s, q); }
  }

  lemma ExpireQueued(s: Sched, p: nat)
    requires Queued(s) && p in s.tasks && p != s.idle && !s.tasks[p].onRq
    requires MIN_TIMESLICE <= s.tasks[p].slice <= MAX_TIMESLICE
    ensures Queued(Expire(s, p)) && InExpired(Expire(s, p), p)
  {
    var s' := Expire(s, p);
    assert TaskOk(s, p);
    forall q | q in s'.tasks ensures TaskOk(s', q) { assert TaskOk(s, q); }
  }

  /** Changing only a task's state or slice moves nothing. */
  lemma RetouchQueued(s: Sched, p: nat, t: Task)
    requires Queued(s) && p in s.tasks && t == s.tasks[p].(slice := t.slice, state := t.state, chan := t.chan,
                                                          killed := t.killed, waiting := t.waiting,
                                                          parent := t.parent, exitCode := t.exitCode)
    requires t.onRq ==> MIN_TIMESLICE <= t.slice <= MAX_TIMESLICE
    requires p == s.idle ==> t.state == Running
    ensures Queued(PutTask(s, p, t))
    ensures forall q :: InActive(PutTask(s, p, t), q) <==> InActive(s, q)
    ensures forall q :: InExpired(PutTask(s, p, t), q) <==> InExpired(s, q)
  {
    var s' := PutTask(s, p, t);
    forall q | q in s'.tasks ensures TaskOk(s', q) { assert TaskOk(s, q); }
  }

  /** Both states agree on who is runnable and who is flagged as queued, leaving out t and t'. */
  ghost predicate SameFlags(s: Sched, s': Sched, t: nat, t': nat) {
    s'.idle == s.idle && forall p {:trigger s'.tasks[p]} | p in s'.tasks && p != s.idle && p != t' ::
      p in s.tasks && p != t && s'.tasks[p].state == s.tasks[p].state && s'.tasks[p].onRq == s.tasks[p].onRq
  }

  lemma SettledSame(s: Sched, s': Sched, t: nat, t': nat)
    requires Settled(s, t) && SameFlags(s, s', t, t')
    ensures Settled(s', t')
  {
    forall p | p in s'.tasks && p != s.idle && p != t' ensures SettledAt(s', p) { assert SettledAt(s, p); }
  }

  lemma SettleOne(s: Sched, t: nat)
    requires Settled(s, t) && t in s.tasks && (t == s.idle || SettledAt(s, t))
    ensures Settled(s, s.idle)
  {}

  lemma RefillQueued(s: Sched)
    requires Queued(s)
    ensures Queued(Refill(s))
  {
    forall q | q in s.tasks ensures TaskOk(Refill(s), q) { assert TaskOk(s, q); }
  }

  lemma SwitchInv(s: Sched)
    requires Queued(s) && Settled(s, s.idle)
    ensures Inv(Switch(s)) && Switch(s).idle == s.idle
  {
    var s1, s2 := Refill(s), Switch(s);
    RefillQueued(s);
    if FirstFit(s1.active, 0).Some? {
      var k := FirstFit(s1.active, 0).value;
      assert s1.active[k][0] in s1.active[k];
    }
    forall q | q in s2.tasks ensures TaskOk(s2, q) { assert TaskOk(s1, q); }
    SettledSame(s, s2, s.idle, s.idle);
  }

  lemma ScheduleInv(s: Sched)
    requires CanSchedule(s)
    ensures Inv(Schedule(s)) && Schedule(s).idle == s.idle
  {
    if s.tasks[s.curr].state != Running && s.tasks[s.curr].onRq {
      var s1 := Dequeue(s, s.curr);
      DequeueQueued(s, s.curr);
      SettledSame(s, s1, s.curr, s.curr);
      SettleOne(s1, s.curr);
      SwitchInv(s1);
    } else {
      SettleOne(s, s.curr);
      SwitchInv(s);
    }
  }

  /** scheduler_tick moves an expiring task to the expired array. */
  lemma LastTickQueued(s: Sched)
    requires Inv(s) && LastTick(s)
    ensures Queued(Tick(s)) && InExpired(Tick(s), s.curr)
  {
    var t := s.tasks[s.curr];
    var s1 := PutTask(s, s.curr, t.(slice := Timeslice(t.prio)));
    assert TaskOk(s, s.curr);
    RetouchQueued(s, s.curr, t.(slice := Timeslice(t.prio)));
    DequeueQueued(s1, s.curr);
    ExpireQueued(Dequeue(s1, s.curr), s.curr);
  }

  lemma TickQueued(s: Sched)
    requires Inv(s)
    ensures Queued(Tick(s)) && Settled(Tick(s), s.idle) && Tick(s).curr == s.curr && Tick(s).idle == s.idle
    ensures !LastTick(s) ==> Inv(Tick(s))
  {
    if s.curr != s.idle {
      var t := s.tasks[s.curr];
      assert TaskOk(s, s.curr);
      if LastTick(s) {
        LastTickQueued(s);
      } else {
        RetouchQueued(s, s.curr, t.(slice := t.slice - 1));
      }
      SettledSame(s, Tick(s), s.idle, s.idle);
    }
  }

  lemma TickStepInv(s: Sched)
    requires Inv(s)
    ensures Inv(TickStep(s)) && TickStep(s).idle == s.idle
  {
    TickQueued(s);
    if LastTick(s) { SwitchInv(Tick(s)); }
  }

  lemma YieldInv(s: Sched)
    requires Inv(s)
    ensures Inv(Yield(s)) && Yield(s).idle == s.idle
  {
    if s.curr == s.idle {
      SwitchInv(s);
    } else {
      var s1 := Dequeue(s, s.curr);
      var s2 := Enqueue(s1, s.curr);
      assert TaskOk(s, s.curr);
      DequeueQueued(s, s.curr);
      EnqueueQueued(s1, s.curr);
      SettledSame(s, s2, s.idle, s.idle);
      SwitchInv(s2);
    }
  }

  /** Waking a task other than the current one makes it runnable and queued; nobody else moves. */
  lemma WakeUpInv(s: Sched, p: nat)
    requires Queued(s) && Settled(s, s.curr) && p in s.tasks && p != s.idle && p != s.curr
    requires MIN_TIMESLICE <= s.tasks[p].slice <= MAX_TIMESLICE
    ensures Queued(WakeUp(s, p)) && Settled(WakeUp(s, p), s.curr)
    ensures WakeUp(s, p).tasks == s.tasks[p := s.tasks[p].(state := Running, onRq := true)]
    ensures forall q | q != p :: InActive(WakeUp(s, p), q) <==> InActive(s, q)
  {
    assert SettledAt(s, p);
    if s.tasks[p].state != Running {
      var s1 := PutTask(s, p, s.tasks[p].(state := Running));
      RetouchQueued(s, p, s.tasks[p].(state := Running));
      EnqueueQueued(s1, p);
      forall q | q in s1.tasks && q != s.idle && q != s.curr ensures SettledAt(WakeUp(s, p), q) {
        if q != p { assert SettledAt(s, q); }
      }
    }
  }

  lemma WakeUpNewInv(s: Sched, p: nat, t: Task)
    requires Inv(s) && p !in s.tasks && !t.onRq
    ensures Inv(WakeUpNew(s, p, t)) && InActive(WakeUpNew(s, p, t), p)
  {
    var s1 := PutTask(s, p, t.(state := Running, slice := Timeslice(t.prio)));
    var s2 := WakeUpNew(s, p, t);
    assert Queued(s1) by {
      forall q | q in s1.tasks ensures TaskOk(s1, q) {
        if q != p { assert TaskOk(s, q); }
      }
    }
    EnqueueQueued(s1, p);
    forall q | q in s2.tasks && q != s.idle ensures SettledAt(s2, q) {
      if q != p { assert SettledAt(s, q); }
    }
  }

  // ----- selection

  /** pick_next_task is a linear scan for the most urgent task: it returns the idle task only when nothing
      is queued at all; otherwise the task is first in its queue, no active task is more urgent, and
      expired tasks are considered only when no active one is left. */
  lemma PickTheorem(s: Sched)
    requires Queued(s)
    ensures var r, p := Refill(s), Front(Refill(s));
            && (p == s.idle <==> forall q | q in s.tasks :: !s.tasks[q].onRq)
            && (p != s.idle ==>
                  && InActive(r, p) && r.active[Clamp(r.tasks[p].prio)][0] == p
                  && forall q | InActive(r, q) :: Clamp(r.tasks[p].prio) <= Clamp(r.tasks[q].prio))
    ensures (exists q :: InActive(s, q)) ==> Refill(s) == s
  {
    var r := Refill(s);
    match FirstFit(r.active, 0)
    case None =>
      forall q | q in s.tasks ensures !s.tasks[q].onRq {
        assert TaskOk(s, q);
      }
    case Some(k) =>
      var p := r.active[k][0];
      assert p in r.active[k];
      assert TaskOk(s, p);
  }

  // ----- bounded waiting

  ghost function ActiveSet(s: Sched): set<nat>
    requires |s.active| == MAX_PRIO
  {
    set p | p in s.tasks && InActive(s, p)
  }

  ghost function RunSet(s: Sched): set<nat> { set p | p in s.tasks && s.tasks[p].onRq }

  ghost function SliceSum(tasks: map<nat, Task>, a: set<nat>): nat
    requires a <= tasks.Keys
  {
    if a == {} then 0 else
      var p :| p in a;
      tasks[p].slice + SliceSum(tasks, a - {p})
  }

  lemma {:induction false} SliceSumRemove(tasks: map<nat, Task>, a: set<nat>, x: nat)
    requires a <= tasks.Keys && x in a
    ensures SliceSum(tasks, a) == tasks[x].slice + SliceSum(tasks, a - {x})
    decreases a
  {
    var p :| p in a && SliceSum(tasks, a) == tasks[p].slice + SliceSum(tasks, a - {p});
    if p != x {
      SliceSumRemove(tasks, a - {p}, x);
      SliceSumRemove(tasks, a - {x}, p);
      assert a - {p} - {x} == a - {x} - {p};
    }
  }

  lemma {:induction false} SliceSumSame(tasks: map<nat, Task>, tasks': map<nat, Task>, a: set<nat>)
    requires a <= tasks.Keys && a <= tasks'.Keys && forall p | p in a :: tasks[p].slice == tasks'[p].slice
    ensures SliceSum(tasks, a) == SliceSum(tasks', a)
    decreases a
  {
    if a != {} {
      var p :| p in a;
      SliceSumRemove(tasks, a, p);
      SliceSumRemove(tasks', a, p);
      SliceSumSame(tasks, tasks', a - {p});
    }
  }

  lemma {:induction false} SliceSumBound(tasks: map<nat, Task>, a: set<nat>)
    requires a <= tasks.Keys && forall p | p in a :: tasks[p].slice <= MAX_TIMESLICE
    ensures SliceSum(tasks, a) <= MAX_TIMESLICE * |a|
    decreases a
  {
    if a != {} {
      var p :| p in a;
      SliceSumRemove(tasks, a, p);
      SliceSumBound(tasks, a - {p});
      assert |a| == |a - {p}| + 1;
    }
  }

  /** Ticks left before the active array is used up. */
  ghost function Epoch(s: Sched): nat
    requires |s.active| == MAX_PRIO
  {
    SliceSum(s.tasks, ActiveSet(s))
  }

  /** p becomes current within n ticks. */
  ghost predicate RunsWithin(s: Sched, p: nat, n: nat)
    requires Inv(s)
    decreases n
  {
    s.curr == p || (n > 0 && Inv(TickStep(s)) && RunsWithin(TickStep(s), p, n - 1))
  }

  /** A tick leaves every other task, and its place, alone. */
  lemma TickKeeps(s: Sched, p: nat)
    requires Inv(s) && p != s.curr
    ensures |Tick(s).active| == MAX_PRIO == |Tick(s).expired|
    ensures InActive(Tick(s), p) <==> InActive(s, p)
    ensures InExpired(Tick(s), p) <==> InExpired(s, p)
    ensures p in Tick(s).tasks <==> p in s.tasks
    ensures p in s.tasks ==> Tick(s).tasks[p] == s.tasks[p]
  {
    if LastTick(s) {
      assert TaskOk(s, s.curr);
      WithoutProps(s.active[Clamp(s.tasks[s.curr].prio)], s.curr);
    }
  }

  lemma TickActiveSet(s: Sched)
    requires Inv(s) && s.curr != s.idle
    ensures Queued(Tick(s)) && RunSet(Tick(s)) == RunSet(s)
    ensures ActiveSet(Tick(s)) == if LastTick(s) then ActiveSet(s) - {s.curr} else ActiveSet(s)
  {
    var s' := Tick(s);
    TickQueued(s);
    assert TaskOk(s, s.curr) && TaskOk(s', s.curr);
    if LastTick(s) { LastTickQueued(s); }
    forall p: nat | p != s.curr
      ensures (p in ActiveSet(s') <==> p in ActiveSet(s)) && (p in RunSet(s') <==> p in RunSet(s))
    {
      TickKeeps(s, p);
    }
  }

  /** A tick uses up one unit of the epoch. */
  lemma TickSpendsOne(s: Sched)
    requires Inv(s) && s.curr != s.idle
    ensures Queued(Tick(s)) && RunSet(Tick(s)) == RunSet(s)
    ensures Epoch(s) > 0 && Epoch(Tick(s)) == Epoch(s) - 1
  {
    var c, s' := s.curr, Tick(s);
    assert TaskOk(s, c);
    TickActiveSet(s);
    SliceSumRemove(s.tasks, ActiveSet(s), c);
    forall p | p in ActiveSet(s) - {c} ensures p in s'.tasks && s'.tasks[p].slice == s.tasks[p].slice {
      TickKeeps(s, p);
    }
    SliceSumSame(s.tasks, s'.tasks, ActiveSet(s) - {c});
    if !LastTick(s) { SliceSumRemove(s'.tasks, ActiveSet(s'), c); }
  }

  /** Switching tasks swaps the arrays only when no active task is left. */
  lemma SwitchPlaces(u: Sched, p: nat)
    requires Queued(u) && p in u.tasks && u.tasks[p].onRq
    ensures var v := Switch(u);
            && |v.active| == MAX_PRIO == |v.expired| && v.curr != v.idle && RunSet(v) == RunSet(u)
            && (InActive(u, p) ==> InActive(v, p) && Epoch(v) == Epoch(u))
            && (InExpired(u, p) ==> InActive(v, p) || (InExpired(v, p) && Epoch(v) == Epoch(u)))
  {
    assert TaskOk(u, p);
    PickTheorem(u);
    if !AllEmpty(u.active) { assert ActiveSet(Switch(u)) == ActiveSet(u); }
  }

  /** While some other task is left on the active array, a step only spends one unit of the epoch. */
  lemma StepSpendsOne(s: Sched, p: nat)
    requires Inv(s) && s.curr != s.idle && InActive(s, p) && p != s.curr
    ensures var s' := TickStep(s);
            Inv(s') && InActive(s', p) && s'.curr != s'.idle && Epoch(s') == Epoch(s) - 1
  {
    TickStepInv(s);
    TickSpendsOne(s);
    TickKeeps(s, p);
    if LastTick(s) {
      assert TaskOk(s, p);
      SwitchPlaces(Tick(s), p);
    }
  }

  lemma {:induction false} WaitActive(s: Sched, p: nat, n: nat)
    requires Inv(s) && s.curr != s.idle && InActive(s, p) && Epoch(s) <= n
    ensures RunsWithin(s, p, n)
    decreases n
  {
    if s.curr != p {
      StepSpendsOne(s, p);
      WaitActive(TickStep(s), p, n - 1);
    }
  }

  lemma EpochBound(s: Sched)
    requires Inv(s)
    ensures Epoch(s) <= MAX_TIMESLICE * |RunSet(s)|
  {
    forall p | p in ActiveSet(s) ensures s.tasks[p].slice <= MAX_TIMESLICE && p in RunSet(s) {
      assert TaskOk(s, p);
    }
    SliceSumBound(s.tasks, ActiveSet(s));
    SubsetSize(ActiveSet(s), RunSet(s));
  }

  /** An expired task is either still expired after a step, or the arrays have been swapped and it is
      active. */
  lemma StepExpired(s: Sched, p: nat)
    requires Inv(s) && s.curr != s.idle && InExpired(s, p)
    ensures var s' := TickStep(s);
            && Inv(s') && s'.curr != s'.idle && RunSet(s') == RunSet(s)
            && (InActive(s', p) || (InExpired(s', p) && Epoch(s') == Epoch(s) - 1))
  {
    assert TaskOk(s, p) && TaskOk(s, s.curr);
    TickStepInv(s);
    TickSpendsOne(s);
    TickKeeps(s, p);
    if LastTick(s) { SwitchPlaces(Tick(s), p); }
  }

  lemma {:induction false} WaitExpired(s: Sched, p: nat, n: nat)
    requires Inv(s) && s.curr != s.idle && InExpired(s, p)
    requires Epoch(s) + MAX_TIMESLICE * |RunSet(s)| <= n
    ensures RunsWithin(s, p, n)
    decreases n
  {
    var s' := TickStep(s);
    StepExpired(s, p);
    TickSpendsOne(s);
    if InActive(s', p) {
      EpochBound(s');
      WaitActive(s', p, n - 1);
    } else {
      WaitExpired(s', p, n - 1);
    }
  }

  /** Bounded waiting: with no arrivals, every queued task becomes current within 200 ticks per queued
      task, whatever its priority. */
  lemma BoundedWaiting(s: Sched, p: nat)
    requires Inv(s) && s.curr != s.idle && p in s.tasks && s.tasks[p].onRq
    ensures RunsWithin(s, p, 200 * |RunSet(s)|)
  {
    EpochBound(s);
    assert TaskOk(s, p);
    if InActive(s, p) {
      WaitActive(s, p, 200 * |RunSet(s)|);
    } else {
      WaitExpired(s, p, 200 * |RunSet(s)|);
    }
  }
}
