/** The run queue as the kernel keeps it: two priority arrays with bitmaps and counters, updated in
    place.  Every method computes the abstract operation of SchedSpec and keeps the indexes exact. */
module RunQueue {
  import opened Lists
  import opened Bitmap
  import opened SchedSpec

  const BITMAP_SIZE: nat := 3

  datatype PrioArray = PrioArray(nrActive: nat, bitmap: Words, queue: Queues)

  // ----- counting

  function Total(q: Queues): nat {
    if q == [] then 0 else Total(q[..|q| - 1]) + |q[|q| - 1]|
  }

  lemma {:induction false} TotalUpdate(q: Queues, k: nat, l: seq<nat>)
    requires k < |q|
    ensures Total(q[k := l]) == Total(q) + |l| - |q[k]|
  {
    var n := |q| - 1;
    if k == n {
      assert q[k := l][..n] == q[..n];
    } else {
      assert q[k := l][..n] == q[..n][k := l];
      TotalUpdate(q[..n], k, l);
    }
  }

  lemma {:induction false} TotalZero(q: Queues)
    ensures Total(q) == 0 <==> AllEmpty(q)
  {
    if q != [] {
      var n := |q| - 1;
      TotalZero(q[..n]);
      assert AllEmpty(q) <==> AllEmpty(q[..n]) && q[n] == [];
    }
  }

  ghost function Members(q: Queues): set<nat> { set k, p | 0 <= k < |q| && p in q[k] :: p }

  /** The counters count tasks: no task is counted twice. */
  lemma {:induction false} TotalIsSize(q: Queues, tasks: map<nat, Task>)
    requires forall k | 0 <= k < |q| :: NoDup(q[k])
    requires forall k, p {:trigger p in q[k]} | 0 <= k < |q| && p in q[k] :: p in tasks && Clamp(tasks[p].prio) == k
    ensures Total(q) == |Members(q)|
  {
    if q == [] {
      assert Members(q) == {};
    } else {
      var n := |q| - 1;
      TotalIsSize(q[..n], tasks);
      ElemsSize(q[n]);
      LastQueue(q, tasks);
    }
  }

  lemma LastQueue(q: Queues, tasks: map<nat, Task>)
    requires q != []
    requires forall k, p {:trigger p in q[k]} | 0 <= k < |q| && p in q[k] :: p in tasks && Clamp(tasks[p].prio) == k
    ensures |Members(q)| == |Members(q[..|q| - 1])| + |Elems(q[|q| - 1])|
  {
    var n := |q| - 1;
    var a, b := Members(q[..n]), Elems(q[n]);
    forall p | p in b ensures p !in a { assert p in q[n]; }
    assert Members(q) == a + b;
  }

  ghost function FiledIn(q: Queues, tasks: map<nat, Task>): set<nat>
    requires |q| == MAX_PRIO
  {
    set p | p in tasks && p in q[Clamp(tasks[p].prio)]
  }

  lemma MembersFiled(q: Queues, tasks: map<nat, Task>)
    requires Filed(q, tasks)
    ensures Total(q) == |FiledIn(q, tasks)|
  {
    TotalIsSize(q, tasks);
    assert Members(q) == FiledIn(q, tasks);
  }

  /** nr_running is the number of queued tasks. */
  lemma RunningIsRunSet(s: Sched)
    requires Queued(s)
    ensures Total(s.active) + Total(s.expired) == |RunSet(s)|
  {
    MembersFiled(s.active, s.tasks);
    MembersFiled(s.expired, s.tasks);
    var a, e := FiledIn(s.active, s.tasks), FiledIn(s.expired, s.tasks);
    forall p | p in s.tasks ensures (p in RunSet(s) <==> p in a + e) && !(p in a && p in e) {
      assert TaskOk(s, p);
    }
    assert RunSet(s) == a + e;
    assert a !! e;
  }

  // ----- the indexes

  ghost predicate BitOk(a: PrioArray, k: nat)
    requires |a.queue| == MAX_PRIO && |a.bitmap| == BITMAP_SIZE && k < WORD * BITMAP_SIZE
  {
    TestBit(a.bitmap, k) <==> k < MAX_PRIO && a.queue[k] != []
  }

  /** Bit k of the bitmap is set exactly when queue k is not empty, and nr_active is the total length. */
  ghost predicate IndexOk(a: PrioArray) {
    && |a.queue| == MAX_PRIO && |a.bitmap| == BITMAP_SIZE && WordsOk(a.bitmap)
    && a.nrActive == Total(a.queue)
    && forall k {:trigger BitOk(a, k)} | 0 <= k < WORD * BITMAP_SIZE :: BitOk(a, k)
  }

  function Append(a: PrioArray, k: nat, p: nat): PrioArray
    requires |a.queue| == MAX_PRIO && |a.bitmap| == BITMAP_SIZE && k < MAX_PRIO
  {
    PrioArray(a.nrActive + 1, SetBit(a.bitmap, k), a.queue[k := a.queue[k] + [p]])
  }

  lemma AppendIndexOk(a: PrioArray, k: nat, p: nat)
    requires IndexOk(a) && k < MAX_PRIO
    ensures IndexOk(Append(a, k, p))
  {
    BitsFit(a.bitmap, k);
    TotalUpdate(a.queue, k, a.queue[k] + [p]);
    forall j | 0 <= j < WORD * BITMAP_SIZE ensures BitOk(Append(a, k, p), j) {
      SetBitAt(a.bitmap, k, j);
      assert BitOk(a, j);
    }
  }

  /** list_del: the task disappears from the queue it is on. */
  function UnlinkFrom(q: Queues, p: nat): Queues {
    seq(|q|, k requires 0 <= k < |q| => if p in q[k] then Without(q[k], p) else q[k])
  }

  lemma UnlinkOne(q: Queues, tasks: map<nat, Task>, p: nat, k: nat)
    requires Filed(q, tasks) && k < MAX_PRIO && p in q[k]
    ensures UnlinkFrom(q, p) == q[k := Without(q[k], p)]
    ensures Total(UnlinkFrom(q, p)) == Total(q) - 1
  {
    forall j | 0 <= j < MAX_PRIO && j != k ensures p !in q[j] { assert Clamp(tasks[p].prio) == k; }
    assert UnlinkFrom(q, p) == q[k := Without(q[k], p)];
    TotalUpdate(q, k, Without(q[k], p));
  }

  lemma UnlinkNone(q: Queues, p: nat)
    requires forall k | 0 <= k < |q| :: p !in q[k]
    ensures UnlinkFrom(q, p) == q
  {}

  /** The index updates dequeue_task makes on the active array, after the task has been unlinked. */
  function Drop(a: PrioArray, queue: Queues, k: nat): PrioArray
    requires |queue| == MAX_PRIO && |a.bitmap| == BITMAP_SIZE && k < MAX_PRIO
  {
    PrioArray(if a.nrActive > 0 then a.nrActive - 1 else 0,
              if queue[k] == [] then ClearBit(a.bitmap, k) else a.bitmap, queue)
  }

  lemma DropIndexOk(a: PrioArray, tasks: map<nat, Task>, p: nat, k: nat)
    requires IndexOk(a) && Filed(a.queue, tasks) && k < MAX_PRIO && p in a.queue[k]
    ensures IndexOk(Drop(a, UnlinkFrom(a.queue, p), k))
  {
    var q := UnlinkFrom(a.queue, p);
    UnlinkOne(a.queue, tasks, p, k);
    BitsFit(a.bitmap, k);
    forall j | 0 <= j < WORD * BITMAP_SIZE ensures BitOk(Drop(a, q, k), j) {
      ClearBitAt(a.bitmap, k, j);
      assert BitOk(a, j);
    }
  }

  /** The bitmap search finds the queue that a linear scan would find. */
  lemma FirstBitIsFirstFit(a: PrioArray, idx: nat)
    requires IndexOk(a) && idx <= MAX_PRIO
    requires idx < MAX_PRIO ==> TestBit(a.bitmap, idx)
    requires forall c | 0 <= c < idx :: !TestBit(a.bitmap, c)
    ensures FirstFit(a.queue, 0) == if idx < MAX_PRIO then Some(idx) else None
  {
    forall c | 0 <= c < idx ensures a.queue[c] == [] { assert BitOk(a, c); }
    if idx < MAX_PRIO { assert BitOk(a, idx); }
  }

  class Rq {
    var nrRunning: nat
    var nrSwitches: nat
    var clock: nat
    var curr: nat
    const idle: nat
    var active: PrioArray
    var expired: PrioArray
    var tasks: map<nat, Task>

    ghost function View(): Sched
      reads this
    {
      Sched(active.queue, expired.queue, curr, idle, tasks)
    }

    ghost predicate Valid()
      reads this
    {
      && IndexOk(active) && IndexOk(expired)
      && nrRunning == Total(active.queue) + Total(expired.queue)
    }

    /** sched_init, with the idle task as the only task. */
    constructor (idleTask: nat, task: Task)
      ensures Valid() && idle == curr == idleTask && tasks == map[idleTask := task]
      ensures nrRunning == nrSwitches == clock == 0 && AllEmpty(active.queue) && AllEmpty(expired.queue)
      ensures !task.onRq && task.state == Running ==> Inv(View())
    {
      var empty := PrioArray(0, [0, 0, 0], seq(MAX_PRIO, _ => []));
      nrRunning, nrSwitches, clock := 0, 0, 0;
      active, expired := empty, empty;
      idle, curr, tasks := idleTask, idleTask, map[idleTask := task];
      new;
      EmptyIndexOk(empty);
      assert TaskOk(View(), idleTask) <== !task.onRq;
    }

    method EnqueueTask(p: nat)
      requires Valid() && p in tasks
      modifies this`active, this`nrRunning, this`tasks
      ensures Valid() && View() == Enqueue(old(View()), p)
    {
      var prio := Clamp(tasks[p].prio);
      AppendIndexOk(active, prio, p);
      TotalUpdate(active.queue, prio, active.queue[prio] + [p]);
      active := active.(queue := active.queue[prio := active.queue[prio] + [p]]);
      active := active.(bitmap := SetBit(active.bitmap, prio));
      active := active.(nrActive := active.nrActive + 1);
      nrRunning := nrRunning + 1;
      tasks := tasks[p := tasks[p].(onRq := true)];
    }

    /** dequeue_task unlinks the task from whichever array it is on but adjusts only the active array's
        indexes: the indexes stay exact if and only if the task was on the active array. */
    method DequeueTask(p: nat)
      requires Valid() && Queued(View()) && p in tasks
      modifies this`active, this`expired, this`nrRunning, this`tasks
      ensures !old(tasks[p].onRq) ==> Valid() && View() == old(View())
      ensures old(InActive(View(), p)) ==> View() == Dequeue(old(View()), p)
      ensures old(InActive(View(), p)) ==> Valid()
      ensures old(tasks[p].onRq) && !old(InActive(View(), p)) ==> !Valid()
    {
      assert TaskOk(View(), p);
      if !tasks[p].onRq { return; }
      var prio := Clamp(tasks[p].prio);
      DequeueExact(active, expired, curr, idle, tasks, p);
      active := Drop(active, UnlinkFrom(active.queue, p), prio);
      expired := expired.(queue := UnlinkFrom(expired.queue, p));
      if nrRunning > 0 { nrRunning := nrRunning - 1; }
      tasks := tasks[p := tasks[p].(onRq := false)];
    }

    /** pick_next_task: swaps the arrays if the active one is empty and returns the task that a linear scan
        of the queues would choose. */
    method PickNextTask() returns (next: nat)
      requires Valid()
      modifies this`active, this`expired
      ensures Valid() && View() == Refill(old(View())) && next == Front(View())
    {
      TotalZero(active.queue);
      if active.nrActive == 0 {
        active, expired := expired, active;
        TotalZero(active.queue);
      }
      if active.nrActive == 0 {
        NoneFit(active.queue);
        return idle;
      }
      var idx := FindFirstBit(active.bitmap, MAX_PRIO);
      FirstBitIsFirstFit(active, idx);
      if idx >= MAX_PRIO { return idle; }
      if active.queue[idx] == [] { return idle; }
      return active.queue[idx][0];
    }

    /** scheduler_tick */
    method SchedulerTick() returns (needResched: bool)
      requires Valid() && Inv(View())
      modifies this
      ensures Valid() && View() == Tick(old(View())) && nrSwitches == old(nrSwitches)
      ensures needResched <==> old(LastTick(View()))
    {
      clock := clock + 1;
      needResched := false;
      if curr != idle {
        assert TaskOk(View(), curr);
        ghost var t := tasks[curr];
        if tasks[curr].slice > 0 {
          tasks := tasks[curr := tasks[curr].(slice := tasks[curr].slice - 1)];
        }
        if tasks[curr].slice == 0 {
          tasks := tasks[curr := tasks[curr].(slice := Timeslice(tasks[curr].prio))];
          assert tasks == old(tasks)[curr := t.(slice := Timeslice(t.prio))];
          RetouchQueued(old(View()), curr, t.(slice := Timeslice(t.prio)));
          if tasks[curr].onRq { MoveToExpired(); }
          needResched := true;
        } else {
          assert tasks == old(tasks)[curr := t.(slice := t.slice - 1)];
        }
      }
    }

    /** The current task, queued on the active array, goes to the end of its expired queue. */
    method MoveToExpired()
      requires Valid() && Queued(View()) && InActive(View(), curr)
      modifies this`active, this`expired, this`nrRunning, this`tasks
      ensures Valid() && View() == Expire(Dequeue(old(View()), curr), curr)
    {
      assert TaskOk(View(), curr);
      DequeueTask(curr);
      var prio := Clamp(tasks[curr].prio);
      AppendIndexOk(expired, prio, curr);
      TotalUpdate(expired.queue, prio, expired.queue[prio] + [curr]);
      expired := Append(expired, prio, curr);
      nrRunning := nrRunning + 1;
      tasks := tasks[curr := tasks[curr].(onRq := true)];
    }

    /** schedule: the current task, if it is no longer runnable, leaves the queue; the next one is picked. */
    method Schedule()
      requires Valid() && CanSchedule(View())
      modifies this
      ensures Valid() && Inv(View()) && View() == SchedSpec.Schedule(old(View()))
      ensures nrSwitches == old(nrSwitches) + if curr != old(curr) then 1 else 0
    {
      ScheduleInv(View());
      var prev := curr;
      if tasks[prev].state != Running && tasks[prev].onRq { DequeueTask(prev); }
      var next := PickNextTask();
      if prev != next {
        nrSwitches := nrSwitches + 1;
        curr := next;
      }
    }

    method YieldTask()
      requires Valid() && Inv(View())
      modifies this
      ensures Valid() && Inv(View()) && View() == Yield(old(View()))
    {
      YieldInv(View());
      assert curr != idle ==> SettledAt(View(), curr) && TaskOk(View(), curr);
      if tasks[curr].state == Running {
        if tasks[curr].onRq {
          DequeueQueued(View(), curr);
          DequeueTask(curr);
          EnqueueQueued(View(), curr);
          EnqueueTask(curr);
        }
      }
      ghost var s := View();
      assert CanSchedule(s) by { YieldCanSchedule(old(View())); }
      Schedule();
    }

    /** wake_up_process; resched says that the current task is marked for rescheduling, which happens exactly
        when a more urgent task has been woken. */
    method WakeUpProcess(p: nat) returns (woken: bool, resched: bool)
      requires Valid() && p in tasks && curr in tasks
      modifies this`active, this`nrRunning, this`tasks
      ensures Valid() && View() == WakeUp(old(View()), p)
      ensures woken <==> old(tasks[p].state) != Running
      ensures resched <==> woken && old(tasks[p].prio) < old(tasks[curr].prio)
    {
      if tasks[p].state == Running { return false, false; }
      tasks := tasks[p := tasks[p].(state := Running)];
      if !tasks[p].onRq { EnqueueTask(p); }
      return true, tasks[p].prio < tasks[curr].prio;
    }

    method WakeUpNewTask(p: nat)
      requires Valid() && p in tasks
      modifies this
      ensures Valid() && View() == WakeUpNew(old(View()), p, old(tasks[p]))
    {
      tasks := tasks[p := tasks[p].(state := Running)];
      tasks := tasks[p := tasks[p].(slice := Timeslice(tasks[p].prio))];
      EnqueueTask(p);
    }
  }

  /** dequeue_task adjusts only the active array's indexes: all indexes are exact afterwards if and only
      if the task was on the active array. */
  lemma DequeueExact(a: PrioArray, e: PrioArray, curr: nat, idle: nat, tasks: map<nat, Task>, p: nat)
    requires IndexOk(a) && IndexOk(e)
    requires var s := Sched(a.queue, e.queue, curr, idle, tasks);
             Queued(s) && p in tasks && tasks[p].onRq
    ensures var s := Sched(a.queue, e.queue, curr, idle, tasks);
            var k := Clamp(tasks[p].prio);
            var a', e' := Drop(a, UnlinkFrom(a.queue, p), k), e.(queue := UnlinkFrom(e.queue, p));
            && (InActive(s, p) <==> IndexOk(a') && IndexOk(e'))
            && (InActive(s, p) ==> a'.queue == a.queue[k := Without(a.queue[k], p)] && e' == e)
            && Total(a'.queue) + Total(e'.queue) == Total(a.queue) + Total(e.queue) - 1
  {
    var s := Sched(a.queue, e.queue, curr, idle, tasks);
    var k := Clamp(tasks[p].prio);
    assert TaskOk(s, p);
    if InActive(s, p) {
      DropIndexOk(a, tasks, p, k);
      UnlinkOne(a.queue, tasks, p, k);
      UnlinkNotIn(e.queue, tasks, p);
    } else {
      UnlinkOne(e.queue, tasks, p, k);
      UnlinkNotIn(a.queue, tasks, p);
    }
  }

  /** A tick that ends a slice moves the current task to the expired array: dequeue_task before the next
      schedule() leaves an index wrong. */
  lemma DequeueAfterLastTick(a: PrioArray, e: PrioArray, s: Sched)
    requires Inv(s) && LastTick(s) && IndexOk(a) && IndexOk(e)
    requires a.queue == Tick(s).active && e.queue == Tick(s).expired
    ensures var p, t := s.curr, Tick(s);
            && p in t.tasks && t.tasks[p].onRq
            && !(IndexOk(Drop(a, UnlinkFrom(a.queue, p), Clamp(t.tasks[p].prio))) &&
                 IndexOk(e.(queue := UnlinkFrom(e.queue, p))))
  {
    var t := Tick(s);
    LastTickQueued(s);
    assert TaskOk(t, s.curr);
    assert t == Sched(a.queue, e.queue, t.curr, t.idle, t.tasks);
    DequeueExact(a, e, t.curr, t.idle, t.tasks, s.curr);
  }

  lemma NoneFit(q: Queues)
    requires AllEmpty(q)
    ensures FirstFit(q, 0) == None
  {}

  lemma YieldCanSchedule(s: Sched)
    requires Inv(s)
    ensures CanSchedule(s)
    ensures s.curr != s.idle ==> CanSchedule(Enqueue(Dequeue(s, s.curr), s.curr))
  {
    if s.curr != s.idle {
      var s1 := Dequeue(s, s.curr);
      var s2 := Enqueue(s1, s.curr);
      assert TaskOk(s, s.curr) && SettledAt(s, s.curr);
      DequeueQueued(s, s.curr);
      EnqueueQueued(s1, s.curr);
      SettledSame(s, s2, s.idle, s.idle);
    }
  }

  lemma EmptyIndexOk(a: PrioArray)
    requires |a.queue| == MAX_PRIO && AllEmpty(a.queue) && a.nrActive == 0
    requires |a.bitmap| == BITMAP_SIZE && forall i | 0 <= i < BITMAP_SIZE :: a.bitmap[i] == 0
    ensures IndexOk(a)
  {
    TotalZero(a.queue);
    forall k | 0 <= k < WORD * BITMAP_SIZE ensures BitOk(a, k) { ZeroWord(k % WORD); }
  }

  lemma UnlinkNotIn(q: Queues, tasks: map<nat, Task>, p: nat)
    requires Filed(q, tasks) && (p in tasks ==> p !in q[Clamp(tasks[p].prio)])
    ensures UnlinkFrom(q, p) == q
  {
    UnlinkNone(q, p);
  }
}
