/** Process life cycle: fork, exit, wait, kill, sleep and wakeup as atomic steps of the current task on one
    kernel state, the invariant every step keeps, and what follows for whole runs. */
module ProcSpec {
  import opened Division
  import opened Lists
  import opened SchedSpec

  const MAX_PROCS: nat := 64
  const TASK_CACHE_SIZE: nat := 64
  const PID_MAX: nat := 32768
  const INIT: nat := 0

  /** Task 0 is init_task; task i + 1 is slot i of the task cache. */
  datatype Kernel = Kernel(
    s: Sched,
    table: seq<Option<nat>>,     // task_table
    kids: map<nat, seq<nat>>,    // children lists
    pids: set<nat>,              // bits set in pid_bitmap
    lastPid: nat,
    cache: set<nat>,             // tasks whose task_cache_bitmap bit is set
    stacks: map<nat, nat>,       // kernel stack of each task
    freeStacks: seq<nat>,        // stacks alloc_pages will hand out
    all: seq<nat>                // the list of all tasks but init_task
  )

  // ----- allocators

  /** Smallest free pid in word w of the bitmap. */
  function FreeInWord(pids: set<nat>, w: nat): (r: Option<nat>)
    ensures r.Some? ==> r.value !in pids && w * 64 <= r.value < w * 64 + 64
    ensures r.None? ==> forall p | w * 64 <= p < w * 64 + 64 :: p in pids
  {
    FreeFrom(pids, w * 64, w * 64 + 64)
  }

  const PID_WORDS: nat := 512

  /** alloc_pid's search: words i, i + 1, ... in turn, wrapping around. */
  function FindPid(pids: set<nat>, i: nat, end: nat): (r: Option<nat>)
    requires i <= end
    ensures r.Some? ==> r.value < PID_MAX && r.value !in pids
    decreases end - i
  {
    if i == end then None else
      match FreeInWord(pids, i % PID_WORDS)
      case Some(p) => Some(p)
      case None => FindPid(pids, i + 1, end)
  }

  function NextPid(pids: set<nat>, last: nat): Option<nat> {
    var pid := if last + 1 >= PID_MAX then 1 else last + 1;
    FindPid(pids, pid / 64, pid / 64 + PID_WORDS)
  }

  lemma {:induction false} FindPidNone(pids: set<nat>, i: nat, end: nat, j: nat, p: nat)
    requires i <= j < end && FindPid(pids, i, end).None? && p / 64 == j % PID_WORDS
    ensures p in pids
    decreases end - i
  {
    if i < j {
      FindPidNone(pids, i + 1, end, j, p);
    } else {
      var w := p / 64;
      assert FreeInWord(pids, w).None?;
      assert w * 64 <= p < w * 64 + 64;
    }
  }

  /** The search visits every word. */
  lemma RoundOf(w: nat, start: nat) returns (j: nat)
    requires w < PID_WORDS && start < PID_WORDS
    ensures start <= j < start + PID_WORDS && w == j % PID_WORDS
  {
    j := if w >= start then w else w + PID_WORDS;
    DivIs(j, PID_WORDS, if w >= start then 0 else 1, w);
  }

  /** The search fails exactly when every pid is taken. */
  lemma NextPidFailsExactly(pids: set<nat>, last: nat)
    requires last < PID_MAX
    ensures NextPid(pids, last).None? <==> forall p | 0 <= p < PID_MAX :: p in pids
    ensures NextPid(pids, last).Some? ==> NextPid(pids, last).value < PID_MAX && NextPid(pids, last).value !in pids
  {
    var start := (if last + 1 >= PID_MAX then 1 else last + 1) / 64;
    assert start < PID_WORDS && NextPid(pids, last) == FindPid(pids, start, start + PID_WORDS);
    if NextPid(pids, last).None? {
      forall p | 0 <= p < PID_MAX ensures p in pids {
        var j := RoundOf(p / 64, start);
        FindPidNone(pids, start, start + PID_WORDS, j, p);
      }
    } else {
      assert NextPid(pids, last).value !in pids;
    }
  }

  /** Lowest free task slot. */
  function FreeTask(cache: set<nat>): (r: Option<nat>)
    ensures r.Some? ==> 1 <= r.value <= TASK_CACHE_SIZE && r.value !in cache
    ensures r.None? ==> forall u | 1 <= u <= TASK_CACHE_SIZE :: u in cache
  {
    FreeFrom(cache, 1, TASK_CACHE_SIZE + 1)
  }

  /** First empty slot of task_table, or its length. */
  function FreeSlot(table: seq<Option<nat>>, i: nat): (r: nat)
    requires i <= |table|
    ensures i <= r <= |table| && (r < |table| ==> table[r].None?)
    ensures forall j | i <= j < r :: table[j].Some?
    decreases |table| - i
  {
    if i == |table| || table[i].None? then i else FreeSlot(table, i + 1)
  }

  // ----- invariant

  predicate InTable(table: seq<Option<nat>>, p: nat) { Some(p) in table }

  /** task_table lists every unreleased task, once. */
  ghost predicate TableOk(table: seq<Option<nat>>, tasks: map<nat, Task>) {
    && |table| == MAX_PROCS && table[0] == Some(INIT)
    && (forall i, j | 0 <= i < j < MAX_PROCS && table[i].Some? :: table[i] != table[j])
    && (forall p: nat {:trigger InTable(table, p)} :: InTable(table, p) <==> p in tasks)
  }

  /** The pid of a task is in range, marked as taken, and 0 for init_task only. */
  predicate PidOk(tasks: map<nat, Task>, pids: set<nat>, p: nat)
    requires p in tasks
  {
    0 <= tasks[p].pid < PID_MAX && tasks[p].pid in pids && (tasks[p].pid == 0 <==> p == INIT)
  }

  predicate HasPid(tasks: map<nat, Task>, p: nat, x: nat) { p in tasks && tasks[p].pid == x }

  ghost predicate Taken(tasks: map<nat, Task>, x: nat) { exists p :: HasPid(tasks, p, x) }

  /** Live tasks have distinct pids, and these are exactly the pids marked as taken. */
  ghost predicate PidsOk(tasks: map<nat, Task>, pids: set<nat>) {
    && (forall p {:trigger PidOk(tasks, pids, p)} | p in tasks :: PidOk(tasks, pids, p))
    && (forall p, q, x {:trigger HasPid(tasks, p, x), HasPid(tasks, q, x)} |
          HasPid(tasks, p, x) && HasPid(tasks, q, x) :: p == q)
    && (forall x {:trigger Taken(tasks, x)} | x in pids :: Taken(tasks, x))
  }

  ghost predicate StacksOk(stacks: map<nat, nat>, free: seq<nat>) {
    && NoDup(free)
    && (forall p | p in stacks :: stacks[p] !in free)
    && (forall p, q | p in stacks && q in stacks && p != q :: stacks[p] != stacks[q])
  }

  /** Pids, task slots and kernel stacks are in bijection with the unreleased tasks. */
  ghost predicate Owned(k: Kernel) {
    && INIT in k.s.tasks && k.cache == k.s.tasks.Keys - {INIT} == k.stacks.Keys
    && (forall p | p in k.cache :: 1 <= p <= TASK_CACHE_SIZE)
    && NoDup(k.all) && (forall p :: p in k.all <==> p in k.cache)
    && PidsOk(k.s.tasks, k.pids) && StacksOk(k.stacks, k.freeStacks) && k.lastPid < PID_MAX
  }

  predicate IsChild(tasks: map<nat, Task>, c: nat, p: nat) { c in tasks && c != INIT && tasks[c].parent == p }

  ghost predicate KidsOk(kids: map<nat, seq<nat>>, tasks: map<nat, Task>, p: nat)
    requires p in kids && p in tasks
  {
    NoDup(kids[p]) && (tasks[p].state == Zombie ==> kids[p] == [])
  }

  predicate ParentIn(kids: map<nat, seq<nat>>, tasks: map<nat, Task>, c: nat)
    requires c in tasks
  {
    tasks[c].parent in kids && tasks[c].realParent == tasks[c].parent
  }

  /** Every unreleased task but init_task is once in the children list of its parent, which is unreleased,
      and in no other list; zombies have no children. */
  ghost predicate TreeOk(kids: map<nat, seq<nat>>, tasks: map<nat, Task>) {
    && kids.Keys == tasks.Keys
    && (forall p {:trigger KidsOk(kids, tasks, p)} | p in kids :: KidsOk(kids, tasks, p))
    && (forall p: nat, c: nat {:trigger c in kids[p]} {:trigger IsChild(tasks, c, p)} | p in kids ::
          (c in kids[p] <==> IsChild(tasks, c, p)))
    && (forall c {:trigger ParentIn(kids, tasks, c)} | c in tasks && c != INIT :: ParentIn(kids, tasks, c))
  }

  /** do_wait's pid argument selects this child. */
  predicate Matches(child: Task, pid: int, pgrp: int) {
    && (pid > 0 ==> child.pid == pid)
    && (pid == 0 ==> child.pgrp == pgrp)
    && (pid < -1 ==> child.pgrp == -pid)
  }

  predicate ZombieMatch(tasks: map<nat, Task>, c: nat, pid: int, pgrp: int) {
    c in tasks && tasks[c].state == Zombie && Matches(tasks[c], pid, pgrp)
  }

  function WaitArg(t: Task): int { if t.waiting.Some? then t.waiting.value else 0 }

  /** The task sleeps inside do_wait. */
  predicate WaitsIn(t: Task) { t.waiting.Some? && t.state != Running }

  /** A task asleep in do_wait sleeps on its own channel and has no zombie child that its pid argument
      selects: no child exit has gone unnoticed. */
  ghost predicate WaitOkAt(tasks: map<nat, Task>, p: nat)
    requires p in tasks
  {
    var t := tasks[p];
    && (p != INIT ==> MIN_TIMESLICE <= t.slice <= MAX_TIMESLICE)
    && (p == INIT ==> t.waiting.None?)
    && (WaitsIn(t) ==>
          && t.state == Interruptible && t.chan == WaitChild(p)
          && forall c {:trigger IsChild(tasks, c, p)} | IsChild(tasks, c, p) ::
               !ZombieMatch(tasks, c, WaitArg(t), t.pgrp))
  }

  ghost predicate WaitOk(tasks: map<nat, Task>) {
    forall p {:trigger WaitOkAt(tasks, p)} | p in tasks :: WaitOkAt(tasks, p)
  }

  ghost predicate KInv(k: Kernel) {
    && Inv(k.s) && k.s.idle == INIT && TableOk(k.table, k.s.tasks) && Owned(k) && TreeOk(k.kids, k.s.tasks)
    && WaitOk(k.s.tasks)
  }

  // ----- steps

  predicate SleepsOn(t: Task, chan: Chan) {
    (t.state == Interruptible || t.state == Uninterruptible) && t.chan == chan
  }

  function WakeOne(s: Sched, p: nat): Sched
    requires p in s.tasks && |s.active| == MAX_PRIO
  {
    WakeUp(PutTask(s, p, s.tasks[p].(chan := NoChan)), p)
  }

  /** wakeup: scan task_table from slot i on. */
  function WakeAll(s: Sched, table: seq<Option<nat>>, i: nat, chan: Chan): (r: Sched)
    requires i <= |table| && |s.active| == MAX_PRIO
    ensures |r.active| == MAX_PRIO
    decreases |table| - i
  {
    if i == |table| then s
    else if table[i].Some? && table[i].value in s.tasks && SleepsOn(s.tasks[table[i].value], chan) then
      WakeAll(WakeOne(s, table[i].value), table, i + 1, chan)
    else WakeAll(s, table, i + 1, chan)
  }

  /** A new task as copy_process and kernel_thread set it up. */
  function NewTask(prio: int, pid: int, parent: nat): Task {
    Task(Running, prio, false, 10, NoChan, false, None, pid, 0, parent, parent, 0)
  }

  /** A task slot, a kernel stack and a pid are available. */
  predicate CanTake(cache: set<nat>, freeStacks: seq<nat>, pids: set<nat>, last: nat) {
    FreeTask(cache).Some? && freeStacks != [] && NextPid(pids, last).Some?
  }

  /** Everything a fork needs is available. */
  predicate CanFork(k: Kernel, mmFails: bool) { CanTake(k.cache, k.freeStacks, k.pids, k.lastPid) && !mmFails }

  /** copy_process or kernel_thread, then wake_up_new_task.  mmFails says that mm_alloc fails.  When
      anything is missing, all that had been taken is given back; only last_pid may have moved. */
  function ForkFrom(k: Kernel, parent: nat, prio: int, mmFails: bool): Kernel
    requires |k.s.active| == MAX_PRIO && parent in k.kids
  {
    if FreeTask(k.cache).None? || k.freeStacks == [] || NextPid(k.pids, k.lastPid).None? then k
    else
      var p, pid := FreeTask(k.cache).value, NextPid(k.pids, k.lastPid).value;
      if mmFails then k.(lastPid := pid)
      else
        var slot := FreeSlot(k.table, 0);
        k.(s := WakeUpNew(k.s, p, NewTask(prio, pid, parent)),
           table := if slot < |k.table| then k.table[slot := Some(p)] else k.table,
           kids := k.kids[parent := k.kids[parent] + [p]][p := []],
           pids := k.pids + {pid}, lastPid := pid,
           cache := k.cache + {p},
           stacks := k.stacks[p := k.freeStacks[0]],
           freeStacks := k.freeStacks[1..],
           all := k.all + [p])
  }

  function Fork(k: Kernel, mmFails: bool): Kernel
    requires |k.s.active| == MAX_PRIO && k.s.curr in k.kids && k.s.curr in k.s.tasks
  {
    ForkFrom(k, k.s.curr, k.s.tasks[k.s.curr].prio, mmFails)
  }

  function KernelThread(k: Kernel): Kernel
    requires |k.s.active| == MAX_PRIO && INIT in k.kids
  {
    ForkFrom(k, INIT, DEFAULT_PRIO, false)
  }

  /** exit_notify: the children of p become children of init_task. */
  function Adopt(tasks: map<nat, Task>, p: nat): map<nat, Task> {
    map c | c in tasks ::
      if c != INIT && tasks[c].parent == p then tasks[c].(parent := INIT, realParent := INIT) else tasks[c]
  }

  function Reparent(k: Kernel, p: nat): Kernel
    requires p in k.kids && INIT in k.kids && p != INIT
  {
    k.(s := k.s.(tasks := Adopt(k.s.tasks, p)),
       kids := k.kids[INIT := k.kids[INIT] + k.kids[p]][p := []])
  }

  /** do_exit up to its call of schedule(): children go to init_task, the task becomes a zombie and its
      parent's channel is woken. */
  function BecomeZombie(k: Kernel, code: int): Kernel
    requires k.s.curr in k.s.tasks && k.s.curr in k.kids && INIT in k.kids && k.s.curr != INIT
    requires |k.s.active| == MAX_PRIO
  {
    var p := k.s.curr;
    var k1 := Reparent(k, p);
    var t := k1.s.tasks[p].(state := Zombie, exitCode := code);
    var s := PutTask(k1.s, p, t);
    k1.(s := if t.parent != p then WakeAll(s, k.table, 0, WaitChild(t.parent)) else s)
  }

  /** Clear the table slot of task c. */
  function ClearSlot(table: seq<Option<nat>>, c: nat): seq<Option<nat>> {
    seq(|table|, i requires 0 <= i < |table| => if table[i] == Some(c) then None else table[i])
  }

  /** release_task */
  function Release(k: Kernel, c: nat): Kernel
    requires c in k.s.tasks && k.s.tasks[c].parent in k.kids && c in k.kids[k.s.tasks[c].parent] && c in k.stacks
    requires c in k.all
  {
    var t := k.s.tasks[c];
    k.(s := k.s.(tasks := k.s.tasks - {c}),
       table := ClearSlot(k.table, c),
       kids := (k.kids[t.parent := Without(k.kids[t.parent], c)]) - {c},
       pids := if 0 < t.pid < PID_MAX then k.pids - {t.pid} else k.pids,
       cache := k.cache - {c},
       stacks := k.stacks - {c},
       freeStacks := [k.stacks[c]] + k.freeStacks,
       all := Without(k.all, c))
  }

  /** do_wait's scan: the first zombie child that the pid argument selects. */
  function FirstZombie(tasks: map<nat, Task>, l: seq<nat>, pid: int, pgrp: int): (r: Option<nat>)
    ensures r.Some? ==> r.value in l && ZombieMatch(tasks, r.value, pid, pgrp)
    ensures r.None? ==> forall c | c in l :: !ZombieMatch(tasks, c, pid, pgrp)
  {
    if l == [] then None
    else if ZombieMatch(tasks, l[0], pid, pgrp) then Some(l[0])
    else FirstZombie(tasks, l[1..], pid, pgrp)
  }

  predicate HasMatch(tasks: map<nat, Task>, l: seq<nat>, pid: int, pgrp: int) {
    exists i | 0 <= i < |l| :: l[i] in tasks && Matches(tasks[l[i]], pid, pgrp)
  }

  datatype WaitOutcome = Reaped(pid: int, status: int) | NoChild | NotYet | Interrupted | Asleep

  /** One pass of do_wait: reap, fail, return 0, or go to sleep. */
  function WaitScan(k: Kernel, pid: int, nohang: bool): (Kernel, WaitOutcome)
    requires KInv(k) && (nohang || k.s.curr != INIT)
  {
    var p := k.s.curr;
    var t := k.s.tasks[p];
    match FirstZombie(k.s.tasks, k.kids[p], pid, t.pgrp)
    case Some(c) =>
      assert IsChild(k.s.tasks, c, p) && ParentIn(k.kids, k.s.tasks, c);
      (Release(k, c), Reaped(k.s.tasks[c].pid, k.s.tasks[c].exitCode))
    case None =>
      if !HasMatch(k.s.tasks, k.kids[p], pid, t.pgrp) then (k, NoChild)
      else if nohang then (k, NotYet)
      else (k.(s := Doze(k.s, WaitChild(p), Some(pid))), Asleep)
  }

  /** The current task goes to sleep on a channel and the processor is given away. */
  function Doze(s: Sched, chan: Chan, waiting: Option<int>): Sched
    requires Inv(s) && s.curr != s.idle
  {
    var t := s.tasks[s.curr].(chan := chan, state := Interruptible, waiting := waiting);
    Schedule(PutTask(s, s.curr, t))
  }

  /** Slot of the task with this pid, from slot i on. */
  function FindByPid(tasks: map<nat, Task>, table: seq<Option<nat>>, pid: int, i: nat): (r: Option<nat>)
    requires i <= |table|
    ensures r.Some? ==> r.value in tasks && tasks[r.value].pid == pid
    ensures r.None? ==>
            forall j | i <= j < |table| && table[j].Some? && table[j].value in tasks :: tasks[table[j].value].pid != pid
    decreases |table| - i
  {
    if i == |table| then None
    else if table[i].Some? && table[i].value in tasks && tasks[table[i].value].pid == pid then table[i]
    else FindByPid(tasks, table, pid, i + 1)
  }

  /** kill_process */
  function KillSched(s: Sched, table: seq<Option<nat>>, pid: int): Sched
    requires |s.active| == MAX_PRIO
  {
    match FindByPid(s.tasks, table, pid, 0)
    case None => s
    case Some(p) =>
      var s1 := PutTask(s, p, s.tasks[p].(killed := true));
      if s1.tasks[p].state == Interruptible || s1.tasks[p].state == Uninterruptible then WakeUp(s1, p) else s1
  }

  function Kill(k: Kernel, pid: int): Kernel
    requires |k.s.active| == MAX_PRIO
  {
    k.(s := KillSched(k.s, k.table, pid))
  }

  // ----- steps that only schedule

  /** The fields that tell a task's place among the processes. */
  predicate SameProcess(t: Task, t': Task) {
    && t'.pid == t.pid && t'.pgrp == t.pgrp && t'.exitCode == t.exitCode
    && t'.parent == t.parent && t'.realParent == t.realParent
    && (t'.state == Zombie <==> t.state == Zombie)
  }

  predicate AlikeAt(tasks: map<nat, Task>, tasks': map<nat, Task>, p: nat)
    requires p in tasks && p in tasks'
  {
    SameProcess(tasks[p], tasks'[p])
  }

  ghost predicate Alike(tasks: map<nat, Task>, tasks': map<nat, Task>) {
    tasks'.Keys == tasks.Keys && forall p {:trigger AlikeAt(tasks, tasks', p)} | p in tasks :: AlikeAt(tasks, tasks', p)
  }

  /** No task went to sleep in do_wait, and those asleep there still are as they were or have been woken. */
  predicate NoNewWait(t: Task, t': Task) {
    WaitsIn(t') ==> WaitsIn(t) && t'.state == t.state && t'.chan == t.chan && t'.waiting == t.waiting
  }

  predicate QuietAt(tasks: map<nat, Task>, tasks': map<nat, Task>, p: nat)
    requires p in tasks && p in tasks'
  {
    && SameProcess(tasks[p], tasks'[p]) && NoNewWait(tasks[p], tasks'[p])
    && (p != INIT ==> MIN_TIMESLICE <= tasks'[p].slice <= MAX_TIMESLICE)
    && (p == INIT ==> tasks'[p].waiting.None?)
  }

  ghost predicate Quiet(tasks: map<nat, Task>, tasks': map<nat, Task>) {
    tasks'.Keys == tasks.Keys && forall p {:trigger QuietAt(tasks, tasks', p)} | p in tasks :: QuietAt(tasks, tasks', p)
  }

  lemma AlikeTree(kids: map<nat, seq<nat>>, tasks: map<nat, Task>, tasks': map<nat, Task>)
    requires TreeOk(kids, tasks) && Alike(tasks, tasks')
    ensures TreeOk(kids, tasks')
  {
    forall p | p in kids ensures KidsOk(kids, tasks', p) {
      assert KidsOk(kids, tasks, p) && AlikeAt(tasks, tasks', p);
    }
    forall p: nat, c: nat | p in kids ensures c in kids[p] <==> IsChild(tasks', c, p) {
      assert c in kids[p] <==> IsChild(tasks, c, p);
      assert c in tasks ==> AlikeAt(tasks, tasks', c);
    }
    forall c | c in tasks' && c != INIT ensures ParentIn(kids, tasks', c) {
      assert AlikeAt(tasks, tasks', c) && ParentIn(kids, tasks, c);
    }
  }

  lemma SamePids(tasks: map<nat, Task>, tasks': map<nat, Task>, pids: set<nat>)
    requires PidsOk(tasks, pids) && tasks'.Keys == tasks.Keys && forall p | p in tasks :: tasks'[p].pid == tasks[p].pid
    ensures PidsOk(tasks', pids)
  {
    forall p | p in tasks ensures PidOk(tasks', pids, p) { assert PidOk(tasks, pids, p); }
    forall p, x: nat ensures HasPid(tasks', p, x) <==> HasPid(tasks, p, x) {}
    forall x | x in pids ensures Taken(tasks', x) {
      assert Taken(tasks, x);
      var p :| HasPid(tasks, p, x);
      assert HasPid(tasks', p, x);
    }
  }

  /** Everything but the waits carries over to tasks that are alike. */
  lemma AlikeInv(k: Kernel, s': Sched)
    requires KInv(k) && Inv(s') && s'.idle == INIT && Alike(k.s.tasks, s'.tasks) && WaitOk(s'.tasks)
    ensures KInv(k.(s := s'))
  {
    AlikeTree(k.kids, k.s.tasks, s'.tasks);
    forall p | p in k.s.tasks ensures s'.tasks[p].pid == k.s.tasks[p].pid { assert AlikeAt(k.s.tasks, s'.tasks, p); }
    SamePids(k.s.tasks, s'.tasks, k.pids);
    assert TableOk(k.table, s'.tasks);
  }

  lemma QuietWaits(tasks: map<nat, Task>, tasks': map<nat, Task>)
    requires WaitOk(tasks) && Quiet(tasks, tasks')
    ensures WaitOk(tasks') && Alike(tasks, tasks')
  {
    forall p | p in tasks ensures AlikeAt(tasks, tasks', p) { assert QuietAt(tasks, tasks', p); }
    forall p | p in tasks ensures WaitOkAt(tasks', p) {
      assert QuietAt(tasks, tasks', p) && WaitOkAt(tasks, p);
      forall c | IsChild(tasks', c, p) ensures IsChild(tasks, c, p) { assert AlikeAt(tasks, tasks', c); }
    }
  }

  lemma QuietInv(k: Kernel, s': Sched)
    requires KInv(k) && Inv(s') && s'.idle == INIT && Quiet(k.s.tasks, s'.tasks)
    ensures KInv(k.(s := s'))
  {
    QuietWaits(k.s.tasks, s'.tasks);
    AlikeInv(k, s');
  }

  /** A step that changes the scheduling state of one task only. */
  lemma QuietOne(tasks: map<nat, Task>, tasks': map<nat, Task>, p: nat, t: Task)
    requires WaitOk(tasks) && p in tasks && tasks' == tasks[p := t]
    requires SameProcess(tasks[p], t) && NoNewWait(tasks[p], t)
    requires if p == INIT then t.waiting.None? else MIN_TIMESLICE <= t.slice <= MAX_TIMESLICE
    ensures Quiet(tasks, tasks')
  {
    forall q | q in tasks ensures QuietAt(tasks, tasks', q) { assert WaitOkAt(tasks, q); }
  }

  lemma ForgetWait(k: Kernel)
    requires KInv(k)
    ensures KInv(k.(s := PutTask(k.s, k.s.curr, k.s.tasks[k.s.curr].(waiting := None))))
  {
    var c := k.s.curr;
    var t := k.s.tasks[c].(waiting := None);
    var s' := PutTask(k.s, c, t);
    assert WaitOkAt(k.s.tasks, c);
    QuietOne(k.s.tasks, s'.tasks, c, t);
    assert Inv(s') by {
      RetouchQueued(k.s, c, t);
      SettledSame(k.s, s', INIT, INIT);
    }
    QuietInv(k, s');
  }

  /** do_wait continues after its schedule() call has returned. */
  function WaitResume(k: Kernel): (Kernel, WaitOutcome)
    requires KInv(k) && k.s.tasks[k.s.curr].waiting.Some?
  {
    var t := k.s.tasks[k.s.curr];
    var k1 := k.(s := PutTask(k.s, k.s.curr, t.(waiting := None)));
    ForgetWait(k);
    assert WaitOkAt(k.s.tasks, k.s.curr);
    if t.killed then (k1, Interrupted) else WaitScan(k1, t.waiting.value, false)
  }

  // ----- wakeup

  ghost predicate SlicesOk(tasks: map<nat, Task>) {
    forall p {:trigger tasks[p].slice} | p in tasks && p != INIT :: MIN_TIMESLICE <= tasks[p].slice <= MAX_TIMESLICE
  }

  function Woken(t: Task): Task { t.(chan := NoChan, state := Running, onRq := true) }

  /** Exactly the tasks in table slots i and up that sleep on the channel are woken. */
  ghost predicate WokenAt(s: Sched, r: Sched, table: seq<Option<nat>>, i: nat, chan: Chan, p: nat)
    requires p in s.tasks && p in r.tasks && i <= |table|
  {
    r.tasks[p] == if Some(p) in table[i..] && SleepsOn(s.tasks[p], chan) then Woken(s.tasks[p]) else s.tasks[p]
  }

  ghost predicate WakesExactly(s: Sched, r: Sched, table: seq<Option<nat>>, i: nat, chan: Chan)
    requires i <= |table|
  {
    && r.curr == s.curr && r.idle == s.idle && r.tasks.Keys == s.tasks.Keys
    && forall p {:trigger WokenAt(s, r, table, i, chan, p)} | p in s.tasks :: WokenAt(s, r, table, i, chan, p)
  }

  /** What wakeup needs: the current task is not one of the sleepers. */
  ghost predicate CanWake(s: Sched, chan: Chan) {
    Queued(s) && Settled(s, s.curr) && s.idle == INIT && SlicesOk(s.tasks) && !SleepsOn(s.tasks[s.curr], chan)
  }

  lemma WakeOneInv(s: Sched, p: nat, chan: Chan)
    requires CanWake(s, chan) && p in s.tasks && SleepsOn(s.tasks[p], chan)
    ensures CanWake(WakeOne(s, p), chan)
    ensures WakeOne(s, p).tasks == s.tasks[p := Woken(s.tasks[p])]
    ensures WakeOne(s, p).curr == s.curr && WakeOne(s, p).idle == s.idle
    ensures InActive(WakeOne(s, p), s.curr) <==> InActive(s, s.curr)
  {
    var s1 := PutTask(s, p, s.tasks[p].(chan := NoChan));
    assert SettledAt(s, p) && MIN_TIMESLICE <= s.tasks[p].slice;
    RetouchQueued(s, p, s.tasks[p].(chan := NoChan));
    SettledSame(s, s1, s.curr, s.curr);
    WakeUpInv(s1, p);
    assert s1.tasks[p := s1.tasks[p].(state := Running, onRq := true)] == s.tasks[p := Woken(s.tasks[p])];
  }

  lemma {:induction false} WakeAllInv(s: Sched, table: seq<Option<nat>>, i: nat, chan: Chan)
    requires CanWake(s, chan) && i <= |table|
    ensures var r := WakeAll(s, table, i, chan);
            && CanWake(r, chan) && WakesExactly(s, r, table, i, chan)
            && (InActive(r, s.curr) <==> InActive(s, s.curr))
    decreases |table| - i
  {
    if i < |table| {
      var r := WakeAll(s, table, i, chan);
      assert table[i..] == [table[i]] + table[i + 1..];
      if table[i].Some? && table[i].value in s.tasks && SleepsOn(s.tasks[table[i].value], chan) {
        var s1 := WakeOne(s, table[i].value);
        WakeOneInv(s, table[i].value, chan);
        WakeAllInv(s1, table, i + 1, chan);
        forall p | p in s.tasks ensures WokenAt(s, r, table, i, chan, p) {
          WokenFirst(s, s1, r, table, i, chan, p);
        }
      } else {
        WakeAllInv(s, table, i + 1, chan);
        forall p | p in s.tasks ensures WokenAt(s, r, table, i, chan, p) {
          assert WokenAt(s, r, table, i + 1, chan, p);
        }
      }
    }
  }

  /** The task in slot i woken first, then those in the slots behind it. */
  lemma WokenFirst(s: Sched, s1: Sched, r: Sched, table: seq<Option<nat>>, i: nat, chan: Chan, p: nat)
    requires i < |table| && table[i].Some? && table[i].value in s.tasks && SleepsOn(s.tasks[table[i].value], chan)
    requires s1.tasks == s.tasks[table[i].value := Woken(s.tasks[table[i].value])]
    requires p in s.tasks && WakesExactly(s1, r, table, i + 1, chan)
    ensures p in r.tasks && WokenAt(s, r, table, i, chan, p)
  {
    assert table[i..] == [table[i]] + table[i + 1..];
    assert WokenAt(s1, r, table, i + 1, chan, p);
  }

  /** One task as wakeup leaves it: woken if it is listed and sleeps on the channel, untouched otherwise. */
  lemma {:induction false} WakeAllOne(s: Sched, table: seq<Option<nat>>, i: nat, chan: Chan, p: nat)
    requires i <= |table| && |s.active| == MAX_PRIO && p in s.tasks
    ensures var r := WakeAll(s, table, i, chan);
            && p in r.tasks
            && (if Some(p) in table[i..] && SleepsOn(s.tasks[p], chan) then r.tasks[p].state == Running
                else r.tasks[p] == s.tasks[p])
    decreases |table| - i
  {
    if i < |table| {
      assert table[i..] == [table[i]] + table[i + 1..];
      if table[i].Some? && table[i].value in s.tasks && SleepsOn(s.tasks[table[i].value], chan) {
        WakeAllOne(WakeOne(s, table[i].value), table, i + 1, chan, p);
      } else {
        WakeAllOne(s, table, i + 1, chan, p);
      }
    }
  }

  /** init_task asleep in do_wait: the exit of a task wakes it exactly when it is that task's parent.  Zombies that
      the exit hands over to it do not. */
  lemma OrphansUnannounced(s: Sched, table: seq<Option<nat>>, p: nat, c: nat, code: int)
    requires |s.active| == MAX_PRIO && InTable(table, INIT) && INIT in s.tasks && p in s.tasks && c in s.tasks
    requires p != INIT && c != INIT && c != p && s.tasks[p].parent != p
    requires SleepsOn(s.tasks[INIT], WaitChild(INIT)) && s.tasks[c].parent == p && s.tasks[c].state == Zombie
    ensures var b := Buried(s.tasks, p, code);
            var r := WakeAll(s.(tasks := b), table, 0, WaitChild(b[p].parent));
            && INIT in r.tasks && IsChild(b, c, INIT) && b[c].state == Zombie
            && (r.tasks[INIT].state == Running <==> s.tasks[p].parent == INIT)
  {
    var b := Buried(s.tasks, p, code);
    assert table[0..] == table;
    WakeAllOne(s.(tasks := b), table, 0, WaitChild(b[p].parent), INIT);
  }

  // ----- the steps keep the invariant

  lemma WaitSlices(tasks: map<nat, Task>)
    requires WaitOk(tasks)
    ensures SlicesOk(tasks)
  {
    forall p | p in tasks && p != INIT ensures MIN_TIMESLICE <= tasks[p].slice <= MAX_TIMESLICE {
      assert WaitOkAt(tasks, p);
    }
  }

  /** The current task is runnable. */
  lemma CurrentRuns(k: Kernel)
    requires KInv(k)
    ensures k.s.tasks[k.s.curr].state == Running && Settled(k.s, k.s.curr)
    ensures k.s.curr != INIT ==> k.s.tasks[k.s.curr].onRq
  {
    if k.s.curr != INIT { assert SettledAt(k.s, k.s.curr) && TaskOk(k.s, k.s.curr); }
    SettledSame(k.s, k.s, INIT, k.s.curr);
  }

  lemma TickKInv(k: Kernel)
    requires KInv(k)
    ensures KInv(k.(s := TickStep(k.s)))
  {
    var c, s' := k.s.curr, TickStep(k.s);
    TickStepInv(k.s);
    assert WaitOkAt(k.s.tasks, c);
    if c == INIT {
      assert s'.tasks == k.s.tasks[c := k.s.tasks[c]];
      QuietOne(k.s.tasks, s'.tasks, c, k.s.tasks[c]);
    } else {
      assert TaskOk(k.s, c);
      assert s'.tasks == k.s.tasks[c := s'.tasks[c]];
      QuietOne(k.s.tasks, s'.tasks, c, s'.tasks[c]);
    }
    QuietInv(k, s');
  }

  lemma YieldKInv(k: Kernel)
    requires KInv(k)
    ensures KInv(k.(s := Yield(k.s)))
  {
    var c, s' := k.s.curr, Yield(k.s);
    YieldInv(k.s);
    CurrentRuns(k);
    assert WaitOkAt(k.s.tasks, c);
    assert s'.tasks == k.s.tasks[c := k.s.tasks[c]];
    QuietOne(k.s.tasks, s'.tasks, c, k.s.tasks[c]);
    QuietInv(k, s');
  }

  lemma WakesQuiet(k: Kernel, r: Sched, chan: Chan)
    requires WaitOk(k.s.tasks) && |k.table| == MAX_PROCS && WakesExactly(k.s, r, k.table, 0, chan)
    requires k.s.idle == INIT && INIT in k.s.tasks && k.s.tasks[INIT].state == Running
    ensures Quiet(k.s.tasks, r.tasks)
  {
    forall p | p in k.s.tasks ensures QuietAt(k.s.tasks, r.tasks, p) {
      assert WaitOkAt(k.s.tasks, p) && WokenAt(k.s, r, k.table, 0, chan, p);
    }
  }

  lemma WakeupKInv(k: Kernel, chan: Chan)
    requires KInv(k)
    ensures KInv(k.(s := WakeAll(k.s, k.table, 0, chan)))
  {
    var r := WakeAll(k.s, k.table, 0, chan);
    CurrentRuns(k);
    WaitSlices(k.s.tasks);
    WakeAllInv(k.s, k.table, 0, chan);
    assert WokenAt(k.s, r, k.table, 0, chan, k.s.curr);
    assert Inv(r) by { SettleOne(r, r.curr); }
    WakesQuiet(k, r, chan);
    QuietInv(k, r);
  }

  lemma KillKInv(k: Kernel, pid: int)
    requires KInv(k)
    ensures KInv(Kill(k, pid))
  {
    match FindByPid(k.s.tasks, k.table, pid, 0)
    case None =>
    case Some(p) =>
      var t := k.s.tasks[p].(killed := true);
      var s1 := PutTask(k.s, p, t);
      assert WaitOkAt(k.s.tasks, p);
      CurrentRuns(k);
      RetouchQueued(k.s, p, t);
      if t.state == Interruptible || t.state == Uninterruptible {
        SettledSame(k.s, s1, k.s.curr, k.s.curr);
        WakeUpInv(s1, p);
        var r := WakeUp(s1, p);
        assert r.tasks == k.s.tasks[p := t.(state := Running, onRq := true)];
        QuietOne(k.s.tasks, r.tasks, p, t.(state := Running, onRq := true));
        assert Inv(r) by { SettleOne(r, r.curr); }
        QuietInv(k, r);
      } else {
        QuietOne(k.s.tasks, s1.tasks, p, t);
        SettledSame(k.s, s1, INIT, INIT);
        QuietInv(k, s1);
      }
  }

  /** Going to sleep takes the current task, and only it, off the queues. */
  lemma DozeInv(s: Sched, chan: Chan, waiting: Option<int>)
    requires Inv(s) && s.curr != s.idle
    ensures Inv(Doze(s, chan, waiting)) && Doze(s, chan, waiting).idle == s.idle
    ensures Doze(s, chan, waiting).tasks
            == s.tasks[s.curr := s.tasks[s.curr].(chan := chan, state := Interruptible, waiting := waiting,
                                                  onRq := false)]
  {
    var t := s.tasks[s.curr].(chan := chan, state := Interruptible, waiting := waiting);
    var s1 := PutTask(s, s.curr, t);
    assert TaskOk(s, s.curr);
    RetouchQueued(s, s.curr, t);
    SettledSame(s, s1, s.idle, s.curr);
    ScheduleInv(s1);
    assert s1.tasks[s.curr := t.(onRq := false)] == s.tasks[s.curr := t.(onRq := false)];
  }

  lemma SleepKInv(k: Kernel, chan: Chan)
    requires KInv(k) && k.s.curr != INIT
    ensures KInv(k.(s := Doze(k.s, chan, None)))
  {
    var c, s' := k.s.curr, Doze(k.s, chan, None);
    assert WaitOkAt(k.s.tasks, c);
    CurrentRuns(k);
    DozeInv(k.s, chan, None);
    QuietOne(k.s.tasks, s'.tasks, c, s'.tasks[c]);
    QuietInv(k, s');
  }

  /** do_wait goes to sleep only after a scan that found no zombie child to reap. */
  lemma WaitSleepKInv(k: Kernel, pid: int)
    requires KInv(k) && k.s.curr != INIT
    requires forall c | c in k.kids[k.s.curr] :: !ZombieMatch(k.s.tasks, c, pid, k.s.tasks[k.s.curr].pgrp)
    ensures KInv(k.(s := Doze(k.s, WaitChild(k.s.curr), Some(pid))))
  {
    var p, s' := k.s.curr, Doze(k.s, WaitChild(k.s.curr), Some(pid));
    SleepKInv(k, WaitChild(p));
    DozeTwice(k.s, WaitChild(p), pid);
    SetWait(k.(s := Doze(k.s, WaitChild(p), None)), p, pid, s');
  }

  /** Sleeping with and without a wait to record. */
  lemma DozeTwice(s: Sched, chan: Chan, pid: int)
    requires Inv(s) && s.curr != s.idle
    ensures var a, b, p := Doze(s, chan, None), Doze(s, chan, Some(pid)), s.curr;
            && Inv(b) && b.idle == s.idle && p in a.tasks
            && a.tasks[p] == s.tasks[p].(chan := chan, state := Interruptible, waiting := None, onRq := false)
            && b.tasks == a.tasks[p := a.tasks[p].(waiting := Some(pid))]
            && (forall q | q in s.tasks && q != p :: q in a.tasks && a.tasks[q] == s.tasks[q])
  {
    DozeInv(s, chan, None);
    DozeInv(s, chan, Some(pid));
  }

  /** Recording the wait of a task that sleeps on its own channel and has nothing to reap. */
  lemma SetWait(k: Kernel, p: nat, pid: int, s': Sched)
    requires KInv(k) && Inv(s') && s'.idle == INIT && p in k.s.tasks && p != INIT
    requires s'.tasks == k.s.tasks[p := k.s.tasks[p].(waiting := Some(pid))]
    requires k.s.tasks[p].state == Interruptible && k.s.tasks[p].chan == WaitChild(p)
    requires forall c | c in k.kids[p] :: !ZombieMatch(k.s.tasks, c, pid, k.s.tasks[p].pgrp)
    ensures KInv(k.(s := s'))
  {
    var tasks := k.s.tasks;
    forall q | q in tasks ensures AlikeAt(tasks, s'.tasks, q) {}
    forall q | q in tasks ensures WaitOkAt(s'.tasks, q) {
      assert WaitOkAt(tasks, q);
      forall c | IsChild(s'.tasks, c, q) ensures IsChild(tasks, c, q) {}
      if q == p {
        forall c | IsChild(s'.tasks, c, p) ensures !ZombieMatch(s'.tasks, c, pid, tasks[p].pgrp) {
          assert c in k.kids[p];
        }
      }
    }
    AlikeInv(k, s');
  }

  // ----- fork

  lemma ForkPids(tasks: map<nat, Task>, pids: set<nat>, p: nat, t: Task)
    requires PidsOk(tasks, pids) && INIT in tasks && p !in tasks && 0 <= t.pid < PID_MAX && t.pid !in pids
    ensures PidsOk(tasks[p := t], pids + {t.pid})
  {
    var tasks', pids' := tasks[p := t], pids + {t.pid};
    assert PidOk(tasks, pids, INIT);
    forall q | q in tasks' ensures PidOk(tasks', pids', q) {
      if q != p { assert PidOk(tasks, pids, q); }
    }
    forall q, x: nat | q != p ensures HasPid(tasks', q, x) <==> HasPid(tasks, q, x) {}
    forall q, x: nat | HasPid(tasks, q, x) ensures x != t.pid { assert PidOk(tasks, pids, q); }
    forall x | x in pids' ensures Taken(tasks', x) {
      if x == t.pid {
        assert HasPid(tasks', p, x);
      } else {
        assert Taken(tasks, x);
        var q :| HasPid(tasks, q, x);
        assert HasPid(tasks', q, x);
      }
    }
  }

  lemma ForkTree(kids: map<nat, seq<nat>>, tasks: map<nat, Task>, p: nat, t: Task)
    requires TreeOk(kids, tasks) && p !in tasks && p != INIT && t.parent in kids && t.realParent == t.parent
             && t.state == Running
    requires tasks[t.parent].state != Zombie
    ensures TreeOk(kids[t.parent := kids[t.parent] + [p]][p := []], tasks[p := t])
  {
    var q := t.parent;
    var kids', tasks' := kids[q := kids[q] + [p]][p := []], tasks[p := t];
    assert p !in kids[q] by { assert p in kids[q] <==> IsChild(tasks, p, q); }
    forall u | u in kids' ensures KidsOk(kids', tasks', u) {
      if u != p { assert KidsOk(kids, tasks, u); }
    }
    forall u: nat, c: nat | u in kids' ensures c in kids'[u] <==> IsChild(tasks', c, u) {
      if u != p { assert c in kids[u] <==> IsChild(tasks, c, u); }
      if u == p && c in tasks && c != INIT { assert ParentIn(kids, tasks, c); }
    }
    forall c | c in tasks' && c != INIT ensures ParentIn(kids', tasks', c) {
      if c != p { assert ParentIn(kids, tasks, c); }
    }
  }

  lemma ForkWaits(tasks: map<nat, Task>, p: nat, t: Task)
    requires WaitOk(tasks) && p !in tasks && p != INIT && t.state == Running
    requires MIN_TIMESLICE <= t.slice <= MAX_TIMESLICE
    ensures WaitOk(tasks[p := t])
  {
    var tasks' := tasks[p := t];
    forall q | q in tasks' ensures WaitOkAt(tasks', q) {
      if q != p {
        assert WaitOkAt(tasks, q);
        forall c | IsChild(tasks', c, q) && c != p ensures IsChild(tasks, c, q) {}
      }
    }
  }

  lemma ForkTable(table: seq<Option<nat>>, tasks: map<nat, Task>, p: nat, t: Task)
    requires TableOk(table, tasks) && p !in tasks
    ensures var slot := FreeSlot(table, 0);
            var table' := if slot < |table| then table[slot := Some(p)] else table;
            TableOk(table', tasks[p := t]) <==> slot < MAX_PROCS
  {
    var slot := FreeSlot(table, 0);
    assert !InTable(table, p);
    if slot < MAX_PROCS {
      var table', tasks' := table[slot := Some(p)], tasks[p := t];
      forall q: nat ensures InTable(table', q) <==> q in tasks' {
        assert InTable(table, q) <==> q in tasks;
        if q == p { assert table'[slot] == Some(q); }
        else if InTable(table, q) {
          var i :| 0 <= i < |table| && table[i] == Some(q);
          assert table'[i] == Some(q);
        }
      }
    }
  }

  lemma ForkStacks(stacks: map<nat, nat>, free: seq<nat>, p: nat)
    requires StacksOk(stacks, free) && p !in stacks && free != []
    ensures StacksOk(stacks[p := free[0]], free[1..])
  {
    assert free == [free[0]] + free[1..];
  }

  lemma ForkSucceeds(k: Kernel, parent: nat, prio: int)
    requires KInv(k) && parent in k.kids && k.s.tasks[parent].state != Zombie && CanFork(k, false)
    ensures KInv(ForkFrom(k, parent, prio, false)) <==> FreeSlot(k.table, 0) < MAX_PROCS
  {
    var p, pid := FreeTask(k.cache).value, NextPid(k.pids, k.lastPid).value;
    var t := NewTask(prio, pid, parent);
    var t' := t.(slice := Timeslice(prio), onRq := true);
    assert ForkFrom(k, parent, prio, false).s.tasks == k.s.tasks[p := t'];
    ForkRest(k, parent, prio);
    ForkTable(k.table, k.s.tasks, p, t');
  }

  /** All but task_table. */
  lemma ForkRest(k: Kernel, parent: nat, prio: int)
    requires KInv(k) && parent in k.kids && k.s.tasks[parent].state != Zombie && CanFork(k, false)
    ensures var k' := ForkFrom(k, parent, prio, false);
            Inv(k'.s) && k'.s.idle == INIT && Owned(k') && TreeOk(k'.kids, k'.s.tasks) && WaitOk(k'.s.tasks)
  {
    var p, pid := FreeTask(k.cache).value, NextPid(k.pids, k.lastPid).value;
    var t := NewTask(prio, pid, parent);
    var t' := t.(slice := Timeslice(prio), onRq := true);
    assert ForkFrom(k, parent, prio, false).s.tasks == k.s.tasks[p := t'];
    WakeUpNewInv(k.s, p, t);
    ForkPids(k.s.tasks, k.pids, p, t');
    ForkTree(k.kids, k.s.tasks, p, t');
    ForkWaits(k.s.tasks, p, t');
    ForkStacks(k.stacks, k.freeStacks, p);
  }

  /** A fork keeps the invariant exactly when it fails or task_table has an empty slot: a task that finds
      none exists but is not listed, so that no wakeup or kill can reach it. */
  lemma ForkKInv(k: Kernel, parent: nat, prio: int, mmFails: bool)
    requires KInv(k) && parent in k.kids && k.s.tasks[parent].state != Zombie
    ensures KInv(ForkFrom(k, parent, prio, mmFails)) <==> !CanFork(k, mmFails) || FreeSlot(k.table, 0) < MAX_PROCS
  {
    if CanFork(k, mmFails) {
      ForkSucceeds(k, parent, prio);
    } else {
      NextPidFailsExactly(k.pids, k.lastPid);
    }
  }

  /** A fork that fails costs nothing: only last_pid may have moved, and whatever could be forked before can be
      forked after, because the pid search covers all pids wherever it starts. */
  lemma FailedForkCostsNothing(k: Kernel, parent: nat, prio: int, mmFails: bool)
    requires KInv(k) && parent in k.kids && !CanFork(k, mmFails)
    ensures var k' := ForkFrom(k, parent, prio, mmFails);
            KInv(k') && k' == k.(lastPid := k'.lastPid) && (CanFork(k', false) <==> CanFork(k, false))
  {
    var k' := ForkFrom(k, parent, prio, mmFails);
    NextPidFailsExactly(k.pids, k.lastPid);
    NextPidFailsExactly(k'.pids, k'.lastPid);
  }

  /** Releasing the task a fork has made gives back exactly what the fork took: in any state in which the books
      are still as the fork left them, they are afterwards as they were before the fork. */
  lemma ForkThenRelease(k: Kernel, parent: nat, prio: int, k2: Kernel)
    requires KInv(k) && parent in k.kids && CanFork(k, false) && FreeSlot(k.table, 0) < MAX_PROCS
    requires var k1, p := ForkFrom(k, parent, prio, false), FreeTask(k.cache).value;
             && k1 == k2.(s := k1.s, lastPid := k1.lastPid) && p in k2.s.tasks
             && k2.s.tasks[p].parent == parent && k2.s.tasks[p].pid == k1.s.tasks[p].pid
    ensures var p := FreeTask(k.cache).value;
            && p in k2.kids[parent] && p in k2.stacks && p in k2.all
            && Release(k2, p) == k.(s := k2.s.(tasks := k2.s.tasks - {p}), lastPid := k2.lastPid)
  {
    var p := FreeTask(k.cache).value;
    assert p !in k.s.tasks && !InTable(k.table, p);
    assert p !in k.kids[parent] by { assert p in k.kids[parent] <==> IsChild(k.s.tasks, p, parent); }
    assert PidOk(k.s.tasks, k.pids, INIT);
    GivesBack(k, k2, parent, p, NextPid(k.pids, k.lastPid).value, FreeSlot(k.table, 0));
  }

  lemma GivesBack(k: Kernel, k2: Kernel, parent: nat, p: nat, pid: nat, slot: nat)
    requires slot < |k.table| && k.table[slot].None? && !InTable(k.table, p)
    requires parent in k.kids && p !in k.kids && p !in k.kids[parent]
    requires 0 < pid < PID_MAX && pid !in k.pids && p !in k.cache && p !in k.stacks && p !in k.all && k.freeStacks != []
    requires k2 == k.(s := k2.s, lastPid := k2.lastPid, table := k.table[slot := Some(p)],
                      kids := k.kids[parent := k.kids[parent] + [p]][p := []], pids := k.pids + {pid},
                      cache := k.cache + {p}, stacks := k.stacks[p := k.freeStacks[0]],
                      freeStacks := k.freeStacks[1..], all := k.all + [p])
    requires p in k2.s.tasks && k2.s.tasks[p].parent == parent && k2.s.tasks[p].pid == pid
    ensures p in k2.kids[parent] && p in k2.stacks && p in k2.all
    ensures Release(k2, p) == k.(s := k2.s.(tasks := k2.s.tasks - {p}), lastPid := k2.lastPid)
  {
    WithoutLast(k.all, p);
    ForkedKids(k.kids, parent, p);
    ForkedSlot(k.table, slot, p);
    ForkedStack(k.stacks, k.freeStacks, p);
    assert k2.cache - {p} == k.cache;
    assert k2.pids - {pid} == k.pids;
  }

  lemma ForkedKids(kids: map<nat, seq<nat>>, parent: nat, p: nat)
    requires parent in kids && p !in kids && p !in kids[parent]
    ensures var kids' := kids[parent := kids[parent] + [p]][p := []];
            p in kids'[parent] && (kids'[parent := Without(kids'[parent], p)]) - {p} == kids
  {
    WithoutLast(kids[parent], p);
  }

  lemma ForkedSlot(table: seq<Option<nat>>, slot: nat, p: nat)
    requires slot < |table| && table[slot].None? && !InTable(table, p)
    ensures ClearSlot(table[slot := Some(p)], p) == table
  {
    forall i | 0 <= i < |table| ensures table[i] != Some(p) { assert table[i] in table; }
  }

  lemma ForkedStack(stacks: map<nat, nat>, free: seq<nat>, p: nat)
    requires p !in stacks && free != []
    ensures var stacks' := stacks[p := free[0]];
            stacks' - {p} == stacks && [stacks'[p]] + free[1..] == free
  {}

  lemma WithoutLast(l: seq<nat>, x: nat)
    requires x !in l
    ensures Without(l + [x], x) == l
  {
    var i := IndexOf(l + [x], x);
    assert (l + [x])[i] == x;
  }

  lemma ReleaseSched(s: Sched, c: nat)
    requires Inv(s) && c in s.tasks && c != s.idle && s.tasks[c].state == Zombie
    ensures Inv(s.(tasks := s.tasks - {c})) && c != s.curr
  {
    var s' := s.(tasks := s.tasks - {c});
    assert SettledAt(s, c) && TaskOk(s, c);
    forall p | p in s'.tasks ensures TaskOk(s', p) { assert TaskOk(s, p); }
    forall p | p in s'.tasks && p != s.idle ensures SettledAt(s', p) { assert SettledAt(s, p); }
    if s.curr != s.idle { assert TaskOk(s, s.curr); }
  }

  lemma ReleasePids(tasks: map<nat, Task>, pids: set<nat>, c: nat)
    requires PidsOk(tasks, pids) && c in tasks && c != INIT
    ensures PidsOk(tasks - {c}, pids - {tasks[c].pid}) && 0 < tasks[c].pid < PID_MAX
  {
    var tasks', pids' := tasks - {c}, pids - {tasks[c].pid};
    assert PidOk(tasks, pids, c) && HasPid(tasks, c, tasks[c].pid);
    forall q | q in tasks' ensures PidOk(tasks', pids', q) {
      assert PidOk(tasks, pids, q) && HasPid(tasks, q, tasks[q].pid);
    }
    forall q, x: nat | q != c ensures HasPid(tasks', q, x) <==> HasPid(tasks, q, x) {}
    forall x | x in pids' ensures Taken(tasks', x) {
      assert Taken(tasks, x);
      var q :| HasPid(tasks, q, x);
      assert HasPid(tasks', q, x);
    }
  }

  lemma ReleaseTree(kids: map<nat, seq<nat>>, tasks: map<nat, Task>, c: nat)
    requires TreeOk(kids, tasks) && c in tasks && c != INIT && tasks[c].state == Zombie
    ensures var q := tasks[c].parent;
            && q in kids && c in kids[q] && q != c
            && TreeOk(kids[q := Without(kids[q], c)] - {c}, tasks - {c})
  {
    var q := tasks[c].parent;
    assert ParentIn(kids, tasks, c) && IsChild(tasks, c, q) && KidsOk(kids, tasks, c) && KidsOk(kids, tasks, q);
    WithoutProps(kids[q], c);
    var kids', tasks' := kids[q := Without(kids[q], c)] - {c}, tasks - {c};
    forall u | u in kids' ensures KidsOk(kids', tasks', u) { assert KidsOk(kids, tasks, u); }
    forall u: nat, d: nat | u in kids' ensures d in kids'[u] <==> IsChild(tasks', d, u) {
      assert d in kids[u] <==> IsChild(tasks, d, u);
    }
    forall d | d in tasks' && d != INIT ensures ParentIn(kids', tasks', d) {
      assert ParentIn(kids, tasks, d) && IsChild(tasks, d, tasks[d].parent);
      assert d in kids[tasks[d].parent];
    }
  }

  lemma ReleaseWaits(tasks: map<nat, Task>, c: nat)
    requires WaitOk(tasks)
    ensures WaitOk(tasks - {c})
  {
    var tasks' := tasks - {c};
    forall q | q in tasks' ensures WaitOkAt(tasks', q) {
      assert WaitOkAt(tasks, q);
      forall d | IsChild(tasks', d, q) ensures IsChild(tasks, d, q) {}
    }
  }

  lemma ReleaseTable(table: seq<Option<nat>>, tasks: map<nat, Task>, c: nat)
    requires TableOk(table, tasks) && c != INIT
    ensures TableOk(ClearSlot(table, c), tasks - {c})
  {
    var table' := ClearSlot(table, c);
    forall q: nat ensures InTable(table', q) <==> q in tasks - {c} {
      assert InTable(table, q) <==> q in tasks;
      if InTable(table, q) && q != c {
        var i :| 0 <= i < |table| && table[i] == Some(q);
        assert table'[i] == Some(q);
      }
      if InTable(table', q) {
        var i :| 0 <= i < |table'| && table'[i] == Some(q);
        assert table[i] == Some(q);
      }
    }
  }

  /** Releasing a zombie keeps the invariant: its pid, slot and stack are free again. */
  lemma ReleaseKInv(k: Kernel, c: nat)
    requires KInv(k) && c in k.s.tasks && c != INIT && k.s.tasks[c].state == Zombie
    ensures k.s.tasks[c].parent in k.kids && c in k.kids[k.s.tasks[c].parent] && c in k.stacks && c in k.all
    ensures KInv(Release(k, c))
  {
    ReleaseSched(k.s, c);
    ReleasePids(k.s.tasks, k.pids, c);
    ReleaseTree(k.kids, k.s.tasks, c);
    ReleaseWaits(k.s.tasks, c);
    ReleaseTable(k.table, k.s.tasks, c);
    assert StacksOk(k.stacks - {c}, [k.stacks[c]] + k.freeStacks);
    WithoutProps(k.all, c);
  }

  // ----- exit

  /** The task map after the children of p have been adopted and p has become a zombie. */
  function Buried(tasks: map<nat, Task>, p: nat, code: int): map<nat, Task>
    requires p in tasks
  {
    var tasks1 := Adopt(tasks, p);
    tasks1[p := tasks1[p].(state := Zombie, exitCode := code)]
  }

  /** Changing tasks' parents, and the state of the current one, moves nobody. */
  lemma BuriedQueued(s: Sched, code: int)
    requires Inv(s) && s.curr != s.idle && s.idle == INIT
    ensures var s' := s.(tasks := Buried(s.tasks, s.curr, code));
            Queued(s') && Settled(s', s.curr) && InActive(s', s.curr)
  {
    var s' := s.(tasks := Buried(s.tasks, s.curr, code));
    BuriedFiled(s, s', code);
    SettledSame(s, s', INIT, s.curr);
  }

  lemma BuriedFiled(s: Sched, s': Sched, code: int)
    requires Inv(s) && s.curr in s.tasks && s.curr != s.idle && s.idle == INIT
    requires s' == s.(tasks := Buried(s.tasks, s.curr, code))
    ensures Queued(s')
  {
    forall p | p in s'.tasks ensures TaskOk(s', p) {
      assert TaskOk(s, p);
      BuriedPlace(s.tasks, s.curr, code, p);
    }
  }

  /** What the run queue looks at of a task. */
  lemma BuriedPlace(tasks: map<nat, Task>, c: nat, code: int, p: nat)
    requires c in tasks && p in tasks
    ensures var t := Buried(tasks, c, code)[p];
            t.prio == tasks[p].prio && t.onRq == tasks[p].onRq && (p != c ==> t.state == tasks[p].state)
  {}

  lemma BuriedTree(kids: map<nat, seq<nat>>, tasks: map<nat, Task>, p: nat, code: int)
    requires TreeOk(kids, tasks) && p in kids && p != INIT && INIT in kids
    requires tasks[p].state == Running && tasks[INIT].state == Running
    ensures TreeOk(kids[INIT := kids[INIT] + kids[p]][p := []], Buried(tasks, p, code))
  {
    var kids', tasks' := kids[INIT := kids[INIT] + kids[p]][p := []], Buried(tasks, p, code);
    forall u | u in kids' ensures KidsOk(kids', tasks', u) {
      assert KidsOk(kids, tasks, u) && KidsOk(kids, tasks, p);
      if u == INIT {
        forall c | c in kids[INIT] ensures c !in kids[p] { assert IsChild(tasks, c, INIT); }
        NoDupConcat(kids[INIT], kids[p]);
      }
    }
    forall u: nat, c: nat | u in kids' ensures c in kids'[u] <==> IsChild(tasks', c, u) {
      assert c in kids[u] <==> IsChild(tasks, c, u);
      assert c in kids[p] <==> IsChild(tasks, c, p);
      assert c in kids[INIT] <==> IsChild(tasks, c, INIT);
    }
    forall c | c in tasks' && c != INIT ensures ParentIn(kids', tasks', c) { assert ParentIn(kids, tasks, c); }
  }

  /** What has become of task q, other than the exiting task, after the parent's channel has been woken. */
  predicate AfterExit(t: Task, t': Task, chan: Chan) {
    && t'.pid == t.pid && t'.pgrp == t.pgrp && t'.slice == t.slice && t'.waiting == t.waiting
    && (t'.parent == t.parent || t'.parent == INIT)
    && if SleepsOn(t, chan) then t'.state == Running else t'.state == t.state && t'.chan == t.chan
  }

  ghost predicate AllAfterExit(tasks: map<nat, Task>, tasks': map<nat, Task>, p: nat, chan: Chan) {
    && tasks'.Keys == tasks.Keys
    && forall q {:trigger tasks'[q]} | q in tasks && q != p :: AfterExit(tasks[q], tasks'[q], chan)
  }

  /** No lost wakeup: once the exiting task p is a zombie and its parent's channel has been woken, no task
      asleep in do_wait has a zombie child to reap. */
  lemma BuriedWaits(tasks: map<nat, Task>, p: nat, tasks': map<nat, Task>)
    requires WaitOk(tasks) && p in tasks && p in tasks' && p != INIT
    requires AllAfterExit(tasks, tasks', p, WaitChild(tasks'[p].parent))
    requires tasks'[p].waiting.None? && tasks'[p].slice == tasks[p].slice
    requires tasks'[p].parent == tasks[p].parent || tasks'[p].parent == INIT
    ensures WaitOk(tasks')
  {
    forall q | q in tasks ensures WaitOkAt(tasks', q) {
      assert WaitOkAt(tasks, q);
      if WaitsIn(tasks'[q]) {
        forall c | IsChild(tasks', c, q) ensures !ZombieMatch(tasks', c, WaitArg(tasks'[q]), tasks'[q].pgrp) {
          assert IsChild(tasks, c, q);
        }
      }
    }
  }

  function Exit(k: Kernel, code: int): Kernel
    requires KInv(k) && k.s.curr != INIT
  {
    ExitCanSchedule(k, code);
    var k1 := BecomeZombie(k, code);
    k1.(s := Schedule(k1.s))
  }

  lemma ExitCanSchedule(k: Kernel, code: int)
    requires KInv(k) && k.s.curr != INIT
    ensures var s1, s2 := k.s.(tasks := Buried(k.s.tasks, k.s.curr, code)), BecomeZombie(k, code).s;
            && CanSchedule(s2) && s2.idle == INIT && s2.curr == k.s.curr && InActive(s2, k.s.curr)
            && if s1.tasks[k.s.curr].parent != k.s.curr
               then WakesExactly(s1, s2, k.table, 0, WaitChild(s1.tasks[k.s.curr].parent)) else s2 == s1
  {
    var p := k.s.curr;
    var s1 := k.s.(tasks := Buried(k.s.tasks, p, code));
    CurrentRuns(k);
    BuriedQueued(k.s, code);
    assert SlicesOk(s1.tasks) by {
      WaitSlices(k.s.tasks);
      forall q | q in s1.tasks && q != INIT ensures MIN_TIMESLICE <= s1.tasks[q].slice <= MAX_TIMESLICE {
        assert s1.tasks[q].slice == k.s.tasks[q].slice;
      }
    }
    if s1.tasks[p].parent != p { WakeAllInv(s1, k.table, 0, WaitChild(s1.tasks[p].parent)); }
    var s2 := BecomeZombie(k, code).s;
    assert TaskOk(s2, p);
  }

  lemma ScheduleTasks(s: Sched)
    requires CanSchedule(s) && s.tasks[s.curr].state != Running
    ensures Schedule(s).tasks == s.tasks[s.curr := s.tasks[s.curr].(onRq := false)]
  {
    assert TaskOk(s, s.curr);
  }

  lemma WokenAfterExit(s: Sched, code: int, s2: Sched, table: seq<Option<nat>>, p: nat, tasks': map<nat, Task>)
    requires p in s.tasks && p != INIT && TableOk(table, s.tasks)
    requires s.tasks[p].state == Running
    requires var b := Buried(s.tasks, p, code);
             && WakesExactly(s.(tasks := b), s2, table, 0, WaitChild(b[p].parent))
             && tasks' == s2.tasks[p := s2.tasks[p].(onRq := false)]
    ensures var b := Buried(s.tasks, p, code);
            Alike(b, tasks') && p in tasks' && tasks'[p] == b[p].(onRq := false)
    ensures AllAfterExit(s.tasks, tasks', p, WaitChild(tasks'[p].parent))
  {
    var s1 := s.(tasks := Buried(s.tasks, p, code));
    forall q | q in s.tasks ensures WokenAs(s, s1, s2, p, q) { WokenOne(s, code, s1, s2, table, p, q); }
    assert table[0..] == table;
    assert WokenAt(s1, s2, table, 0, WaitChild(s1.tasks[p].parent), p) && WokenAs(s, s1, s2, p, p);
    forall q | q in s.tasks ensures AlikeAt(s1.tasks, tasks', q) { assert WokenAs(s, s1, s2, p, q); }
    forall q | q in s.tasks && q != p ensures AfterExit(s.tasks[q], tasks'[q], WaitChild(s1.tasks[p].parent)) {
      assert WokenAs(s, s1, s2, p, q);
    }
  }

  ghost predicate WokenAs(s: Sched, s1: Sched, s2: Sched, p: nat, q: nat)
    requires p in s1.tasks && q in s.tasks && q in s1.tasks && q in s2.tasks
  {
    && AlikeAt(s1.tasks, s2.tasks, q)
    && (q != p ==> AfterExit(s.tasks[q], s2.tasks[q], WaitChild(s1.tasks[p].parent)))
  }

  lemma WokenOne(s: Sched, code: int, s1: Sched, s2: Sched, table: seq<Option<nat>>, p: nat, q: nat)
    requires p in s.tasks && q in s.tasks && p != INIT && TableOk(table, s.tasks) && s.tasks[p].state == Running
    requires s1 == s.(tasks := Buried(s.tasks, p, code))
    requires WakesExactly(s1, s2, table, 0, WaitChild(s1.tasks[p].parent))
    ensures WokenAs(s, s1, s2, p, q)
  {
    assert table[0..] == table;
    assert WokenAt(s1, s2, table, 0, WaitChild(s1.tasks[p].parent), q) && InTable(table, q);
  }

  lemma ExitTasks(k: Kernel, code: int)
    requires KInv(k) && k.s.curr != INIT
    ensures var p, b, tasks' := k.s.curr, Buried(k.s.tasks, k.s.curr, code), Exit(k, code).s.tasks;
            && Alike(b, tasks') && p in tasks' && tasks'[p] == b[p].(onRq := false)
            && AllAfterExit(k.s.tasks, tasks', p, WaitChild(tasks'[p].parent))
  {
    var p, b := k.s.curr, Buried(k.s.tasks, k.s.curr, code);
    var s1, s2 := k.s.(tasks := b), BecomeZombie(k, code).s;
    CurrentRuns(k);
    ExitCanSchedule(k, code);
    assert WokenAt(s1, s2, k.table, 0, WaitChild(b[p].parent), p);
    ScheduleTasks(s2);
    WokenAfterExit(k.s, code, s2, k.table, p, Exit(k, code).s.tasks);
  }

  lemma ExitKInv(k: Kernel, code: int)
    requires KInv(k) && k.s.curr != INIT && k.s.tasks[k.s.curr].waiting.None?
    ensures KInv(Exit(k, code))
  {
    var p, b, k' := k.s.curr, Buried(k.s.tasks, k.s.curr, code), Exit(k, code);
    ExitCanSchedule(k, code);
    ScheduleInv(BecomeZombie(k, code).s);
    CurrentRuns(k);
    ExitTasks(k, code);
    BuriedTree(k.kids, k.s.tasks, p, code);
    AlikeTree(k'.kids, b, k'.s.tasks);
    BuriedWaits(k.s.tasks, p, k'.s.tasks);
    ExitPids(k.s.tasks, p, code, k'.s.tasks, k.pids);
    assert TableOk(k.table, k'.s.tasks);
  }

  lemma ExitPids(tasks: map<nat, Task>, p: nat, code: int, tasks': map<nat, Task>, pids: set<nat>)
    requires PidsOk(tasks, pids) && p in tasks && Alike(Buried(tasks, p, code), tasks')
    ensures PidsOk(tasks', pids)
  {
    var b := Buried(tasks, p, code);
    forall q | q in tasks ensures tasks'[q].pid == tasks[q].pid { assert AlikeAt(b, tasks', q); }
    SamePids(tasks, tasks', pids);
  }

  lemma WaitKInv(k: Kernel, pid: int, nohang: bool)
    requires KInv(k) && (nohang || k.s.curr != INIT)
    ensures KInv(WaitScan(k, pid, nohang).0)
  {
    var p := k.s.curr;
    match FirstZombie(k.s.tasks, k.kids[p], pid, k.s.tasks[p].pgrp)
    case Some(c) =>
      assert IsChild(k.s.tasks, c, p);
      ReleaseKInv(k, c);
    case None =>
      if HasMatch(k.s.tasks, k.kids[p], pid, k.s.tasks[p].pgrp) && !nohang { WaitSleepKInv(k, pid); }
  }
}
