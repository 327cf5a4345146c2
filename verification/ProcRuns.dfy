/** Runs of the process machinery: the events, the invariant after any sequence of them, and its
    consequences. */
module ProcRuns {
  import opened Lists
  import opened SchedSpec
  import opened ProcSpec

  /** What the current task, or the timer, does next. */
  datatype Event =
    | DoFork(mmFails: bool) | DoThread | DoExit(code: int)
    | DoWait(pid: int, nohang: bool) | DoResume
    | DoKill(pid: int) | DoSleep(chan: Chan) | DoWakeup(chan: Chan)
    | DoTick | DoYield

  /** Forks need an empty table slot; init_task neither exits nor blocks; a task that wakes up inside
      do_wait first continues there. */
  predicate Enabled(k: Kernel, e: Event)
    requires k.s.curr in k.s.tasks
  {
    var inWait := k.s.tasks[k.s.curr].waiting.Some?;
    match e
    case DoFork(_) => !inWait && FreeSlot(k.table, 0) < MAX_PROCS
    case DoThread => !inWait && FreeSlot(k.table, 0) < MAX_PROCS
    case DoExit(_) => !inWait && k.s.curr != INIT
    case DoWait(_, nohang) => !inWait && (nohang || k.s.curr != INIT)
    case DoResume => inWait
    case DoKill(pid) => !inWait && pid > 0
    case DoSleep(_) => !inWait && k.s.curr != INIT
    case DoWakeup(_) => !inWait
    case DoYield => !inWait
    case DoTick => true
  }

  function Step(k: Kernel, e: Event): Kernel
    requires KInv(k) && Enabled(k, e)
  {
    match e
    case DoFork(mmFails) => Fork(k, mmFails)
    case DoThread => KernelThread(k)
    case DoExit(code) => Exit(k, code)
    case DoWait(pid, nohang) => WaitScan(k, pid, nohang).0
    case DoResume => WaitResume(k).0
    case DoKill(pid) => Kill(k, pid)
    case DoSleep(chan) => k.(s := Doze(k.s, chan, None))
    case DoWakeup(chan) => k.(s := WakeAll(k.s, k.table, 0, chan))
    case DoTick => k.(s := TickStep(k.s))
    case DoYield => k.(s := Yield(k.s))
  }

  lemma StepKInv(k: Kernel, e: Event)
    requires KInv(k) && Enabled(k, e)
    ensures KInv(Step(k, e))
  {
    match e
    case DoFork(mmFails) =>
      CurrentRuns(k);
      ForkKInv(k, k.s.curr, k.s.tasks[k.s.curr].prio, mmFails);
    case DoThread => ForkKInv(k, INIT, DEFAULT_PRIO, false);
    case DoExit(code) => ExitKInv(k, code);
    case DoWait(pid, nohang) => WaitKInv(k, pid, nohang);
    case DoResume =>
      ForgetWait(k);
      assert WaitOkAt(k.s.tasks, k.s.curr);
      var t := k.s.tasks[k.s.curr];
      if !t.killed {
        WaitKInv(k.(s := PutTask(k.s, k.s.curr, t.(waiting := None))), t.waiting.value, false);
      }
    case DoKill(pid) => KillKInv(k, pid);
    case DoSleep(chan) => SleepKInv(k, chan);
    case DoWakeup(chan) => WakeupKInv(k, chan);
    case DoTick => TickKInv(k);
    case DoYield => YieldKInv(k);
  }

  /** fork_init and sched_init: only init_task exists, and it is current. */
  function Boot(freeStacks: seq<nat>): Kernel {
    var idle := Task(Running, MAX_PRIO - 1, false, 10, NoChan, false, None, 0, 0, INIT, INIT, 0);
    var empty := seq(MAX_PRIO, _ => []);
    Kernel(Sched(empty, empty, INIT, INIT, map[INIT := idle]), [Some(INIT)] + seq(MAX_PROCS - 1, _ => None),
           map[INIT := []], {0}, 0, {}, map[], freeStacks, [])
  }

  lemma BootKInv(freeStacks: seq<nat>)
    requires NoDup(freeStacks)
    ensures KInv(Boot(freeStacks))
  {
    var k := Boot(freeStacks);
    assert TaskOk(k.s, INIT);
    assert HasPid(k.s.tasks, INIT, 0);
    forall p: nat ensures InTable(k.table, p) <==> p in k.s.tasks { assert p == INIT ==> k.table[0] == Some(p); }
  }

  /** k' is reached from k by the given events, each of them enabled. */
  ghost predicate Reaches(k: Kernel, es: seq<Event>, k': Kernel)
    requires KInv(k)
    decreases |es|
  {
    if es == [] then k' == k
    else Enabled(k, es[0]) && (StepKInv(k, es[0]); Reaches(Step(k, es[0]), es[1..], k'))
  }

  /** The invariant holds in every reachable state. */
  lemma {:induction false} RunKInv(k: Kernel, es: seq<Event>, k': Kernel)
    requires KInv(k) && Reaches(k, es, k')
    ensures KInv(k')
    decreases |es|
  {
    if es != [] {
      StepKInv(k, es[0]);
      RunKInv(Step(k, es[0]), es[1..], k');
    }
  }

  /** No lost child-exit wakeup: in no reachable state does a task sleep in do_wait while one of its
      children is a zombie that its pid argument selects. */
  lemma NoLostWakeup(k: Kernel, es: seq<Event>, k': Kernel, p: nat, c: nat)
    requires KInv(k) && Reaches(k, es, k')
    requires p in k'.s.tasks && WaitsIn(k'.s.tasks[p]) && p in k'.kids && c in k'.kids[p]
    ensures !ZombieMatch(k'.s.tasks, c, k'.s.tasks[p].waiting.value, k'.s.tasks[p].pgrp)
  {
    RunKInv(k, es, k');
    assert WaitOkAt(k'.s.tasks, p) && IsChild(k'.s.tasks, c, p);
  }

  /** Process-tree integrity in every reachable state. */
  lemma TreeIntegrity(k: Kernel, es: seq<Event>, k': Kernel, c: nat)
    requires KInv(k) && Reaches(k, es, k') && c in k'.s.tasks && c != INIT
    ensures var q := k'.s.tasks[c].parent;
            && q in k'.s.tasks && q in k'.kids && multiset(k'.kids[q])[c] == 1
            && k'.s.tasks[c].realParent == q && (forall u | u in k'.kids && u != q :: c !in k'.kids[u])
            && multiset(k'.all)[c] == 1
  {
    RunKInv(k, es, k');
    var q := k'.s.tasks[c].parent;
    assert ParentIn(k'.kids, k'.s.tasks, c) && IsChild(k'.s.tasks, c, q) && KidsOk(k'.kids, k'.s.tasks, q);
    OnceInList(k'.kids[q], c);
    OnceInList(k'.all, c);
  }

  lemma OnceInList(l: seq<nat>, c: nat)
    requires NoDup(l) && c in l
    ensures multiset(l)[c] == 1
  {
    var i := IndexOf(l, c);
    assert l == l[..i] + [c] + l[i + 1..];
    assert c !in l[..i] && c !in l[i + 1..];
  }

  /** Task z, if it still exists, is a zombie with the same pid and exit code. */
  predicate StillZombie(tasks: map<nat, Task>, tasks': map<nat, Task>, z: nat)
    requires z in tasks
  {
    z in tasks' ==>
      tasks'[z].state == Zombie && tasks'[z].pid == tasks[z].pid && tasks'[z].exitCode == tasks[z].exitCode
  }

  /** A zombie is never queued, current, woken or changed: from one step to the next it either stays a
      zombie with its pid and exit code or has been released. */
  lemma ZombieStep(k: Kernel, e: Event, z: nat)
    requires KInv(k) && Enabled(k, e) && z in k.s.tasks && k.s.tasks[z].state == Zombie
    ensures !k.s.tasks[z].onRq && z != k.s.curr && z != INIT
    ensures StillZombie(k.s.tasks, Step(k, e).s.tasks, z)
  {
    CurrentRuns(k);
    assert SettledAt(k.s, z);
    match e
    case DoExit(code) => ZombieExit(k, code, z);
    case DoWakeup(chan) => ZombieWakeup(k, chan, z);
    case DoSleep(chan) => DozeInv(k.s, chan, None);
    case DoWait(pid, nohang) => ZombieWait(k, pid, nohang, z);
    case DoResume => ZombieResume(k, z);
    case DoFork(mmFails) => ZombieFork(k, k.s.curr, k.s.tasks[k.s.curr].prio, mmFails, z);
    case DoThread => ZombieFork(k, INIT, DEFAULT_PRIO, false, z);
    case DoKill(pid) => ZombieKill(k, pid, z);
    case DoTick => ZombieTick(k.s, z);
    case DoYield =>
  }

  lemma ZombieExit(k: Kernel, code: int, z: nat)
    requires KInv(k) && k.s.curr != INIT && z in k.s.tasks && k.s.tasks[z].state == Zombie && z != k.s.curr
    ensures StillZombie(k.s.tasks, Exit(k, code).s.tasks, z)
  {
    CurrentRuns(k);
    ExitTasks(k, code);
    assert AlikeAt(Buried(k.s.tasks, k.s.curr, code), Exit(k, code).s.tasks, z);
  }

  lemma ZombieWakeup(k: Kernel, chan: Chan, z: nat)
    requires KInv(k) && z in k.s.tasks && k.s.tasks[z].state == Zombie
    ensures StillZombie(k.s.tasks, WakeAll(k.s, k.table, 0, chan).tasks, z)
  {
    CurrentRuns(k);
    WaitSlices(k.s.tasks);
    WakeAllInv(k.s, k.table, 0, chan);
    assert WokenAt(k.s, WakeAll(k.s, k.table, 0, chan), k.table, 0, chan, z);
  }

  lemma ZombieResume(k: Kernel, z: nat)
    requires KInv(k) && k.s.tasks[k.s.curr].waiting.Some? && z in k.s.tasks && k.s.tasks[z].state == Zombie
             && z != k.s.curr
    ensures StillZombie(k.s.tasks, WaitResume(k).0.s.tasks, z)
  {
    ForgetWait(k);
    assert WaitOkAt(k.s.tasks, k.s.curr);
    var t := k.s.tasks[k.s.curr];
    if !t.killed {
      ZombieWait(k.(s := PutTask(k.s, k.s.curr, t.(waiting := None))), t.waiting.value, false, z);
    }
  }

  lemma ZombieFork(k: Kernel, parent: nat, prio: int, mmFails: bool, z: nat)
    requires Owned(k) && |k.s.active| == MAX_PRIO && parent in k.kids && z in k.s.tasks
    ensures z in ForkFrom(k, parent, prio, mmFails).s.tasks
    ensures ForkFrom(k, parent, prio, mmFails).s.tasks[z] == k.s.tasks[z]
  {}

  lemma ZombieKill(k: Kernel, pid: int, z: nat)
    requires |k.s.active| == MAX_PRIO && z in k.s.tasks && k.s.tasks[z].state == Zombie
    ensures z in Kill(k, pid).s.tasks
    ensures Kill(k, pid).s.tasks[z] == k.s.tasks[z].(killed := Kill(k, pid).s.tasks[z].killed)
  {}

  lemma ZombieTick(s: Sched, z: nat)
    requires Inv(s) && z in s.tasks && z != s.curr
    ensures z in TickStep(s).tasks && TickStep(s).tasks[z] == s.tasks[z]
  {}

  lemma ZombieWait(k: Kernel, pid: int, nohang: bool, z: nat)
    requires KInv(k) && (nohang || k.s.curr != INIT) && z in k.s.tasks && z != k.s.curr
    ensures z in WaitScan(k, pid, nohang).0.s.tasks ==> WaitScan(k, pid, nohang).0.s.tasks[z] == k.s.tasks[z]
  {
    var p := k.s.curr;
    if p != INIT { DozeInv(k.s, WaitChild(p), Some(pid)); }
  }

  /** A fork that finds all it needs makes one task: a runnable child with a pid nobody had, queued at the given
      priority and last in its parent's list.  Nothing else about any task changes. */
  lemma ForkTheorem(k: Kernel, parent: nat, prio: int)
    requires KInv(k) && parent in k.kids && CanFork(k, false)
    ensures var k', p := ForkFrom(k, parent, prio, false), FreeTask(k.cache).value;
            && p !in k.s.tasks && k'.s.tasks.Keys == k.s.tasks.Keys + {p} && k'.s.curr == k.s.curr
            && (forall q | q in k.s.tasks :: k'.s.tasks[q] == k.s.tasks[q])
            && k'.kids == k.kids[parent := k.kids[parent] + [p]][p := []]
            && Inv(k'.s) && InActive(k'.s, p)
            && var t := k'.s.tasks[p];
            && t.state == Running && t.prio == prio && t.parent == parent && !t.killed && t.waiting.None?
            && 0 < t.pid < PID_MAX && t.pid !in k.pids && k'.pids == k.pids + {t.pid}
  {
    var p, pid := FreeTask(k.cache).value, NextPid(k.pids, k.lastPid).value;
    assert p !in k.s.tasks;
    WakeUpNewInv(k.s, p, NewTask(prio, pid, parent));
    assert PidOk(k.s.tasks, k.pids, INIT);
  }

  /** After do_exit the task is a zombie that carries the code, is on no queue and not current, and its
      children, in their order, are init_task's last children. */
  lemma ExitTheorem(k: Kernel, code: int)
    requires KInv(k) && k.s.curr != INIT
    ensures var p, k' := k.s.curr, Exit(k, code);
            && p in k'.s.tasks && k'.s.tasks[p].state == Zombie && k'.s.tasks[p].exitCode == code
            && k'.s.tasks[p].pid == k.s.tasks[p].pid && !k'.s.tasks[p].onRq && k'.s.curr != p
            && k'.kids == k.kids[INIT := k.kids[INIT] + k.kids[p]][p := []]
            && forall c | c in k.kids[p] && c != p :: c in k'.s.tasks && k'.s.tasks[c].parent == INIT
  {
    var p, k', b := k.s.curr, Exit(k, code), Buried(k.s.tasks, k.s.curr, code);
    ExitTasks(k, code);
    ExitCanSchedule(k, code);
    ScheduleInv(BecomeZombie(k, code).s);
    assert TaskOk(k'.s, p);
    forall c | c in k.kids[p] && c != p ensures c in k'.s.tasks && k'.s.tasks[c].parent == INIT {
      assert IsChild(k.s.tasks, c, p);
      assert AlikeAt(b, k'.s.tasks, c);
    }
  }

  /** kill_process marks exactly the task with that pid and makes it runnable if it sleeps; without such a task
      nothing changes. */
  lemma KillTheorem(k: Kernel, pid: int)
    requires KInv(k)
    ensures (forall p | p in k.s.tasks :: k.s.tasks[p].pid != pid) ==> Kill(k, pid) == k
    ensures forall p | p in k.s.tasks && k.s.tasks[p].pid == pid ::
              var t := k.s.tasks[p].(killed := true);
              Kill(k, pid).s.tasks == k.s.tasks[p := if t.state == Interruptible || t.state == Uninterruptible
                                                     then t.(state := Running, onRq := true) else t]
  {
    var r := FindByPid(k.s.tasks, k.table, pid, 0);
    forall p | p in k.s.tasks && k.s.tasks[p].pid == pid ensures r == Some(p) {
      assert InTable(k.table, p) && PidOk(k.s.tasks, k.pids, p) && HasPid(k.s.tasks, p, pid);
      var j :| 0 <= j < |k.table| && k.table[j] == Some(p);
      assert r.Some? && HasPid(k.s.tasks, r.value, pid);
    }
    if r.Some? {
      assert SettledAt(k.s, r.value) || r.value == INIT;
    }
  }

  /** do_wait returns the pid and exit code of a zombie child its argument selects, and that child is gone
      afterwards; it reports no children exactly when no child is selected. */
  lemma WaitReports(k: Kernel, pid: int, nohang: bool)
    requires KInv(k) && (nohang || k.s.curr != INIT)
    ensures var (k', out) := WaitScan(k, pid, nohang);
            var p, tasks := k.s.curr, k.s.tasks;
            && (out.Reaped? ==> exists c :: c in k.kids[p] && ZombieMatch(tasks, c, pid, tasks[p].pgrp)
                                  && out == Reaped(tasks[c].pid, tasks[c].exitCode) && c !in k'.s.tasks)
            && (out.Reaped? <==> exists c :: c in k.kids[p] && ZombieMatch(tasks, c, pid, tasks[p].pgrp))
            && (out.NoChild? <==> forall c | c in k.kids[p] :: !(c in tasks && Matches(tasks[c], pid, tasks[p].pgrp)))
  {
    var p, tasks := k.s.curr, k.s.tasks;
    forall c | c in k.kids[p] && c in tasks && Matches(tasks[c], pid, tasks[p].pgrp)
      ensures HasMatch(tasks, k.kids[p], pid, tasks[p].pgrp)
    {
      var i :| 0 <= i < |k.kids[p]| && k.kids[p][i] == c;
    }
  }

  // ----- conservation

  ghost function Stock(k: Kernel): set<nat> { k.stacks.Values + set x | x in k.freeStacks }

  /** Kernel stacks are neither lost nor invented by any step. */
  lemma StockKept(k: Kernel, e: Event)
    requires KInv(k) && Enabled(k, e)
    ensures Stock(Step(k, e)) == Stock(k)
  {
    match e
    case DoFork(mmFails) => StockFork(k, k.s.curr, k.s.tasks[k.s.curr].prio, mmFails);
    case DoThread => StockFork(k, INIT, DEFAULT_PRIO, false);
    case DoWait(pid, nohang) => StockWait(k, pid, nohang);
    case DoResume =>
      ForgetWait(k);
      assert WaitOkAt(k.s.tasks, k.s.curr);
      var t := k.s.tasks[k.s.curr];
      if !t.killed {
        StockWait(k.(s := PutTask(k.s, k.s.curr, t.(waiting := None))), t.waiting.value, false);
      }
    case _ =>
  }

  lemma StockFork(k: Kernel, parent: nat, prio: int, mmFails: bool)
    requires KInv(k) && parent in k.kids
    ensures Stock(ForkFrom(k, parent, prio, mmFails)) == Stock(k)
  {
    if CanFork(k, mmFails) {
      var p, f := FreeTask(k.cache).value, k.freeStacks;
      assert p !in k.stacks;
      assert f == [f[0]] + f[1..];
      assert k.stacks[p := f[0]].Values == k.stacks.Values + {f[0]} by {
        forall x | x in k.stacks.Values ensures x in k.stacks[p := f[0]].Values {
          var q :| q in k.stacks && k.stacks[q] == x;
          assert q in k.stacks[p := f[0]];
        }
        assert p in k.stacks[p := f[0]];
      }
    }
  }

  lemma StockWait(k: Kernel, pid: int, nohang: bool)
    requires KInv(k) && (nohang || k.s.curr != INIT)
    ensures Stock(WaitScan(k, pid, nohang).0) == Stock(k)
  {
    var p := k.s.curr;
    match FirstZombie(k.s.tasks, k.kids[p], pid, k.s.tasks[p].pgrp)
    case None =>
    case Some(c) =>
      assert IsChild(k.s.tasks, c, p);
      var m := k.stacks - {c};
      forall x | x in k.stacks.Values ensures x in m.Values + {k.stacks[c]} {
        var q :| q in k.stacks && k.stacks[q] == x;
        assert q != c ==> q in m;
      }
      forall x | x in m.Values ensures x in k.stacks.Values {
        var q :| q in m && m[q] == x;
        assert q in k.stacks;
      }
  }

  /** As many pids are taken as there are unreleased tasks, init_task included. */
  lemma PidCount(k: Kernel)
    requires KInv(k)
    ensures |k.pids| == |k.s.tasks| == |k.cache| + 1 == |k.stacks| + 1
  {
    PidsBijection(k.s.tasks, k.pids);
    assert k.s.tasks.Keys == k.cache + {INIT};
  }

  lemma {:induction false} PidsBijection(tasks: map<nat, Task>, pids: set<nat>)
    requires PidsOk(tasks, pids) && INIT in tasks
    ensures |pids| == |tasks|
    decreases |tasks|
  {
    assert |tasks| == |tasks.Keys|;
    if c :| c in tasks && c != INIT {
      assert PidOk(tasks, pids, c);
      ReleasePids(tasks, pids, c);
      assert (tasks - {c}).Keys == tasks.Keys - {c};
      PidsBijection(tasks - {c}, pids - {tasks[c].pid});
    } else {
      assert tasks.Keys == {INIT};
      assert pids == {0} by {
        assert PidOk(tasks, pids, INIT);
        forall x | x in pids ensures x == 0 { assert Taken(tasks, x); }
      }
    }
  }

  // ----- a full task table

  /** n kernel threads have been started after boot: they fill slots 1 to n of the cache and of task_table. */
  ghost predicate Crowded(k: Kernel, n: nat) { KInv(k) && Filled(k, n) }

  ghost predicate Filled(k: Kernel, n: nat) {
    && n < MAX_PROCS && k.s.curr == INIT && INIT in k.s.tasks && k.s.tasks[INIT].waiting.None?
    && |k.freeStacks| + n == MAX_PROCS && |k.table| == MAX_PROCS
    && (forall p: nat :: p in k.cache <==> 1 <= p <= n)
    && (forall i | 0 <= i < MAX_PROCS :: k.table[i] == if i <= n then Some(i) else None)
  }

  lemma CrowdedCanFork(k: Kernel, n: nat)
    requires Crowded(k, n)
    ensures CanFork(k, false) && FreeTask(k.cache) == Some(n + 1) && FreeSlot(k.table, 0) == n + 1
  {
    FreeFromAt(k.cache, 1, TASK_CACHE_SIZE + 1, n + 1);
    var x := PidLeft(k);
    NextPidFailsExactly(k.pids, k.lastPid);
  }

  /** There are more pids than task slots. */
  lemma PidLeft(k: Kernel) returns (x: nat)
    requires KInv(k)
    ensures x < PID_MAX && x !in k.pids
  {
    PidCount(k);
    SubsetSize(k.cache, Below(TASK_CACHE_SIZE + 1));
    if Below(PID_MAX) <= k.pids { SubsetSize(Below(PID_MAX), k.pids); }
    x :| x in Below(PID_MAX) && x !in k.pids;
  }

  lemma ForkParts(k: Kernel, p: nat, i: nat)
    requires |k.s.active| == MAX_PRIO && INIT in k.kids && CanFork(k, false)
    requires FreeTask(k.cache) == Some(p) && FreeSlot(k.table, 0) == i < |k.table|
    ensures var k' := KernelThread(k);
            && k'.cache == k.cache + {p} && k'.table == k.table[i := Some(p)] && k'.freeStacks == k.freeStacks[1..]
            && k'.s.curr == k.s.curr && (INIT in k.s.tasks && p != INIT ==> k'.s.tasks[INIT] == k.s.tasks[INIT])
  {}

  lemma CrowdedStep(k: Kernel, n: nat)
    requires Crowded(k, n) && n + 1 < MAX_PROCS
    ensures Enabled(k, DoThread) && Crowded(Step(k, DoThread), n + 1)
  {
    CrowdedCanFork(k, n);
    StepKInv(k, DoThread);
    FilledStep(k, n);
  }

  lemma FilledStep(k: Kernel, n: nat)
    requires Filled(k, n) && n + 1 < MAX_PROCS && |k.s.active| == MAX_PRIO && INIT in k.kids && CanFork(k, false)
    requires FreeTask(k.cache) == Some(n + 1) && FreeSlot(k.table, 0) == n + 1
    ensures Filled(KernelThread(k), n + 1)
  {
    ForkParts(k, n + 1, n + 1);
  }

  function Threads(n: nat): (es: seq<Event>)
    ensures |es| == n && forall e | e in es :: e == DoThread
  {
    if n == 0 then [] else [DoThread] + Threads(n - 1)
  }

  /** Starting m more threads. */
  lemma {:induction false} CrowdedRun(k: Kernel, n: nat, m: nat) returns (k': Kernel)
    requires Crowded(k, n) && n + m < MAX_PROCS
    ensures Crowded(k', n + m) && Reaches(k, Threads(m), k')
    decreases m
  {
    if m == 0 {
      k' := k;
    } else {
      CrowdedStep(k, n);
      k' := CrowdedRun(Step(k, DoThread), n + 1, m - 1);
      assert Threads(m)[0] == DoThread && Threads(m)[1..] == Threads(m - 1);
    }
  }

  /** With a full task_table one more thread can still be started: it runs, but it is not listed. */
  lemma Overflow(k: Kernel, n: nat)
    requires Crowded(k, n) && n + 1 == MAX_PROCS
    ensures INIT in k.kids && CanFork(k, false) && |k.s.active| == MAX_PRIO
    ensures var k', p := KernelThread(k), FreeTask(k.cache).value;
            p in k'.s.tasks && InActive(k'.s, p) && !InTable(k'.table, p) && !KInv(k')
  {
    CrowdedCanFork(k, n);
    ForkTheorem(k, INIT, DEFAULT_PRIO);
    ForkKInv(k, INIT, DEFAULT_PRIO, false);
    assert !InTable(k.table, n + 1);
  }

  /** 63 kernel threads after boot fill task_table.  One more can still be started: it runs, but it is not
      listed, so that the invariant is lost. */
  lemma TableOverflows(freeStacks: seq<nat>, n: nat) returns (k: Kernel)
    requires NoDup(freeStacks) && |freeStacks| == MAX_PROCS == n + 1
    ensures KInv(Boot(freeStacks)) && Reaches(Boot(freeStacks), Threads(n), k) && KInv(k) && CanFork(k, false)
    ensures var k', p := KernelThread(k), FreeTask(k.cache).value;
            p in k'.s.tasks && InActive(k'.s, p) && !InTable(k'.table, p) && !KInv(k')
  {
    BootKInv(freeStacks);
    assert Crowded(Boot(freeStacks), 0);
    k := CrowdedRun(Boot(freeStacks), 0, n);
    Overflow(k, n);
  }
}
