/** The process table, the task cache and the process lists as the kernel keeps them: fork, exit, wait and
    kill with their search loops and cleanup paths, proved against the steps of ProcSpec. */
module Process {
  import opened Lists
  import opened Bitmap
  import opened SchedSpec
  import opened ProcSpec
  import opened PidMap
  import opened RunQueue
  import ProcRuns

  /** The tasks whose bit is set in task_cache_bitmap. */
  ghost function TaskSet(w: nat): set<nat> {
    set t | 1 <= t <= TASK_CACHE_SIZE && CacheBit(w, t)
  }

  predicate CacheBit(w: nat, t: nat) { t > 0 && WordBit(w, t - 1) }

  lemma SetTask(w: nat, t: nat)
    requires w < WORD_VALUES && 1 <= t <= TASK_CACHE_SIZE
    ensures TaskSet(WordSet(w, t - 1)) == TaskSet(w) + {t} && WordSet(w, t - 1) < WORD_VALUES
    ensures TaskSet(WordClear(w, t - 1)) == TaskSet(w) - {t} && WordClear(w, t - 1) < WORD_VALUES
  {
    WordKept(w, t - 1);
    forall u | 1 <= u <= TASK_CACHE_SIZE
      ensures u in TaskSet(WordSet(w, t - 1)) <==> u in TaskSet(w) + {t}
      ensures u in TaskSet(WordClear(w, t - 1)) <==> u in TaskSet(w) - {t}
    {
      WordSetBit(w, t - 1, u - 1);
      WordClearBit(w, t - 1, u - 1);
    }
  }

  /** The entries of task_table are tasks. */
  ghost predicate TableRefs(table: seq<Option<nat>>, tasks: map<nat, Task>) {
    forall i | 0 <= i < |table| && table[i].Some? :: table[i].value in tasks
  }

  lemma TableHasTasks(table: seq<Option<nat>>, tasks: map<nat, Task>)
    requires TableOk(table, tasks)
    ensures TableRefs(table, tasks)
  {
    forall i | 0 <= i < |table| && table[i].Some? ensures table[i].value in tasks {
      assert InTable(table, table[i].value);
    }
  }

  /** The tasks with those in l moved to init_task. */
  function Moved(tasks: map<nat, Task>, l: seq<nat>): map<nat, Task> {
    map c | c in tasks :: if c in l then tasks[c].(parent := INIT, realParent := INIT) else tasks[c]
  }

  lemma MovedNext(tasks: map<nat, Task>, l: seq<nat>, n: nat)
    requires n < |l| && l[n] in tasks
    ensures Moved(tasks, l[..n + 1])
              == Moved(tasks, l[..n])[l[n] := Moved(tasks, l[..n])[l[n]].(parent := INIT, realParent := INIT)]
  {
    assert l[..n + 1] == l[..n] + [l[n]];
  }

  /** The children lists after the first n children of p have moved to init_task's list. */
  function HandOver(kids: map<nat, seq<nat>>, p: nat, n: nat): map<nat, seq<nat>>
    requires p in kids && INIT in kids && n <= |kids[p]|
  {
    kids[INIT := kids[INIT] + kids[p][..n]][p := kids[p][n..]]
  }

  lemma HandOverStart(kids: map<nat, seq<nat>>, p: nat)
    requires p in kids && INIT in kids && p != INIT
    ensures HandOver(kids, p, 0) == kids
  {
    assert kids[INIT] + kids[p][..0] == kids[INIT] && kids[p][0..] == kids[p];
  }

  lemma HandOverNext(kids: map<nat, seq<nat>>, p: nat, n: nat)
    requires p in kids && INIT in kids && p != INIT && n < |kids[p]|
    ensures var k := HandOver(kids, p, n);
            HandOver(kids, p, n + 1) == k[p := k[p][1..]][INIT := k[INIT] + [kids[p][n]]]
  {
    assert kids[p][..n + 1] == kids[p][..n] + [kids[p][n]];
    assert kids[INIT] + kids[p][..n + 1] == kids[INIT] + kids[p][..n] + [kids[p][n]];
    assert kids[p][n..][1..] == kids[p][n + 1..];
  }

  lemma MovedAll(kids: map<nat, seq<nat>>, tasks: map<nat, Task>, p: nat)
    requires TreeOk(kids, tasks) && p in kids
    ensures Moved(tasks, kids[p]) == Adopt(tasks, p)
  {
    forall c | c in tasks ensures c in kids[p] <==> c != INIT && tasks[c].parent == p {
      assert c in kids[p] <==> IsChild(tasks, c, p);
    }
  }

  /** do_exit sets the exit code before the children are moved and the state afterwards. */
  lemma ExitCodeTree(kids: map<nat, seq<nat>>, tasks: map<nat, Task>, p: nat, code: int)
    requires TreeOk(kids, tasks) && p in tasks
    ensures TreeOk(kids, tasks[p := tasks[p].(exitCode := code)])
  {
    var tasks1 := tasks[p := tasks[p].(exitCode := code)];
    forall q | q in kids ensures KidsOk(kids, tasks1, q) { assert KidsOk(kids, tasks, q); }
    forall q: nat, c: nat | q in kids ensures c in kids[q] <==> IsChild(tasks1, c, q) {
      assert c in kids[q] <==> IsChild(tasks, c, q);
    }
    forall c | c in tasks1 && c != INIT ensures ParentIn(kids, tasks1, c) { assert ParentIn(kids, tasks, c); }
  }

  lemma ExitCodeFirst(tasks: map<nat, Task>, p: nat, code: int)
    requires p in tasks
    ensures var tasks1 := Adopt(tasks[p := tasks[p].(exitCode := code)], p);
            tasks1[p := tasks1[p].(state := Zombie)] == Buried(tasks, p, code)
  {}

  /** do_exit up to its call of schedule(), seen from the run queue. */
  function ExitSched(s: Sched, table: seq<Option<nat>>, code: int): Sched
    requires s.curr in s.tasks && |s.active| == MAX_PRIO
  {
    var p, s1 := s.curr, s.(tasks := Buried(s.tasks, s.curr, code));
    if s1.tasks[p].parent != p then WakeAll(s1, table, 0, WaitChild(s1.tasks[p].parent)) else s1
  }

  lemma ExitSteps(k: Kernel, code: int)
    requires KInv(k) && k.s.curr != INIT
    ensures k.s.curr in k.kids && INIT in k.kids && TableRefs(k.table, k.s.tasks) && TreeOk(k.kids, k.s.tasks)
    ensures var p, s2 := k.s.curr, ExitSched(k.s, k.table, code);
            && CanSchedule(s2)
            && Exit(k, code) == k.(s := Schedule(s2), kids := k.kids[INIT := k.kids[INIT] + k.kids[p]][p := []])
  {
    ExitCanSchedule(k, code);
    TableHasTasks(k.table, k.s.tasks);
  }

  /** What release_task relies on. */
  ghost predicate Releasable(tasks: map<nat, Task>, kids: map<nat, seq<nat>>, stacks: map<nat, nat>,
                             table: seq<Option<nat>>, all: seq<nat>, c: nat)
  {
    && c in tasks && tasks[c].parent in kids && c in kids[tasks[c].parent] && c in stacks && c in all
    && 1 <= c <= TASK_CACHE_SIZE && |table| == MAX_PROCS
    && forall i, j | 0 <= i < j < MAX_PROCS && table[i].Some? :: table[i] != table[j]
  }

  /** What a pass of do_wait relies on. */
  lemma WaitSteps(k: Kernel, pid: int)
    requires KInv(k)
    ensures k.s.curr in k.kids && forall c | c in k.kids[k.s.curr] :: c in k.s.tasks
    ensures var z := FirstZombie(k.s.tasks, k.kids[k.s.curr], pid, k.s.tasks[k.s.curr].pgrp);
            z.Some? ==> Releasable(k.s.tasks, k.kids, k.stacks, k.table, k.all, z.value)
  {
    forall c | c in k.kids[k.s.curr] ensures IsChild(k.s.tasks, c, k.s.curr) {}
    var z := FirstZombie(k.s.tasks, k.kids[k.s.curr], pid, k.s.tasks[k.s.curr].pgrp);
    if z.Some? { ReleaseKInv(k, z.value); }
  }

  lemma MatchNext(tasks: map<nat, Task>, l: seq<nat>, i: nat, pid: int, pgrp: int)
    requires i < |l| && l[i] in tasks
    ensures HasMatch(tasks, l[..i + 1], pid, pgrp) <==>
              HasMatch(tasks, l[..i], pid, pgrp) || Matches(tasks[l[i]], pid, pgrp)
  {
    assert l[..i + 1] == l[..i] + [l[i]] && l[..i + 1][i] == l[i];
    if HasMatch(tasks, l[..i], pid, pgrp) {
      var j :| 0 <= j < i && l[..i][j] in tasks && Matches(tasks[l[..i][j]], pid, pgrp);
      assert l[..i + 1][j] == l[..i][j];
    }
  }

  lemma DozeReady(s: Sched, chan: Chan, waiting: Option<int>)
    requires Inv(s) && s.curr != s.idle
    ensures CanSchedule(PutTask(s, s.curr, s.tasks[s.curr].(chan := chan, state := Interruptible, waiting := waiting)))
  {
    var t := s.tasks[s.curr].(chan := chan, state := Interruptible, waiting := waiting);
    assert TaskOk(s, s.curr);
    RetouchQueued(s, s.curr, t);
    SettledSame(s, PutTask(s, s.curr, t), s.idle, s.curr);
  }

  class Procs {
    const rq: Rq
    const pids: Pids
    const table: array<Option<nat>>
    var cacheBits: nat
    var kids: map<nat, seq<nat>>
    var stacks: map<nat, nat>
    var freeStacks: seq<nat>
    var all: seq<nat>

    ghost predicate Valid()
      reads this, rq, pids, pids.bitmap, table
    {
      rq.Valid() && pids.Valid() && table.Length == MAX_PROCS && cacheBits < WORD_VALUES
    }

    ghost function View(): Kernel
      requires pids.bitmap.Length == PID_WORDS
      reads this, rq, pids, pids.bitmap, table
    {
      Kernel(rq.View(), table[..], kids, PidSet(pids.bitmap[..]), pids.lastPid, TaskSet(cacheBits),
             stacks, freeStacks, all)
    }

    /** fork_init and sched_init: the state runs start in. */
    constructor (free: seq<nat>)
      ensures Valid() && View() == ProcRuns.Boot(free)
      ensures fresh(rq) && fresh(pids) && fresh(pids.bitmap) && fresh(table)
    {
      rq := new Rq(INIT, Task(Running, MAX_PRIO - 1, false, 10, NoChan, false, None, 0, 0, INIT, INIT, 0));
      pids := new Pids();
      table := new Option<nat>[MAX_PROCS](i => if i == 0 then Some(INIT) else None);
      cacheBits, kids, stacks, freeStacks, all := 0, map[INIT := []], map[], free, [];
      new;
      forall t | 1 <= t <= TASK_CACHE_SIZE ensures !CacheBit(0, t) { ZeroWord(t - 1); }
      assert TaskSet(0) == {};
      assert table[..] == ProcRuns.Boot(free).table;
      assert rq.View() == ProcRuns.Boot(free).s;
    }

    /** alloc_task_struct: the lowest free slot of the cache. */
    method AllocTaskStruct() returns (r: Option<nat>)
      requires cacheBits < WORD_VALUES
      modifies this`cacheBits
      ensures cacheBits < WORD_VALUES && r == FreeTask(old(TaskSet(cacheBits)))
      ensures TaskSet(cacheBits) == old(TaskSet(cacheBits)) + if r.Some? then {r.value} else {}
    {
      ghost var cache := TaskSet(cacheBits);
      var i := 0;
      while i < TASK_CACHE_SIZE
        invariant 0 <= i <= TASK_CACHE_SIZE && FreeTask(cache) == FreeFrom(cache, i + 1, TASK_CACHE_SIZE + 1)
      {
        assert i + 1 in cache <==> CacheBit(cacheBits, i + 1);
        if !WordBit(cacheBits, i) {
          MarkTask(i + 1);
          return Some(i + 1);
        }
        i := i + 1;
      }
      return None;
    }

    method MarkTask(p: nat)
      requires cacheBits < WORD_VALUES && 1 <= p <= TASK_CACHE_SIZE
      modifies this`cacheBits
      ensures cacheBits < WORD_VALUES && TaskSet(cacheBits) == old(TaskSet(cacheBits)) + {p}
    {
      SetTask(cacheBits, p);
      cacheBits := WordSet(cacheBits, p - 1);
    }

    method FreeTaskStruct(p: nat)
      requires Valid() && 1 <= p <= TASK_CACHE_SIZE
      modifies this`cacheBits
      ensures Valid() && TaskSet(cacheBits) == old(TaskSet(cacheBits)) - {p}
    {
      SetTask(cacheBits, p);
      cacheBits := WordClear(cacheBits, p - 1);
    }

    /** copy_process and kernel_thread, up to and including wake_up_new_task; -1 stands for an error. */
    method CopyProcess(parent: nat, prio: int, mmFails: bool) returns (r: int)
      requires Valid() && parent in kids
      modifies this, rq, pids, pids.bitmap, table
      ensures Valid() && View() == ForkFrom(old(View()), parent, prio, mmFails)
      ensures r == if old(CanFork(View(), mmFails)) then pids.lastPid else -1
    {
      var p, stack, pid := Acquire(mmFails);
      if pid >= 0 { Install(p, pid, stack, parent, prio); }
      return pid;
    }

    /** The part of fork that can fail: a task slot, a kernel stack, a pid and an address space, all of them
        or, after the cleanup, none. */
    method Acquire(mmFails: bool) returns (p: nat, stack: nat, pid: int)
      requires Valid()
      modifies this`cacheBits, this`freeStacks, pids, pids.bitmap
      ensures Valid() && pid >= -1
      ensures var cache, taken, last := old(TaskSet(cacheBits)), old(PidSet(pids.bitmap[..])), old(pids.lastPid);
              var can := CanTake(cache, old(freeStacks), taken, last);
              && (pid >= 0 <==> can && !mmFails)
              && (pid >= 0 ==>
                    && Some(p) == FreeTask(cache) && stack == old(freeStacks)[0] && Some(pid) == NextPid(taken, last)
                    && TaskSet(cacheBits) == cache + {p} && freeStacks == old(freeStacks)[1..]
                    && PidSet(pids.bitmap[..]) == taken + {pid} && pids.lastPid == pid)
              && (pid < 0 ==>
                    && TaskSet(cacheBits) == cache && freeStacks == old(freeStacks) && PidSet(pids.bitmap[..]) == taken
                    && pids.lastPid == if can then NextPid(taken, last).value else last)
    {
      ghost var cache := TaskSet(cacheBits);
      var slot := AllocTaskStruct();
      if slot.None? { return 0, 0, -1; }
      p := slot.value;
      assert p !in cache && cache + {p} - {p} == cache;
      if freeStacks == [] {
        FreeTaskStruct(p);
        return p, 0, -1;
      }
      stack := freeStacks[0];
      freeStacks := freeStacks[1..];
      pid := AcquirePid(mmFails);
      if pid < 0 { GiveBack(p, stack); }
    }

    /** alloc_pid, then copy_mm; when that fails the pid is given back. */
    method AcquirePid(mmFails: bool) returns (pid: int)
      requires Valid()
      modifies pids, pids.bitmap
      ensures Valid()
      ensures var was, next := old(PidSet(pids.bitmap[..])), NextPid(old(PidSet(pids.bitmap[..])), old(pids.lastPid));
              && pid == (if next.Some? && !mmFails then next.value else -1)
              && pids.lastPid == (if next.Some? then next.value else old(pids.lastPid))
              && PidSet(pids.bitmap[..]) == (if pid >= 0 then was + {pid} else was)
    {
      pid := pids.AllocPid();
      if pid >= 0 && mmFails {
        pids.FreePid(pid);
        pid := -1;
      }
    }

    method GiveBack(p: nat, stack: nat)
      requires Valid() && 1 <= p <= TASK_CACHE_SIZE
      modifies this`cacheBits, this`freeStacks
      ensures Valid() && TaskSet(cacheBits) == old(TaskSet(cacheBits)) - {p} && freeStacks == [stack] + old(freeStacks)
    {
      freeStacks := [stack] + freeStacks;
      FreeTaskStruct(p);
    }

    /** The part of fork that cannot fail: lists, process table, run queue. */
    method Install(p: nat, pid: int, stack: nat, parent: nat, prio: int)
      requires rq.Valid() && table.Length == MAX_PROCS && parent in kids
      modifies this`kids, this`stacks, this`all, rq, table
      ensures rq.Valid() && rq.View() == WakeUpNew(old(rq.View()), p, NewTask(prio, pid, parent))
      ensures kids == old(kids)[parent := old(kids)[parent] + [p]][p := []] && stacks == old(stacks)[p := stack]
      ensures all == old(all) + [p]
      ensures var was, i := old(table[..]), FreeSlot(old(table[..]), 0);
              table[..] == if i < |was| then was[i := Some(p)] else was
    {
      stacks := stacks[p := stack];
      kids := kids[parent := kids[parent] + [p]];
      kids := kids[p := []];
      var slot := EmptySlot();
      if slot < MAX_PROCS { table[slot] := Some(p); }
      all := all + [p];
      Launch(p, NewTask(prio, pid, parent));
    }

    method Launch(p: nat, t: Task)
      requires rq.Valid()
      modifies rq
      ensures rq.Valid() && rq.View() == WakeUpNew(old(rq.View()), p, t)
    {
      rq.tasks := rq.tasks[p := t];
      rq.WakeUpNewTask(p);
    }

    method EmptySlot() returns (slot: nat)
      requires table.Length == MAX_PROCS
      ensures slot == FreeSlot(table[..], 0)
    {
      slot := 0;
      while slot < MAX_PROCS && table[slot].Some?
        invariant 0 <= slot <= MAX_PROCS
        invariant FreeSlot(table[..], 0) == FreeSlot(table[..], slot)
      {
        slot := slot + 1;
      }
    }

    /** do_fork */
    method DoFork(mmFails: bool) returns (r: int)
      requires Valid() && KInv(View())
      modifies this, rq, pids, pids.bitmap, table
      ensures Valid() && View() == Fork(old(View()), mmFails)
      ensures r == if old(CanFork(View(), mmFails)) then pids.lastPid else -1
    {
      r := CopyProcess(rq.curr, rq.tasks[rq.curr].prio, mmFails);
    }

    /** kernel_thread: a child of init_task without an address space. */
    method StartThread() returns (r: int)
      requires Valid() && KInv(View())
      modifies this, rq, pids, pids.bitmap, table
      ensures Valid() && View() == KernelThread(old(View()))
      ensures r == if old(CanFork(View(), false)) then pids.lastPid else -1
    {
      r := CopyProcess(INIT, DEFAULT_PRIO, false);
    }

    /** wakeup */
    method Wakeup(chan: Chan)
      requires rq.Valid() && rq.curr in rq.tasks && table.Length == MAX_PROCS && TableRefs(table[..], rq.tasks)
      modifies rq
      ensures rq.Valid() && rq.View() == WakeAll(old(rq.View()), table[..], 0, chan)
    {
      ghost var goal := WakeAll(rq.View(), table[..], 0, chan);
      var i := 0;
      while i < MAX_PROCS
        invariant 0 <= i <= MAX_PROCS && rq.Valid() && rq.curr in rq.tasks && TableRefs(table[..], rq.tasks)
        invariant goal == WakeAll(rq.View(), table[..], i, chan)
      {
        WakeSlot(i, chan);
        i := i + 1;
      }
    }

    method WakeSlot(i: nat, chan: Chan)
      requires rq.Valid() && rq.curr in rq.tasks && i < table.Length && TableRefs(table[..], rq.tasks)
      modifies rq
      ensures rq.Valid() && rq.curr == old(rq.curr) && rq.tasks.Keys == old(rq.tasks.Keys)
      ensures WakeAll(rq.View(), table[..], i + 1, chan) == WakeAll(old(rq.View()), table[..], i, chan)
    {
      if table[i].Some? {
        assert table[..][i] == table[i];
        var p := table[i].value;
        if SleepsOn(rq.tasks[p], chan) {
          rq.tasks := rq.tasks[p := rq.tasks[p].(chan := NoChan)];
          var _, _ := rq.WakeUpProcess(p);
        }
      }
    }

    /** kill_process */
    method KillProcess(pid: int) returns (r: int)
      requires rq.Valid() && rq.curr in rq.tasks && table.Length == MAX_PROCS && TableRefs(table[..], rq.tasks)
      modifies rq
      ensures rq.Valid() && rq.View() == KillSched(old(rq.View()), table[..], pid)
      ensures r == if FindByPid(old(rq.tasks), table[..], pid, 0).Some? then 0 else -1
    {
      var i := 0;
      while i < MAX_PROCS
        invariant 0 <= i <= MAX_PROCS && rq.Valid() && rq.View() == old(rq.View())
        invariant FindByPid(rq.tasks, table[..], pid, 0) == FindByPid(rq.tasks, table[..], pid, i)
      {
        if table[i].Some? {
          assert table[..][i] == table[i];
          var p := table[i].value;
          if rq.tasks[p].pid == pid {
            rq.tasks := rq.tasks[p := rq.tasks[p].(killed := true)];
            if rq.tasks[p].state == Interruptible || rq.tasks[p].state == Uninterruptible {
              var _, _ := rq.WakeUpProcess(p);
            }
            return 0;
          }
        }
        i := i + 1;
      }
      return -1;
    }

    /** exit_notify: one child after the other moves to init_task's list. */
    method ExitNotify(p: nat)
      requires TreeOk(kids, rq.tasks) && p in kids && INIT in kids && p != INIT
      modifies this`kids, rq`tasks
      ensures rq.tasks == Adopt(old(rq.tasks), p)
      ensures kids == old(kids)[INIT := old(kids)[INIT] + old(kids)[p]][p := []]
    {
      ghost var base, all := kids, rq.tasks;
      ghost var n := 0;
      HandOverStart(base, p);
      while kids[p] != []
        invariant n <= |base[p]| && kids == HandOver(base, p, n) && rq.tasks == Moved(all, base[p][..n])
        decreases |base[p]| - n
      {
        var child := kids[p][0];
        assert child == base[p][n] && IsChild(all, child, p);
        MovedNext(all, base[p], n);
        HandOverNext(base, p, n);
        rq.tasks := rq.tasks[child := rq.tasks[child].(parent := INIT, realParent := INIT)];
        kids := kids[p := kids[p][1..]];
        kids := kids[INIT := kids[INIT] + [child]];
        n := n + 1;
      }
      assert base[p][..n] == base[p] && base[p][n..] == [];
      MovedAll(base, all, p);
    }

    /** do_exit */
    method DoExit(code: int)
      requires Valid() && KInv(View()) && rq.curr != INIT
      modifies this`kids, rq
      ensures Valid() && View() == Exit(old(View()), code)
    {
      ExitSteps(View(), code);
      Die(code);
    }

    method Die(code: int)
      requires rq.Valid() && table.Length == MAX_PROCS && TreeOk(kids, rq.tasks) && TableRefs(table[..], rq.tasks)
      requires rq.curr in kids && INIT in kids && rq.curr != INIT
      requires CanSchedule(ExitSched(rq.View(), table[..], code))
      modifies this`kids, rq
      ensures rq.Valid() && rq.View() == SchedSpec.Schedule(ExitSched(old(rq.View()), table[..], code))
      ensures kids == old(kids)[INIT := old(kids)[INIT] + old(kids)[old(rq.curr)]][old(rq.curr) := []]
    {
      var p := rq.curr;
      Bury(p, code);
      if rq.tasks[p].parent != p { Wakeup(WaitChild(rq.tasks[p].parent)); }
      rq.Schedule();
    }

    /** do_exit up to the point where the task is a zombie. */
    method Bury(p: nat, code: int)
      requires TreeOk(kids, rq.tasks) && p in kids && INIT in kids && p != INIT
      modifies this`kids, rq`tasks
      ensures rq.tasks == Buried(old(rq.tasks), p, code)
      ensures kids == old(kids)[INIT := old(kids)[INIT] + old(kids)[p]][p := []]
    {
      ExitCodeTree(kids, rq.tasks, p, code);
      ExitCodeFirst(rq.tasks, p, code);
      rq.tasks := rq.tasks[p := rq.tasks[p].(exitCode := code)];
      ExitNotify(p);
      rq.tasks := rq.tasks[p := rq.tasks[p].(state := Zombie)];
    }

    /** release_task */
    method ReleaseTask(c: nat)
      requires Valid() && Releasable(rq.tasks, kids, stacks, table[..], all, c)
      modifies this, rq`tasks, pids.bitmap, table
      ensures Valid() && View() == Release(old(View()), c)
    {
      var t := rq.tasks[c];
      kids := kids[t.parent := Without(kids[t.parent], c)] - {c};
      all := Without(all, c);
      ClearTableSlot(c);
      pids.FreePid(t.pid);
      freeStacks := [stacks[c]] + freeStacks;
      stacks := stacks - {c};
      FreeTaskStruct(c);
      rq.tasks := rq.tasks - {c};
    }

    /** The search for the table slot stops at the first match, which is the only one. */
    method ClearTableSlot(c: nat)
      requires table.Length == MAX_PROCS
      requires forall i, j | 0 <= i < j < MAX_PROCS && table[..][i].Some? :: table[..][i] != table[..][j]
      modifies table
      ensures table[..] == ClearSlot(old(table[..]), c)
    {
      var i := 0;
      while i < MAX_PROCS
        invariant 0 <= i <= MAX_PROCS && table[..] == old(table[..])
        invariant forall j | 0 <= j < i :: table[j] != Some(c)
      {
        if table[i] == Some(c) {
          table[i] := None;
          return;
        }
        i := i + 1;
      }
    }

    /** do_wait's scan of the children: the first zombie that matches, or whether any child matches. */
    method ScanChildren(l: seq<nat>, pid: int, pgrp: int) returns (zombie: Option<nat>, found: bool)
      requires forall c | c in l :: c in rq.tasks
      ensures zombie == FirstZombie(rq.tasks, l, pid, pgrp)
      ensures zombie.None? ==> (found <==> HasMatch(rq.tasks, l, pid, pgrp))
    {
      found := false;
      var i := 0;
      while i < |l|
        invariant 0 <= i <= |l| && FirstZombie(rq.tasks, l, pid, pgrp) == FirstZombie(rq.tasks, l[i..], pid, pgrp)
        invariant found <==> HasMatch(rq.tasks, l[..i], pid, pgrp)
      {
        var child := l[i];
        MatchNext(rq.tasks, l, i, pid, pgrp);
        if Matches(rq.tasks[child], pid, pgrp) {
          if rq.tasks[child].state == Zombie { return Some(child), true; }
          found := true;
        }
        i := i + 1;
      }
      assert l[..i] == l;
      zombie := None;
    }

    /** One pass of do_wait. */
    method WaitPass(pid: int, nohang: bool) returns (r: WaitOutcome)
      requires Valid() && KInv(View()) && (nohang || rq.curr != INIT)
      modifies this, rq, pids.bitmap, table
      ensures Valid() && (View(), r) == WaitScan(old(View()), pid, nohang)
    {
      ghost var k := View();
      WaitSteps(k, pid);
      var curr := rq.curr;
      var zombie, found := ScanChildren(kids[curr], pid, rq.tasks[curr].pgrp);
      if zombie.Some? {
        r := Reaped(rq.tasks[zombie.value].pid, rq.tasks[zombie.value].exitCode);
        ReleaseTask(zombie.value);
        return;
      }
      if !found { return NoChild; }
      if nohang { return NotYet; }
      FallAsleep(WaitChild(curr), Some(pid));
      return Asleep;
    }

    /** The tail of sleep() and of do_wait: wait on a channel and give the processor away. */
    method FallAsleep(chan: Chan, waiting: Option<int>)
      requires rq.Valid() && Inv(rq.View()) && rq.curr != rq.idle
      modifies rq
      ensures rq.Valid() && rq.View() == Doze(old(rq.View()), chan, waiting)
    {
      var curr := rq.curr;
      DozeReady(rq.View(), chan, waiting);
      rq.tasks := rq.tasks[curr := rq.tasks[curr].(chan := chan, state := Interruptible, waiting := waiting)];
      rq.Schedule();
    }

    /** sleep */
    method Sleep(chan: Chan)
      requires Valid() && KInv(View()) && rq.curr != INIT
      modifies rq
      ensures Valid() && View() == old(View()).(s := Doze(old(View()).s, chan, None))
    {
      CurrentRuns(View());
      FallAsleep(chan, None);
    }

    /** do_wait after its schedule() call has returned. */
    method WaitAgain() returns (r: WaitOutcome)
      requires Valid() && KInv(View()) && rq.tasks[rq.curr].waiting.Some?
      modifies this, rq, pids.bitmap, table
      ensures Valid() && (View(), r) == WaitResume(old(View()))
    {
      ForgetWait(View());
      var curr, pid := rq.curr, rq.tasks[rq.curr].waiting.value;
      assert WaitOkAt(rq.tasks, curr);
      rq.tasks := rq.tasks[curr := rq.tasks[curr].(waiting := None)];
      if rq.tasks[curr].killed { return Interrupted; }
      r := WaitPass(pid, false);
    }
  }
}
