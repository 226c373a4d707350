/** The tasks of arch/i386/task/task.c and the scheduler of kernel/sched/sched.c on the task list,
    each atomic section tied to one step of TaskSteps. */
module Tasks {
  import opened Common
  import opened List
  import opened PidMap
  import opened TaskSteps
  import opened TaskRuns

  const E_NO_FREE_PROC: int := 5

  /** struct task_struct, as far as it is modelled. */
  datatype TaskStruct = TaskStruct(task: Task, list: ListHead)

  datatype TaskRef = Null | Ref(addr: nat)

  /** The tasks that a ring lists, oldest first. Its last entry is the head of the list, which
      stands for no task, and the entry before that is the oldest task's. */
  ghost function View(ring: seq<ListHead>, mem: map<nat, TaskStruct>): (ts: seq<Task>)
    requires |ring| > 0
  {
    seq(|ring| - 1, i requires 0 <= i < |ring| - 1 => TaskAt(ring[|ring| - 2 - i].owner, mem))
  }

  ghost function TaskAt(a: nat, mem: map<nat, TaskStruct>): Task {
    if a in mem then mem[a].task else Task(Uninit, -1, 0, false, 0)
  }

  /** Each entry is the list field of the task it is embedded in. */
  ghost predicate Embedded(ring: seq<ListHead>, mem: map<nat, TaskStruct>)
    requires |ring| > 0
  {
    forall i {:trigger ring[i].owner} | 0 <= i < |ring| - 1 :: ring[i].owner in mem && mem[ring[i].owner].list == ring[i]
  }

  /** Reading the task at position p. */
  lemma ViewAt(ring: seq<ListHead>, mem: map<nat, TaskStruct>, p: nat)
    requires p < |ring| - 1 && Embedded(ring, mem)
    ensures ring[p].owner in mem && View(ring, mem)[|ring| - 2 - p] == mem[ring[p].owner].task
  {
    var i := |ring| - 2 - p;
    assert ring[|ring| - 2 - i].owner in mem;
  }

  /** Writing the task at position p. */
  lemma PutView(ring: seq<ListHead>, mem: map<nat, TaskStruct>, p: nat, t: Task)
    requires Distinct(ring) && p < |ring| - 1 && Embedded(ring, mem)
    ensures var a := ring[p].owner; var mem' := mem[a := mem[a].(task := t)];
      Embedded(ring, mem') && View(ring, mem') == View(ring, mem)[|ring| - 2 - p := t]
  {
    var a := ring[p].owner;
    var mem' := mem[a := mem[a].(task := t)];
    forall j | 0 <= j < |ring| - 1 ensures ring[j].owner in mem' && mem'[ring[j].owner].list == ring[j] {
      assert j != p ==> ring[j] != ring[p];
    }
    forall i | 0 <= i < |ring| - 1 ensures View(ring, mem')[i] == View(ring, mem)[|ring| - 2 - p := t][i] {
      var j := |ring| - 2 - i;
      assert j != p ==> ring[j] != ring[p];
      ViewAt(ring, mem, j);
      ViewAt(ring, mem', j);
    }
  }

  /** A task put in at the front is the youngest. */
  lemma AddView(ring: seq<ListHead>, mem: map<nat, TaskStruct>, a: nat, st: TaskStruct)
    requires |ring| > 0 && Embedded(ring, mem) && st.list.owner == a
    requires forall i | 0 <= i < |ring| - 1 :: ring[i].owner != a
    ensures Embedded([st.list] + ring, mem[a := st])
    ensures View([st.list] + ring, mem[a := st]) == View(ring, mem) + [st.task]
  {
    var ring', mem' := [st.list] + ring, mem[a := st];
    forall j | 0 <= j < |ring'| - 1 ensures ring'[j].owner in mem' && mem'[ring'[j].owner].list == ring'[j] {
      assert j > 0 ==> ring'[j] == ring[j - 1];
    }
    forall i | 0 <= i < |ring'| - 1 ensures View(ring', mem')[i] == (View(ring, mem) + [st.task])[i] {
      var j := |ring'| - 2 - i;
      ViewAt(ring', mem', j);
      if j > 0 {
        assert ring'[j] == ring[j - 1];
        ViewAt(ring, mem, j - 1);
      }
    }
  }

  lemma AloneView(h: ListHead, st: TaskStruct)
    ensures var ring, mem := [st.list, h], map[st.list.owner := st];
      Embedded(ring, mem) && View(ring, mem) == [st.task]
  {
    ViewAt([st.list, h], map[st.list.owner := st], 0);
  }

  /** The same ring, starting one entry earlier. */
  lemma Rotated(r: seq<ListHead>, x: ListHead)
    requires IsRing(r + [x])
    ensures IsRing([x] + r)
  {
    var s, s' := r + [x], [x] + r;
    forall j | 0 <= j < |s'| ensures s'[j].next == After(s', j) && s'[j].prev == Before(s', j) {
      assert s'[j] == s[if j == 0 then |r| else j - 1];
    }
    forall i, j | 0 <= i < j < |s'| ensures s'[i] != s'[j] {
      assert s'[i] == s[if i == 0 then |r| else i - 1] && s'[j] == s[j - 1];
    }
  }

  method EmptyPidMap() returns (map_: array<bv32>)
    ensures fresh(map_) && map_.Length == WORDS + 1
    ensures HeldPids(map_[..WORDS]) == {} && Lowest({}, 0, MAX_PID) == 0
  {
    map_ := new bv32[WORDS + 1](_ => 0);
    NothingHeld(map_[..WORDS]);
  }

  class Kernel {
    var mem: map<nat, TaskStruct>
    const taskList: ListHead       // task_list
    const pidMap: array<bv32>      // glb_pid_map, and the word behind it
    const idle: nat                // glb_idle_task
    var current: nat
    var nrTask: int
    ghost var ring: seq<ListHead>  // the entries from the youngest task to idle, and then taskList
    ghost var at: seq<Place>       // how far each task is in do_fork
    ghost var cur: nat             // current, as a number in order of creation

    ghost function Tasks(): seq<Task>
      reads this`mem, this`ring
    {
      if |ring| == 0 then [] else View(ring, mem)
    }

    ghost function State(): System
      requires pidMap.Length > WORDS
      reads this, pidMap
    {
      System(Tasks(), at, cur, nrTask, HeldPids(pidMap[..WORDS]))
    }

    /** Where task i is. */
    ghost predicate IsTask(a: nat, i: nat)
      reads this`ring
    {
      i < |ring| - 1 && ring[|ring| - 2 - i].owner == a
    }

    ghost predicate Linked()
      reads this`mem, this`ring, this`current, this`cur, ring
    {
      && IsRing(ring) && ring[|ring| - 1] == taskList && Embedded(ring, mem)
      && pidMap.Length == WORDS + 1 && IsTask(current, cur) && IsTask(idle, 0)
    }

    ghost predicate Valid()
      reads this, ring, pidMap
    {
      Linked() && Inv(State())
    }

    /** task_init, with the idle task at address i. */
    constructor (i: nat)
      ensures Valid() && State() == System([Task(Runnable, 0, 0, true, 0)], [Outside], 0, 1, {0}) && idle == i
      ensures fresh(ring) && fresh(pidMap)
    {
      var h, l := OneEntry(i);
      var map_ := EmptyPidMap();
      taskList := h;
      pidMap := map_;
      idle := i;
      current := i;
      at := [Outside];
      cur := 0;
      nrTask := 1;
      ring := [l, h];
      new;
      var pid := AllocPid(map_);
      mem := map[i := TaskStruct(Task(Runnable, pid, 0, true, 0), l)];
      AloneView(h, mem[i]);
      StartInv();
      assert State() == Start();
    }

    /** find_task. */
    method FindTask(pid: int) returns (r: TaskRef)
      requires Linked()
      ensures var i := TaskSteps.FindTask(Tasks(), pid);
        if i < 0 then r == Null else r.Ref? && IsTask(r.addr, i)
    {
      if 0 < pid < MAX_PID {
        var le := taskList.next;
        ghost var p := 0;
        while le != taskList
          invariant p <= |ring| - 1 && le == ring[p]
          invariant forall j | |ring| - 2 - p < j < |ring| - 1 :: Tasks()[j].pid != pid
          decreases |ring| - p
        {
          ViewAt(ring, mem, p);
          if mem[le.owner].task.pid == pid {
            FindFromIs(Tasks(), pid, |ring| - 2 - p, |ring| - 1);
            return Ref(le.owner);
          }
          le := le.next;
          p := p + 1;
        }
        FindFromIs(Tasks(), pid, -1, |ring| - 1);
      }
      r := Null;
    }

    /** A write to the fields of task i. */
    method Put(a: nat, t: Task, ghost i: nat)
      requires Linked() && IsTask(a, i)
      modifies this`mem
      ensures Linked() && Tasks() == old(Tasks())[i := t]
      ensures a in mem && mem[a] == old(mem[a]).(task := t)
    {
      PutView(ring, mem, |ring| - 2 - i, t);
      mem := mem[a := mem[a].(task := t)];
    }

    /** Reading the fields of task i. */
    lemma Get(a: nat, i: nat)
      requires Linked() && IsTask(a, i)
      ensures a in mem && mem[a].task == Tasks()[i]
    {
      ViewAt(ring, mem, |ring| - 2 - i);
    }

    /** The test of wakeup_task. */
    method WakeTest(a: nat, ghost i: nat) returns (live: bool)
      requires Valid() && IsTask(a, i) && Enabled(State(), Event.WakeTest(i))
      modifies this`at
      ensures Valid() && State() == Next(old(State()), Event.WakeTest(i))
      ensures live <==> Live(Tasks()[i])
    {
      StepInv(State(), Event.WakeTest(i));
      Get(a, i);
      live := mem[a].task.state != Zombie;
      at := at[cur := if live then Waking(i) else Outside];
    }

    /** The store of wakeup_task: the state stays valid exactly if the task is live still. */
    method WakeStore(a: nat, ghost i: nat)
      requires Valid() && IsTask(a, i) && at[cur] == Waking(i)
      modifies this`mem, this`at
      ensures Linked() && State() == Next(old(State()), Event.WakeStore)
      ensures Valid() <==> old(Live(Tasks()[i]))
    {
      StepInv(State(), Event.WakeStore);
      Store(a, i);
    }

    method Store(a: nat, ghost i: nat)
      requires Linked() && IsTask(a, i) && cur < |at|
      modifies this`mem, this`at
      ensures Linked() && Tasks() == Stored(old(Tasks()), i) && at == old(at[cur := Outside])
    {
      Get(a, i);
      at := at[cur := Outside];
      Put(a, mem[a].task.(state := Runnable), i);
    }

    /** wakeup_task without a preemption in it. */
    method WakeupTask(a: nat, ghost i: nat)
      requires Valid() && IsTask(a, i) && Enabled(State(), Event.WakeTest(i))
      modifies this`mem, this`at
      ensures Valid() && State() == old(State()).(tasks := Woken(old(Tasks()), i), at := old(at[cur := Outside]))
    {
      ghost var s := State();
      var live := WakeTest(a, i);
      if live {
        WakeWhole(s, i);
        WakeStore(a, i);
      }
    }

    /** The test at the top of do_fork, made with interrupts on. */
    method ForkCheck() returns (ok: bool)
      requires Valid() && Enabled(State(), Event.ForkCheck)
      modifies this`at
      ensures Valid() && State() == Next(old(State()), Event.ForkCheck)
      ensures ok <==> nrTask < 4096
    {
      StepInv(State(), Event.ForkCheck);
      ok := nrTask < MAX_TASK;
      if ok {
        at := at[cur := Checked];
      }
    }

    /** The atomic section of do_fork, listing the task that alloc_task_struct has set up at a. */
    method ForkCommit(a: nat)
      requires Valid() && Enabled(State(), Event.ForkCommit)
      requires forall j | 0 <= j < |ring| - 1 :: ring[j].owner != a
      modifies this`mem, this`nrTask, this`ring, this`at, pidMap, ring`next, ring`prev
      ensures Valid() && State() == Next(old(State()), Event.ForkCommit)
      ensures IsTask(a, |old(Tasks())|) && ring[1..] == old(ring) && fresh(ring[0])
    {
      StepInv(State(), Event.ForkCommit);
      Commit(a);
    }

    method Commit(a: nat)
      requires Linked() && |at| == |ring| - 1
      requires forall j | 0 <= j < |ring| - 1 :: ring[j].owner != a
      modifies this`mem, this`nrTask, this`ring, this`at, pidMap, ring`next, ring`prev
      ensures Linked() && State() == Committed(old(State()))
      ensures IsTask(a, |old(Tasks())|) && ring[1..] == old(ring) && fresh(ring[0])
    {
      ghost var s := State();
      var pid := AllocPid(pidMap);
      ListNewest(a, Task(Uninit, pid, 0, false, 0));
      nrTask := nrTask + 1;
      at := at[cur := Listed(|at|)] + [Outside];
      assert HeldPids(pidMap[..WORDS]) == Committed(s).taken;
      assert Tasks() == Committed(s).tasks;
    }

    /** list_add of a new task at the head of the list. */
    method ListNewest(a: nat, t: Task)
      requires Linked()
      requires forall j | 0 <= j < |ring| - 1 :: ring[j].owner != a
      modifies this`mem, this`ring, ring`next, ring`prev
      ensures Linked() && Tasks() == old(Tasks()) + [t]
      ensures |ring| > 0 && IsTask(a, |old(Tasks())|) && ring[1..] == old(ring)
      ensures fresh(ring[0])
    {
      var entry := new ListHead(a);
      AddView(ring, mem, a, TaskStruct(t, entry));
      AddToRing(entry);
      Enter(a, t, entry);
    }

    /** The task at a, whose entry is linked in behind the head, becomes the youngest. */
    method Enter(a: nat, t: Task, entry: ListHead)
      requires IsRing([entry] + ring) && |ring| > 0 && ring[|ring| - 1] == taskList && pidMap.Length == WORDS + 1
      requires IsTask(current, cur) && IsTask(idle, 0) && entry.owner == a
      requires Embedded([entry] + ring, mem[a := TaskStruct(t, entry)])
      modifies this`mem, this`ring
      ensures Linked() && ring == [entry] + old(ring) && mem == old(mem)[a := TaskStruct(t, entry)]
      ensures IsTask(a, |old(ring)| - 1)
    {
      ghost var r := ring;
      mem := mem[a := TaskStruct(t, entry)];
      ring := [entry] + ring;
      assert forall i | 0 <= i < |r| :: ring[i + 1] == r[i];
    }

    method AddToRing(entry: ListHead)
      requires IsRing(ring) && ring[|ring| - 1] == taskList && entry !in ring
      modifies entry`next, entry`prev, ring`next, ring`prev
      ensures IsRing([entry] + ring)
    {
      ghost var r := ring;
      Add(entry, taskList, ring, |ring| - 1);
      assert r[..|r|] + [entry] + r[|r|..] == r + [entry];
      Rotated(r, entry);
    }

    /** The atomic section of do_exit, run by the current task. */
    method DoExit(errno: int)
      requires Valid() && Enabled(State(), Exit(errno))
      modifies this`mem, this`nrTask, pidMap
      ensures Valid() && State() == Next(old(State()), Exit(errno))
      ensures pidMap[WORDS] == old(pidMap[WORDS])
    {
      StepInv(State(), Exit(errno));
      ghost var pid := State().tasks[cur].pid;
      assert pid < MAX_PID;
      EndCurrent(errno);
    }

    /** do_exit and the cpu_idle that ends it, without a preemption in between: the task is a zombie
        with its code, and has given the processor to the next runnable task down the list. */
    method ExitTask(errno: int)
      requires Valid() && Enabled(State(), Exit(errno))
      modifies this`mem, this`nrTask, this`current, this`cur, pidMap
      ensures Valid() && |Tasks()| == |old(Tasks())| && nrTask == old(nrTask) - 1
      ensures HeldPids(pidMap[..WORDS]) == old(State().taken) - {old(Tasks()[cur].pid)}
      ensures var t := old(Tasks()[cur]); Tasks()[old(cur)] == Task(Zombie, t.pid, t.runs, false, errno)
      ensures cur < old(cur) && IsRunnable(Tasks()[cur])
      ensures forall j | cur < j < old(cur) :: !IsRunnable(Tasks()[j])
    {
      ExitWhole(State(), errno);
      DoExit(errno);
      CpuIdle();
    }

    /** cpu_idle: schedule, if the running task asks for it. */
    method CpuIdle()
      requires Valid()
      modifies this`mem, this`current, this`cur
      ensures Valid()
      ensures old(Tasks()[cur].resched) ==> State() == Next(old(State()), Event.Schedule)
      ensures !old(Tasks()[cur].resched) ==> State() == old(State())
    {
      Get(current, cur);
      if mem[current].task.resched {
        Schedule();
      }
    }

    method EndCurrent(errno: int)
      requires Linked()
      modifies this`mem, this`nrTask, pidMap
      ensures Linked() && State() == Exited(old(State()), errno)
      ensures old(Tasks()[cur].pid) != MAX_PID ==> pidMap[WORDS] == old(pidMap[WORDS])
    {
      Get(current, cur);
      var me := mem[current].task;
      Put(current, me.(state := Zombie, exitCode := errno, resched := true), cur);
      nrTask := nrTask - 1;
      FreePid(pidMap, me.pid);
    }

    /** No two entries are embedded in the same task. */
    lemma SameTask(a: nat, i: nat, j: nat)
      requires Linked() && IsTask(a, i) && IsTask(a, j)
      ensures i == j
    {
    }

    /** The loop of schedule: from behind the current task, or from the head of the list when idle
        runs, to the first runnable task. */
    method Scan() returns (next: TaskRef, ghost i: nat)
      requires Linked() && IsRunnable(Tasks()[0])
      ensures i == Pick(Tasks(), cur) && next.Ref? && IsTask(next.addr, i)
      ensures next.addr in mem && mem[next.addr].task.state == Runnable
    {
      if current == idle {
        SameTask(idle, 0, cur);
      }
      ghost var n, top := |ring| - 1, if cur == 0 then |ring| - 1 else cur;
      Get(current, cur);
      var last := if current == idle then taskList else mem[current].list;
      next := Null;
      var le := last.next;
      ghost var p := n - top;
      while le != last
        invariant n - top <= p <= n - 1 && le == ring[p]
        invariant forall j | n - 1 - p < j < top :: !IsRunnable(Tasks()[j])
        decreases n - p
      {
        ViewAt(ring, mem, p);
        if le != taskList {
          next := Ref(le.owner);
          if mem[le.owner].task.state == Runnable {
            break;
          }
        }
        assert !IsRunnable(Tasks()[n - 1 - p]) && p < n - 1;
        assert ring[p].next == After(ring, p) == ring[p + 1];
        le := le.next;
        p := p + 1;
      }
      assert p < n;
      ViewAt(ring, mem, p);
      i := n - 1 - p;
    }

    /** schedule. */
    method Schedule()
      requires Valid()
      modifies this`mem, this`current, this`cur
      ensures Valid() && State() == Next(old(State()), Event.Schedule)
    {
      StepInv(State(), Event.Schedule);
      Reschedule();
    }

    method Reschedule()
      requires Linked() && IsRunnable(Tasks()[0])
      modifies this`mem, this`current, this`cur
      ensures Linked() && Tasks() == Scheduled(old(State())).tasks && cur == Scheduled(old(State())).cur
    {
      ghost var calm := Calmed(State());
      Calm();
      var next, i := Scan();
      if next == Null || mem[next.addr].task.state != Runnable {
        next := Ref(idle);
      }
      Run(next.addr, i);
      assert Tasks() == Ran(calm, i);
    }

    /** The first store of schedule. */
    method Calm()
      requires Linked() && IsRunnable(Tasks()[0])
      modifies this`mem
      ensures Linked() && Tasks() == Calmed(old(State())) && IsRunnable(Tasks()[0])
    {
      Get(current, cur);
      Put(current, mem[current].task.(resched := false), cur);
    }

    /** The end of schedule: the task picked gets one more tick, and task_run switches to it. */
    method Run(a: nat, ghost i: nat)
      requires Linked() && IsTask(a, i)
      modifies this`mem, this`current, this`cur
      ensures Linked() && cur == i && current == a
      ensures Tasks() == Ran(old(Tasks()), i)
    {
      Get(a, i);
      Put(a, mem[a].task.(runs := (mem[a].task.runs + 1) % WORD), i);
      if a != current {
        current := a;
        cur := i;
      } else {
        SameTask(current, cur, i);
      }
    }

    /** do_fork without a preemption in it. */
    method DoFork(a: nat) returns (r: int)
      requires Valid() && Enabled(State(), Event.ForkCheck)
      requires forall j | 0 <= j < |ring| - 1 :: ring[j].owner != a
      modifies this`mem, this`nrTask, this`ring, this`at, pidMap, ring`next, ring`prev
      ensures Valid()
      ensures old(nrTask) >= 4096 ==> r == -5 && State() == old(State())
      ensures old(nrTask) < 4096 ==>
        && 0 <= r < 8192 && r !in old(State().taken) && (forall p: nat | p < r :: p in old(State().taken))
        && Tasks() == old(Tasks()) + [Task(Runnable, r, 0, false, 0)] && at == old(at) + [Outside]
        && cur == old(cur) && nrTask == old(nrTask) + 1 && HeldPids(pidMap[..WORDS]) == old(State().taken) + {r}
    {
      var ok := ForkCheck();
      if !ok {
        return -E_NO_FREE_PROC;
      }
      r := CommitAndWake(a, old(State()));
    }

    /** The rest of do_fork after its test has passed in state s. */
    method CommitAndWake(a: nat, ghost s: System) returns (r: int)
      requires Valid() && Inv(s) && Enabled(s, Event.ForkCheck) && s.nr < 4096 && State() == Next(s, Event.ForkCheck)
      requires forall j | 0 <= j < |ring| - 1 :: ring[j].owner != a
      modifies this`mem, this`nrTask, this`ring, this`at, pidMap, ring`next, ring`prev
      ensures Valid() && 0 <= r == Lowest(s.taken, 0, 8192) < 8192 && State() == Forked(s, r)
    {
      ForkWhole(s);
      ForkCommit(a);
      r := WakeNew(a, at[cur].child);
    }

    /** do_fork after its atomic section. */
    method WakeNew(a: nat, ghost i: nat) returns (r: int)
      requires Valid() && IsTask(a, i) && Enabled(State(), Event.WakeTest(i))
      modifies this`mem, this`at
      ensures Valid() && State() == old(State()).(tasks := Woken(old(Tasks()), i), at := old(at[cur := Outside]))
      ensures r == old(Tasks()[i].pid)
    {
      WakeupTask(a, i);
      Get(a, i);
      r := mem[a].task.pid;
    }
  }
}
