/** Tasks, PIDs and the scheduler as a system of atomic steps on values. A section that the code
    runs with interrupts off is one step, and so is each single access outside such sections; the
    scheduler may come in between any two steps. */
module TaskSteps {
  import opened Common
  import opened PidMap

  datatype TaskState = Uninit | Sleeping | Runnable | Zombie

  datatype Task = Task(state: TaskState, pid: int, runs: nat, resched: bool, exitCode: int)

  /** Where a task stands: outside do_fork and wakeup_task, past the nr_task check, with its child
      listed and still to be woken, or in wakeup_task between the test and the store. */
  datatype Place = Outside | Checked | Listed(child: nat) | Waking(id: nat)

  /** The tasks in order of creation, which is the task list from its tail to its head: task 0 is
      idle. With them, each task's place, the running task, nr_task and the PIDs taken. */
  datatype System = System(tasks: seq<Task>, at: seq<Place>, cur: nat, nr: int, taken: set<nat>)

  datatype Event =
    | ForkCheck
    | ForkCommit
    | WakeTest(id: nat)
    | WakeStore
    | Exit(errno: int)
    | Schedule

  predicate IsRunnable(t: Task) { t.state == Runnable }

  predicate Live(t: Task) { t.state != Zombie }

  // ---------- what each step does ----------

  /** After task_init: idle alone, with the first PID. */
  function Start(): System {
    System([Task(Runnable, 0, 0, true, 0)], [Outside], 0, 1, {0})
  }

  /** The youngest runnable task older than n, or -1. */
  function Below(tasks: seq<Task>, n: nat): (r: int)
    requires n <= |tasks|
    ensures -1 <= r < n
    ensures r >= 0 ==> IsRunnable(tasks[r])
    ensures forall j | r < j < n :: !IsRunnable(tasks[j])
  {
    if n == 0 then -1 else if IsRunnable(tasks[n - 1]) then n - 1 else Below(tasks, n - 1)
  }

  /** The task that schedule picks: it scans the circular list from behind the current task, or
      from the head when idle runs, and falls back to idle. */
  function Pick(tasks: seq<Task>, cur: nat): (r: nat)
    requires cur < |tasks|
    ensures r < |tasks|
  {
    var ahead := if cur == 0 then -1 else Below(tasks, cur);
    var top := Below(tasks, |tasks|);
    if ahead >= 0 then ahead else if top > cur then top else 0
  }

  /** The current task needs no rescheduling any more. */
  function Calmed(s: System): (tasks: seq<Task>)
    requires s.cur < |s.tasks|
    ensures |tasks| == |s.tasks|
  {
    s.tasks[s.cur := s.tasks[s.cur].(resched := false)]
  }

  /** One more tick for task i. */
  function Ran(tasks: seq<Task>, i: nat): seq<Task>
    requires i < |tasks|
  {
    tasks[i := tasks[i].(runs := (tasks[i].runs + 1) % WORD)]
  }

  function Scheduled(s: System): System
    requires s.cur < |s.tasks|
  {
    var n := Pick(Calmed(s), s.cur);
    s.(tasks := Ran(Calmed(s), n), cur := n)
  }

  /** The store of wakeup_task. */
  function Stored(tasks: seq<Task>, i: nat): seq<Task>
    requires i < |tasks|
  {
    tasks[i := tasks[i].(state := Runnable)]
  }

  /** wakeup_task with nothing between its test and its store. */
  function Woken(tasks: seq<Task>, i: nat): seq<Task>
    requires i < |tasks|
  {
    if Live(tasks[i]) then Stored(tasks, i) else tasks
  }

  /** The atomic section of do_fork; alloc_pid gives -1 when every PID is taken. */
  ghost function Committed(s: System): System
    requires |s.at| == |s.tasks| && s.cur < |s.tasks|
  {
    var p := Lowest(s.taken, 0, MAX_PID);
    var child := Task(Uninit, if p < MAX_PID then p else -1, 0, false, 0);
    s.(tasks := s.tasks + [child], at := s.at[s.cur := Listed(|s.tasks|)] + [Outside],
      nr := s.nr + 1, taken := if p < MAX_PID then s.taken + {p} else s.taken)
  }

  ghost function Exited(s: System, errno: int): System
    requires s.cur < |s.tasks|
  {
    var me := s.tasks[s.cur];
    s.(tasks := s.tasks[s.cur := me.(state := Zombie, exitCode := errno, resched := true)],
      nr := s.nr - 1, taken := s.taken - {me.pid})
  }

  /** find_task: the scan runs from the youngest task to the oldest. */
  function FindFrom(tasks: seq<Task>, pid: int, n: nat): (r: int)
    requires n <= |tasks|
    ensures -1 <= r < n
    ensures r >= 0 ==> tasks[r].pid == pid
    ensures forall j | r < j < n :: tasks[j].pid != pid
  {
    if n == 0 then -1 else if tasks[n - 1].pid == pid then n - 1 else FindFrom(tasks, pid, n - 1)
  }

  lemma FindFromIs(tasks: seq<Task>, pid: int, i: int, n: nat)
    requires -1 <= i < n <= |tasks| && (i >= 0 ==> tasks[i].pid == pid) && forall j | i < j < n :: tasks[j].pid != pid
    ensures FindFrom(tasks, pid, n) == i
  {
  }

  function FindTask(tasks: seq<Task>, pid: int): (r: int)
    ensures -1 <= r < |tasks|
  {
    if 0 < pid < MAX_PID then FindFrom(tasks, pid, |tasks|) else -1
  }

  // ---------- runs ----------

  ghost predicate WellFormed(s: System) {
    |s.at| == |s.tasks| && s.cur < |s.tasks|
  }

  /** Which steps the running task, or the timer, can take. Any live task may call wakeup_task on
      any listed one, although only do_fork does. A zombie only gets scheduled away, and idle
      never exits. */
  ghost predicate Enabled(s: System, e: Event)
    requires WellFormed(s)
  {
    match e
    case ForkCheck => s.at[s.cur].Outside? && Live(s.tasks[s.cur])
    case ForkCommit => s.at[s.cur].Checked?
    case WakeTest(id) =>
      id < |s.tasks| && (s.at[s.cur] == Listed(id) || (s.at[s.cur].Outside? && Live(s.tasks[s.cur])))
    case WakeStore => s.at[s.cur].Waking? && s.at[s.cur].id < |s.tasks|
    case Exit(_) => s.cur > 0 && s.at[s.cur].Outside? && Live(s.tasks[s.cur])
    case Schedule => true
  }

  ghost function Next(s: System, e: Event): System
    requires WellFormed(s) && Enabled(s, e)
  {
    match e
    case ForkCheck => if s.nr >= MAX_TASK then s else s.(at := s.at[s.cur := Checked])
    case ForkCommit => Committed(s)
    case WakeTest(id) => s.(at := s.at[s.cur := if Live(s.tasks[id]) then Waking(id) else Outside])
    case WakeStore => s.(tasks := Stored(s.tasks, s.at[s.cur].id), at := s.at[s.cur := Outside])
    case Exit(errno) => Exited(s, errno)
    case Schedule => Scheduled(s)
  }

  ghost predicate Step(s: System, e: Event, s': System) {
    WellFormed(s) && Enabled(s, e) && s' == Next(s, e)
  }

  ghost predicate StepAt(tr: seq<System>, es: seq<Event>, k: nat)
    requires k < |es| < |tr|
  {
    Step(tr[k], es[k], tr[k + 1])
  }

  /** A run from the state that task_init leaves. */
  ghost predicate IsRun(tr: seq<System>, es: seq<Event>) {
    && |tr| == |es| + 1 && tr[0] == Start()
    && forall k: nat | k < |es| :: StepAt(tr, es, k)
  }

  // ---------- what every step keeps ----------

  ghost function LiveIds(tasks: seq<Task>): set<nat> {
    set i: nat | i < |tasks| && Live(tasks[i])
  }

  /** The tasks past the nr_task check that have not listed their child yet. */
  ghost function Waiting(at: seq<Place>): set<nat> {
    set i: nat | i < |at| && at[i] == Checked
  }

  /** A live task's PID is taken, and no task created later has the same PID. */
  ghost predicate PidsOk(tasks: seq<Task>, taken: set<nat>) {
    && (forall i {:trigger tasks[i]} | 0 <= i < |tasks| && Live(tasks[i]) :: 0 <= tasks[i].pid < MAX_PID && tasks[i].pid in taken)
    && (forall i, j | 0 <= i < j < |tasks| && Live(tasks[i]) :: tasks[i].pid != tasks[j].pid)
  }

  /** nr_task counts the live tasks and the taken PIDs, and even with every waiting fork
      committed it stays short of the PID supply. */
  ghost predicate CountsOk(s: System) {
    && s.nr == |LiveIds(s.tasks)| == |s.taken|
    && s.nr + |Waiting(s.at)| <= 2 * MAX_TASK - 2
  }

  /** The running task is runnable or has just exited, and one in the middle of something is runnable. */
  ghost predicate PlacesOk(s: System)
    requires WellFormed(s)
  {
    && (IsRunnable(s.tasks[s.cur]) || !Live(s.tasks[s.cur]))
    && (forall i {:trigger s.at[i]} | 0 <= i < |s.at| && !s.at[i].Outside? :: IsRunnable(s.tasks[i]))
  }

  /** Idle can always be scheduled. */
  ghost predicate Idles(s: System) { WellFormed(s) && IsRunnable(s.tasks[0]) }

  ghost predicate Inv(s: System) {
    Idles(s) && PidsOk(s.tasks, s.taken) && CountsOk(s) && PlacesOk(s)
  }

  /** A store that makes a zombie runnable again. */
  ghost predicate Revives(s: System, e: Event) {
    && WellFormed(s) && e == WakeStore && Enabled(s, e)
    && !Live(s.tasks[s.at[s.cur].id])
  }

  lemma {:induction false} RangeSize(s: set<nat>, n: nat)
    requires forall q: nat | q < n :: q in s
    ensures |s| >= n
  {
    if n > 0 {
      RangeSize(s - {n - 1}, n - 1);
    }
  }

  lemma SubsetSize(a: set<nat>, b: set<nat>)
    requires a <= b
    ensures |a| <= |b|
  {
    assert b == a + (b - a);
  }

  /** alloc_pid always finds a PID: fewer than MAX_PID are taken. */
  lemma PidAvailable(s: System)
    requires CountsOk(s)
    ensures Lowest(s.taken, 0, MAX_PID) < MAX_PID
  {
    if Lowest(s.taken, 0, MAX_PID) == MAX_PID {
      RangeSize(s.taken, MAX_PID);
    }
  }

  lemma StartInv()
    ensures Inv(Start())
  {
    assert LiveIds(Start().tasks) == {0};
    assert Waiting(Start().at) == {};
  }

  lemma CheckInv(s: System)
    requires Inv(s) && Enabled(s, ForkCheck)
    ensures Inv(Next(s, ForkCheck))
  {
    var s' := Next(s, ForkCheck);
    if s.nr < MAX_TASK {
      assert Waiting(s'.at) == Waiting(s.at) + {s.cur};
      SubsetSize(Waiting(s'.at), LiveIds(s.tasks));
    }
  }

  lemma CommitPids(s: System)
    requires Inv(s) && Enabled(s, ForkCommit) && Lowest(s.taken, 0, MAX_PID) < MAX_PID
    ensures var s' := Next(s, ForkCommit); PidsOk(s'.tasks, s'.taken)
  {
    var s' := Next(s, ForkCommit);
    var n := |s.tasks|;
    assert forall i | 0 <= i < n :: s'.tasks[i] == s.tasks[i];
  }

  lemma LiveAppended(tasks: seq<Task>, t: Task)
    requires Live(t)
    ensures LiveIds(tasks + [t]) == LiveIds(tasks) + {|tasks|}
  {
    forall i: nat ensures i in LiveIds(tasks + [t]) <==> i in LiveIds(tasks) + {|tasks|} {
    }
  }

  lemma WaitingListed(at: seq<Place>, cur: nat, child: nat)
    requires cur < |at| && at[cur] == Checked
    ensures Waiting(at[cur := Listed(child)] + [Outside]) == Waiting(at) - {cur}
  {
    forall i: nat ensures i in Waiting(at[cur := Listed(child)] + [Outside]) <==> i in Waiting(at) - {cur} {
    }
  }

  lemma CommitCounts(s: System)
    requires Inv(s) && Enabled(s, ForkCommit) && Lowest(s.taken, 0, MAX_PID) < MAX_PID
    ensures CountsOk(Next(s, ForkCommit))
  {
    LiveAppended(s.tasks, Next(s, ForkCommit).tasks[|s.tasks|]);
    WaitingListed(s.at, s.cur, |s.tasks|);
    assert s.cur in Waiting(s.at);
  }

  lemma CommitInv(s: System)
    requires Inv(s) && Enabled(s, ForkCommit)
    ensures Inv(Next(s, ForkCommit))
  {
    PidAvailable(s);
    CommitPids(s);
    CommitCounts(s);
  }

  lemma TestInv(s: System, id: nat)
    requires Inv(s) && Enabled(s, WakeTest(id))
    ensures Inv(Next(s, WakeTest(id)))
  {
    assert Waiting(Next(s, WakeTest(id)).at) == Waiting(s.at);
  }

  /** The store keeps the invariant exactly if its target is live still; otherwise one more task
      is live than nr_task counts. */
  lemma StoreInv(s: System)
    requires Inv(s) && Enabled(s, WakeStore)
    ensures Inv(Next(s, WakeStore)) <==> !Revives(s, WakeStore)
  {
    var s', id := Next(s, WakeStore), s.at[s.cur].id;
    assert LiveIds(s'.tasks) == LiveIds(s.tasks) + {id};
    assert Waiting(s'.at) == Waiting(s.at);
  }

  lemma ExitInv(s: System, errno: int)
    requires Inv(s) && Enabled(s, Exit(errno))
    ensures Inv(Next(s, Exit(errno)))
  {
    var s' := Next(s, Exit(errno));
    assert LiveIds(s'.tasks) == LiveIds(s.tasks) - {s.cur};
    assert s.tasks[s.cur].pid in s.taken;
    forall i | 0 <= i < |s'.tasks| && Live(s'.tasks[i]) ensures 0 <= s'.tasks[i].pid < MAX_PID && s'.tasks[i].pid in s'.taken {
      assert s'.tasks[i] == s.tasks[i];
      assert s.tasks[i].pid != s.tasks[s.cur].pid;
    }
  }

  lemma ScheduleInv(s: System)
    requires Inv(s)
    ensures Inv(Scheduled(s))
  {
    assert LiveIds(Scheduled(s).tasks) == LiveIds(s.tasks);
  }

  /** Every step keeps the invariant, except one that revives a zombie, which always breaks it. */
  lemma StepInv(s: System, e: Event)
    requires Inv(s) && Enabled(s, e)
    ensures Inv(Next(s, e)) <==> !Revives(s, e)
  {
    match e
    case ForkCheck => CheckInv(s);
    case ForkCommit => CommitInv(s);
    case WakeTest(id) => TestInv(s, id);
    case WakeStore => StoreInv(s);
    case Exit(errno) => ExitInv(s, errno);
    case Schedule => ScheduleInv(s);
  }

  /** wakeup_task without interruption. */
  lemma WakeWhole(s: System, id: nat)
    requires WellFormed(s) && Enabled(s, WakeTest(id)) && Live(s.tasks[id])
    ensures var s1 := Next(s, WakeTest(id));
      && Enabled(s1, WakeStore) && !Revives(s1, WakeStore)
      && Next(s1, WakeStore) == s.(tasks := Woken(s.tasks, id), at := s.at[s.cur := Outside])
  {
  }

  /** A new runnable child with this PID. */
  ghost function Forked(s: System, pid: nat): System {
    s.(tasks := s.tasks + [Task(Runnable, pid, 0, false, 0)], at := s.at + [Outside], nr := s.nr + 1, taken := s.taken + {pid})
  }

  /** The steps of do_fork, with nothing in between. */
  lemma ForkWhole(s: System)
    requires Inv(s) && Enabled(s, ForkCheck) && s.nr < MAX_TASK
    ensures var s1, n := Next(s, ForkCheck), |s.tasks|;
      && Enabled(s1, ForkCommit)
      && var s2 := Next(s1, ForkCommit);
      && WellFormed(s2) && s2.at[s2.cur] == Listed(n) && Enabled(s2, WakeTest(n)) && Live(s2.tasks[n])
      && Lowest(s.taken, 0, MAX_PID) < MAX_PID
      && s2.(tasks := Woken(s2.tasks, n), at := s2.at[s2.cur := Outside]) == Forked(s, Lowest(s.taken, 0, MAX_PID))
  {
    PidAvailable(s);
    var s2 := Committed(Next(s, ForkCheck));
    assert s2.at[s2.cur := Outside] == s.at + [Outside];
    assert Woken(s2.tasks, |s.tasks|) == s.tasks + [Task(Runnable, Lowest(s.taken, 0, MAX_PID), 0, false, 0)];
  }
}
