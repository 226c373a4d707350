/** What the fields of a task say about the run so far: each is a function of the task's own exits,
    wakeups and turns. */
module TaskHistory {
  import opened Common
  import opened PidMap
  import opened TaskSteps
  import opened TaskRuns

  // ---------- state and PID ----------

  /** A listed task becomes a zombie by its own exit and runnable by a store of wakeup_task, and by
      nothing else; its PID never changes. */
  lemma OnlyExitAndWakeupChangeState(tr: seq<System>, es: seq<Event>, k: nat, i: nat)
    requires IsRun(tr, es) && k < |es| && i < |tr[k].tasks|
    ensures i < |tr[k + 1].tasks| && tr[k].cur < |tr[k].at| && tr[k + 1].tasks[i].pid == tr[k].tasks[i].pid
    ensures tr[k + 1].tasks[i].state
      == if es[k].Exit? && tr[k].cur == i then Zombie
         else if es[k] == WakeStore && tr[k].at[tr[k].cur] == Waking(i) then Runnable
         else tr[k].tasks[i].state
  {
    assert StepAt(tr, es, k);
  }

  /** Only the commit of a fork lists a task: one that has never run, with the smallest PID that is
      free. */
  lemma OnlyCommitsList(tr: seq<System>, es: seq<Event>, k: nat)
    requires IsRun(tr, es) && k < |es| && NoRevival(tr, es, k)
    ensures es[k] != ForkCommit ==> |tr[k + 1].tasks| == |tr[k].tasks|
    ensures es[k] == ForkCommit ==>
      var n := |tr[k].tasks|;
      && |tr[k + 1].tasks| == n + 1
      && var t := tr[k + 1].tasks[n];
      && t.state == Uninit && t.runs == 0 && t.exitCode == 0 && !t.resched
      && t.pid >= 0 && t.pid !in tr[k].taken && forall p: nat | p < t.pid :: p in tr[k].taken
  {
    assert StepAt(tr, es, k);
    RunInv(tr, es, k);
    PidAvailable(tr[k]);
  }

  // ---------- exit_code ----------

  /** The code of the last exit of task i before step m, or 0. */
  ghost function LastCode(tr: seq<System>, es: seq<Event>, i: nat, m: nat): int
    requires m <= |es| < |tr|
    decreases m
  {
    if m == 0 then 0
    else if es[m - 1].Exit? && tr[m - 1].cur == i then es[m - 1].errno
    else LastCode(tr, es, i, m - 1)
  }

  /** exit_code is the code of the task's last exit, and 0 before the first. */
  lemma {:induction false} ExitCodeIsLast(tr: seq<System>, es: seq<Event>, i: nat, m: nat)
    requires IsRun(tr, es) && m < |tr|
    ensures if i < |tr[m].tasks| then tr[m].tasks[i].exitCode == LastCode(tr, es, i, m) else LastCode(tr, es, i, m) == 0
  {
    if m > 0 {
      ExitCodeIsLast(tr, es, i, m - 1);
      assert StepAt(tr, es, m - 1);
    }
  }

  /** So once a task has exited, its code stays what it gave to do_exit for the rest of the run. */
  lemma {:induction false} ExitCodeStays(tr: seq<System>, es: seq<Event>, k: nat, m: nat, errno: int)
    requires IsRun(tr, es) && k < m < |tr| && NoRevival(tr, es, m) && es[k] == Exit(errno)
    ensures var i := tr[k].cur; i < |tr[m].tasks| && tr[m].tasks[i].state == Zombie && tr[m].tasks[i].exitCode == errno
    decreases m
  {
    assert StepAt(tr, es, m - 1);
    if k + 1 < m {
      ExitCodeStays(tr, es, k, m - 1, errno);
    }
  }

  // ---------- need_resched ----------

  /** Whether task i, idle at first, has exited since schedule last took the processor from it. */
  ghost function Asks(tr: seq<System>, es: seq<Event>, i: nat, m: nat): bool
    requires m <= |es| < |tr|
    decreases m
  {
    if m == 0 then i == 0
    else if tr[m - 1].cur == i && es[m - 1] == Schedule then false
    else if tr[m - 1].cur == i && es[m - 1].Exit? then true
    else Asks(tr, es, i, m - 1)
  }

  /** need_resched is set by the task's own exit, and by task_init for idle, and cleared by the
      schedule that the task calls or is interrupted for. */
  lemma {:induction false} ReschedIs(tr: seq<System>, es: seq<Event>, i: nat, m: nat)
    requires IsRun(tr, es) && m < |tr|
    ensures if i < |tr[m].tasks| then tr[m].tasks[i].resched <==> Asks(tr, es, i, m) else !Asks(tr, es, i, m)
  {
    if m > 0 {
      ReschedIs(tr, es, i, m - 1);
      assert StepAt(tr, es, m - 1);
    }
  }

  /** The exit of a task sets need_resched, which is the condition of cpu_idle. The next step is
      schedule; it clears the flag and goes on to the next runnable task down the list. */
  lemma ExitGivesUpProcessor(tr: seq<System>, es: seq<Event>, k: nat)
    requires IsRun(tr, es) && k + 1 < |es| && es[k].Exit?
    ensures var i := tr[k].cur;
      && tr[k + 1].cur == i && i < |tr[k + 1].tasks| && tr[k + 1].tasks[i].resched
      && es[k + 1] == Schedule
      && i < |tr[k + 2].tasks| && !tr[k + 2].tasks[i].resched
      && var ts, n := tr[k + 2].tasks, tr[k + 2].cur;
      n < i && IsRunnable(ts[n]) && forall j | n < j < i :: !IsRunnable(ts[j])
  {
    assert StepAt(tr, es, k) && StepAt(tr, es, k + 1);
    RunIdles(tr, es, k + 1);
    PickIs(tr[k + 1]);
    var ts, ts' := tr[k + 1].tasks, tr[k + 2].tasks;
    forall j | 0 <= j < |ts| ensures j < |ts'| && IsRunnable(ts'[j]) == IsRunnable(ts[j]) {
      OnlyExitAndWakeupChangeState(tr, es, k + 1, j);
    }
  }

  // ---------- runs_time ----------

  /** runs_time is the number of times that schedule has picked the task, modulo 2^32. */
  lemma {:induction false} RunsAreAllPicks(tr: seq<System>, es: seq<Event>, t: nat, m: nat)
    requires IsRun(tr, es) && m < |tr|
    ensures if t < |tr[m].tasks| then tr[m].tasks[t].runs == Picks(tr, es, t, 0, m) % 0x1_0000_0000
      else Picks(tr, es, t, 0, m) == 0
  {
    if m > 0 {
      RunsAreAllPicks(tr, es, t, m - 1);
      if t < |tr[m - 1].tasks| {
        RunsInRun(tr, es, m - 1, t);
      } else {
        UnlistedNotPicked(tr, es, t, m);
      }
    }
  }

  lemma UnlistedNotPicked(tr: seq<System>, es: seq<Event>, t: nat, m: nat)
    requires IsRun(tr, es) && 0 < m < |tr| && t >= |tr[m - 1].tasks|
    ensures !(es[m - 1] == Schedule && tr[m].cur == t) && (t < |tr[m].tasks| ==> tr[m].tasks[t].runs == 0)
  {
    assert StepAt(tr, es, m - 1);
  }
}
