/** Promises that the task system does not keep: the limit on tasks, which do_fork tests before its
    atomic section, and that a zombie is never woken, which wakeup_task tests before its store. */
module TaskLimit {
  import opened PidMap
  import opened TaskSteps
  import opened TaskRuns

  // ---------- when the limit holds ----------

  /** The tasks there will be once every fork that has passed the test has committed. */
  ghost function Load(s: System): int { s.nr + |Waiting(s.at)| }

  lemma LoadStep(s: System, e: Event)
    requires WellFormed(s) && Enabled(s, e)
    ensures Load(Next(s, e)) <= Load(s) + if e == ForkCheck && s.nr < MAX_TASK then 1 else 0
    ensures e == ForkCheck && s.nr < MAX_TASK ==> Load(Next(s, e)) == Load(s) + 1
  {
    match e
    case ForkCheck => WaitingMoved(s.at, s.cur, Checked);
    case ForkCommit =>
      WaitingListed(s.at, s.cur, |s.tasks|);
      assert s.cur in Waiting(s.at);
    case WakeTest(id) => WaitingMoved(s.at, s.cur, if Live(s.tasks[id]) then Waking(id) else Outside);
    case WakeStore => WaitingMoved(s.at, s.cur, Outside);
    case _ =>
  }

  lemma WaitingMoved(at: seq<Place>, i: nat, p: Place)
    requires i < |at| && at[i] != Checked
    ensures Waiting(at[i := p]) == Waiting(at) + if p == Checked then {i} else {}
  {
    forall j: nat ensures j in Waiting(at[i := p]) <==> j in Waiting(at) || (j == i && p == Checked) {
    }
  }

  /** Step k passes the test of do_fork. */
  ghost predicate Passes(tr: seq<System>, es: seq<Event>, k: nat)
    requires k < |es| < |tr|
  {
    es[k] == ForkCheck && tr[k].nr < MAX_TASK
  }

  /** The load stays within the limit exactly if each passing test finds it below the limit: the
      test would have to count the waiting forks as well. */
  lemma {:induction false} LimitHoldsIff(tr: seq<System>, es: seq<Event>, n: nat)
    requires IsRun(tr, es) && n < |tr|
    ensures (forall k: nat {:trigger Load(tr[k])} | k <= n :: Load(tr[k]) <= MAX_TASK)
      <==> forall k: nat {:trigger Passes(tr, es, k)} | k < n && Passes(tr, es, k) :: Load(tr[k]) < MAX_TASK
  {
    if n == 0 {
      assert Waiting(Start().at) == {};
    } else {
      LimitHoldsIff(tr, es, n - 1);
      assert StepAt(tr, es, n - 1);
      LoadStep(tr[n - 1], es[n - 1]);
      assert Passes(tr, es, n - 1) <==> es[n - 1] == ForkCheck && tr[n - 1].nr < MAX_TASK;
    }
  }

  // ---------- an overload becomes too many tasks ----------

  /** The events es lead from s to s'. */
  ghost predicate Leads(s: System, es: seq<Event>, s': System)
    decreases |es|
  {
    if es == [] then s == s'
    else WellFormed(s) && Enabled(s, es[0]) && Leads(Next(s, es[0]), es[1..], s')
  }

  lemma {:induction false} LeadsOn(s: System, es: seq<Event>, s1: System, fs: seq<Event>, s2: System)
    requires Leads(s, es, s1) && Leads(s1, fs, s2)
    ensures Leads(s, es + fs, s2)
    decreases |es|
  {
    if es == [] {
      assert es + fs == fs;
    } else {
      LeadsOn(Next(s, es[0]), es[1..], s1, fs, s2);
      assert (es + fs)[1..] == es[1..] + fs;
    }
  }

  ghost predicate OnlyCommits(es: seq<Event>) { forall k | 0 <= k < |es| :: es[k] == Schedule || es[k] == ForkCommit }

  /** How far the scan is from task i. */
  ghost function Distance(cur: nat, i: nat, n: nat): int
    requires i < n
  {
    if cur >= i && (cur > 0 || i == 0) then cur - i else if cur == 0 then n - i else n + cur
  }

  /** Scheduling alone reaches any runnable task. */
  lemma {:induction false} ReachTask(s: System, i: nat) returns (es: seq<Event>, s': System)
    requires Inv(s) && i < |s.tasks| && IsRunnable(s.tasks[i])
    ensures Leads(s, es, s') && OnlyCommits(es) && Inv(s') && s'.cur == i && s'.at == s.at && s'.nr == s.nr
    decreases Distance(s.cur, i, |s.tasks|)
  {
    if s.cur == i {
      es, s' := [], s;
    } else {
      PickIs(s);
      StepInv(s, Schedule);
      var fs;
      fs, s' := ReachTask(Scheduled(s), i);
      es := [Schedule] + fs;
      assert es[1..] == fs;
    }
  }

  /** From any state, scheduling and committing alone turn the load into tasks. */
  lemma {:induction false} LoadCommits(s: System) returns (es: seq<Event>, s': System)
    requires Inv(s)
    ensures Leads(s, es, s') && OnlyCommits(es) && Inv(s') && s'.nr == Load(s)
    decreases |Waiting(s.at)|
  {
    if Waiting(s.at) == {} {
      es, s' := [], s;
    } else {
      var i :| i in Waiting(s.at);
      var fs, s1 := ReachTask(s, i);
      var s2 := Next(s1, ForkCommit);
      StepInv(s1, ForkCommit);
      WaitingListed(s1.at, i, |s1.tasks|);
      var gs;
      gs, s' := LoadCommits(s2);
      var hs := [ForkCommit] + gs;
      assert hs[1..] == gs;
      LeadsOn(s, fs, s1, hs, s');
      CommitsTogether(fs, gs);
      es := fs + hs;
    }
  }

  lemma CommitsTogether(fs: seq<Event>, gs: seq<Event>)
    requires OnlyCommits(fs) && OnlyCommits(gs)
    ensures OnlyCommits(fs + ([ForkCommit] + gs))
  {
  }

  lemma {:induction false} CommitsKeepLoad(s: System, es: seq<Event>, s': System)
    requires Leads(s, es, s') && OnlyCommits(es)
    ensures Load(s') <= Load(s)
    decreases |es|
  {
    if es != [] {
      assert es[0] == Schedule || es[0] == ForkCommit;
      LoadStep(s, es[0]);
      assert forall k | 0 <= k < |es[1..]| :: es[1..][k] == es[k + 1];
      CommitsKeepLoad(Next(s, es[0]), es[1..], s');
    }
  }

  /** The events fs lead from s to too many tasks. */
  ghost predicate Overflows(s: System, fs: seq<Event>, s': System) {
    Leads(s, fs, s') && OnlyCommits(fs) && s'.nr > MAX_TASK
  }

  /** From a state of a run, scheduling and committing alone can take nr_task above the limit
      exactly if the load is above it. */
  lemma OverflowsIffOverloaded(tr: seq<System>, es: seq<Event>, k: nat)
    requires IsRun(tr, es) && k < |tr| && NoRevival(tr, es, k)
    ensures (exists fs, s' :: Overflows(tr[k], fs, s')) <==> Load(tr[k]) > MAX_TASK
  {
    if Load(tr[k]) > MAX_TASK {
      RunInv(tr, es, k);
      var fs, s' := LoadCommits(tr[k]);
      assert Overflows(tr[k], fs, s');
    } else if fs, s' :| Overflows(tr[k], fs, s') {
      CommitsKeepLoad(tr[k], fs, s');
    }
  }

  // ---------- runs that reach the failures ----------

  ghost predicate Reachable(s: System) {
    exists tr, es :: IsRun(tr, es) && NoRevival(tr, es, |es|) && tr[|es|] == s
  }

  lemma ReachStart()
    ensures Reachable(Start())
  {
    assert IsRun([Start()], []) && NoRevival([Start()], [], 0);
    assert [Start()][0] == Start();
  }

  lemma ReachNext(s: System, e: Event)
    requires Reachable(s) && WellFormed(s) && Enabled(s, e) && !Revives(s, e)
    ensures Reachable(Next(s, e))
  {
    var tr, es :| IsRun(tr, es) && NoRevival(tr, es, |es|) && tr[|es|] == s;
    var tr', es' := tr + [Next(s, e)], es + [e];
    forall k: nat | k < |es'| ensures StepAt(tr', es', k) && !Revives(tr'[k], es'[k]) {
      if k < |es| {
        assert StepAt(tr, es, k) && !Revives(tr[k], es[k]);
      }
    }
    assert IsRun(tr', es') && NoRevival(tr', es', |es'|) && tr'[|es'|] == Next(s, e);
  }

  lemma ReachInv(s: System)
    requires Reachable(s)
    ensures Inv(s)
  {
    var tr, es :| IsRun(tr, es) && NoRevival(tr, es, |es|) && tr[|es|] == s;
    RunInv(tr, es, |es|);
  }

  lemma {:induction false} ReachLeads(s: System, es: seq<Event>, s': System)
    requires Reachable(s) && Leads(s, es, s') && OnlyCommits(es)
    ensures Reachable(s')
    decreases |es|
  {
    if es != [] {
      assert es[0] == Schedule || es[0] == ForkCommit;
      ReachNext(s, es[0]);
      assert forall k | 0 <= k < |es[1..]| :: es[1..][k] == es[k + 1];
      ReachLeads(Next(s, es[0]), es[1..], s');
    }
  }

  /** Idle runs, and n other tasks are runnable. */
  ghost predicate Crowd(s: System, n: nat) {
    && s.cur == 0 && s.nr == n + 1 && |s.tasks| == n + 1 && |s.at| == n + 1
    && (forall i | 0 <= i <= n :: IsRunnable(s.tasks[i])) && (forall i | 0 <= i <= n :: s.at[i] == Outside)
  }

  lemma {:induction false} CrowdReached(n: nat) returns (s: System)
    requires n < MAX_TASK
    ensures Reachable(s) && Crowd(s, n)
  {
    if n == 0 {
      s := Start();
      ReachStart();
    } else {
      var s0 := CrowdReached(n - 1);
      ReachInv(s0);
      ForkWhole(s0);
      var s1 := Next(s0, ForkCheck);
      var s2 := Next(s1, ForkCommit);
      WakeWhole(s2, n);
      var s3 := Next(s2, WakeTest(n));
      s := Next(s3, WakeStore);
      ReachNext(s0, ForkCheck);
      ReachNext(s1, ForkCommit);
      ReachNext(s2, WakeTest(n));
      ReachNext(s3, WakeStore);
    }
  }

  /** Idle passes the test, and is preempted by the youngest of MAX_TASK - 2 others, which passes it
      too; when both have committed there is one task too many. */
  lemma LimitCanBeExceeded() returns (s: System)
    ensures Reachable(s) && s.nr == 4097
  {
    var n: nat := MAX_TASK - 2;
    var s0 := CrowdReached(n);
    ReachInv(s0);
    var s1 := Next(s0, ForkCheck);
    ReachNext(s0, ForkCheck);
    ReachInv(s1);
    var s2 := Next(s1, Schedule);
    PickIs(s1);
    assert IsRunnable(s1.tasks[n]);
    assert s2.cur == n;
    ReachNext(s1, Schedule);
    var s3 := Next(s2, ForkCheck);
    ReachNext(s2, ForkCheck);
    ReachInv(s3);
    assert Waiting(s3.at) == {0, n};
    var es;
    es, s := LoadCommits(s3);
    ReachLeads(s3, es, s);
  }

  /** Idle tests task 1 and is preempted, and task 1 exits. */
  lemma ExitedUnderTest() returns (s: System)
    ensures Reachable(s) && WellFormed(s) && Inv(s) && |s.tasks| == 2 && s.cur == 1 && s.nr == 1
    ensures |s.at| == 2 && s.at[0] == Waking(1) && !Live(s.tasks[1]) && s.tasks[1].pid !in s.taken
  {
    var s0 := CrowdReached(1);
    ReachInv(s0);
    var s1 := Next(s0, WakeTest(1));
    ReachNext(s0, WakeTest(1));
    ReachInv(s1);
    PickIs(s1);
    assert IsRunnable(s1.tasks[1]);
    var s2 := Next(s1, Schedule);
    ReachNext(s1, Schedule);
    ReachInv(s2);
    s := Next(s2, Exit(0));
    ReachNext(s2, Exit(0));
    ReachInv(s);
  }

  /** Then idle goes on, and its store makes task 1 runnable again, although the PID is free and
      nr_task no longer counts it. */
  lemma ZombieCanBeRevived() returns (s: System)
    ensures Reachable(s) && WellFormed(s) && Enabled(s, WakeStore) && Revives(s, WakeStore)
    ensures var s' := Next(s, WakeStore);
      |s'.tasks| == 2 && Live(s'.tasks[1]) && s'.tasks[1].pid !in s'.taken && s'.nr == 1 && !Inv(s')
  {
    var s3 := ExitedUnderTest();
    PickIs(s3);
    s := Next(s3, Schedule);
    ReachNext(s3, Schedule);
    ReachInv(s);
    StoreInv(s);
  }
}
