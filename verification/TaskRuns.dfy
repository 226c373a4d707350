/** What holds in every run of the task system. */
module TaskRuns {
  import opened Common
  import opened PidMap
  import opened TaskSteps

  // ---------- wakeups ----------

  /** No step before k makes a zombie runnable. */
  ghost predicate NoRevival(tr: seq<System>, es: seq<Event>, k: nat)
    requires k <= |es| < |tr|
  {
    forall j: nat {:trigger es[j]} | j < k :: !Revives(tr[j], es[j])
  }

  lemma {:induction false} RunInv(tr: seq<System>, es: seq<Event>, k: nat)
    requires IsRun(tr, es) && k < |tr| && NoRevival(tr, es, k)
    ensures Inv(tr[k])
  {
    if k == 0 {
      StartInv();
    } else {
      RunInv(tr, es, k - 1);
      assert StepAt(tr, es, k - 1);
      StepInv(tr[k - 1], es[k - 1]);
    }
  }

  /** What all the following rests on holds throughout a run exactly if no store revives a zombie. */
  lemma InvIffNoRevival(tr: seq<System>, es: seq<Event>, k: nat)
    requires IsRun(tr, es) && k < |tr|
    ensures (forall j: nat {:trigger Inv(tr[j])} | j <= k :: Inv(tr[j])) <==> NoRevival(tr, es, k)
  {
    if NoRevival(tr, es, k) {
      forall j: nat | j <= k ensures Inv(tr[j]) {
        RunInv(tr, es, j);
      }
    } else {
      var j: nat :| j < k && Revives(tr[j], es[j]);
      assert StepAt(tr, es, j);
      if Inv(tr[j]) {
        StepInv(tr[j], es[j]);
      }
      assert !Inv(tr[j]) || !Inv(tr[j + 1]);
    }
  }

  /** The child that a task is about to wake, or -1. */
  ghost function Target(p: Place): int {
    match p
    case Listed(child) => child
    case Waking(id) => id
    case _ => -1
  }

  /** A child still to be woken has never run, and one task only is about to wake it. */
  ghost predicate OwnWakes(s: System) {
    && WellFormed(s) && IsRunnable(s.tasks[0]) && s.tasks[s.cur].state != Uninit
    && (forall i {:trigger s.at[i]} | 0 <= i < |s.at| && Target(s.at[i]) >= 0 ::
          Target(s.at[i]) < |s.tasks| && s.tasks[Target(s.at[i])].state == Uninit)
    && (forall i, j {:trigger s.at[i], s.at[j]} | 0 <= i < j < |s.at| && Target(s.at[i]) >= 0 ::
          Target(s.at[i]) != Target(s.at[j]))
  }

  lemma OwnWakesStep(s: System, e: Event)
    requires OwnWakes(s) && Enabled(s, e) && (e.WakeTest? ==> s.at[s.cur].Listed?)
    ensures OwnWakes(Next(s, e)) && !Revives(s, e)
  {
    if e == Schedule {
      PickIs(s);
    }
  }

  /** Every call of wakeup_task comes from do_fork, as all calls in the kernel do. */
  ghost predicate OnlyForksWake(tr: seq<System>, es: seq<Event>) {
    |es| < |tr| && forall k: nat {:trigger es[k]} | k < |es| && es[k].WakeTest? :: WellFormed(tr[k]) && tr[k].at[tr[k].cur].Listed?
  }

  lemma {:induction false} ForksOwnWakes(tr: seq<System>, es: seq<Event>, k: nat)
    requires IsRun(tr, es) && OnlyForksWake(tr, es) && k < |tr|
    ensures OwnWakes(tr[k])
  {
    if k > 0 {
      ForksOwnWakes(tr, es, k - 1);
      assert StepAt(tr, es, k - 1);
      OwnWakesStep(tr[k - 1], es[k - 1]);
    }
  }

  /** The wakeup in do_fork never revives anything, wherever the scheduler comes in. */
  lemma ForksNeverRevive(tr: seq<System>, es: seq<Event>)
    requires IsRun(tr, es) && OnlyForksWake(tr, es)
    ensures NoRevival(tr, es, |es|)
  {
    forall j: nat | j < |es| ensures !Revives(tr[j], es[j]) {
      ForksOwnWakes(tr, es, j);
      assert StepAt(tr, es, j);
      OwnWakesStep(tr[j], es[j]);
    }
  }

  /** So in the kernel as it is the invariant holds in every state of every run. */
  lemma ForksKeepInv(tr: seq<System>, es: seq<Event>, k: nat)
    requires IsRun(tr, es) && OnlyForksWake(tr, es) && k < |tr|
    ensures Inv(tr[k])
  {
    ForksNeverRevive(tr, es);
    RunInv(tr, es, k);
  }

  /** Step j tests task id for the caller c, and step k is the store that belongs to it. */
  ghost predicate TestAndStore(tr: seq<System>, es: seq<Event>, c: nat, id: nat, j: nat, k: nat) {
    && j < k < |es| < |tr| && es[j] == WakeTest(id) && es[k] == WakeStore && tr[j].cur == c && tr[k].cur == c
    && forall i {:trigger tr[i].at} | j < i <= k :: c < |tr[i].at| && tr[i].at[c] == Waking(id)
  }

  /** A store revives a zombie exactly if its target has exited since the test. */
  lemma RevivesIffExitedBetween(tr: seq<System>, es: seq<Event>, c: nat, id: nat, j: nat, k: nat)
    requires IsRun(tr, es) && TestAndStore(tr, es, c, id, j, k) && NoRevival(tr, es, k)
    ensures Revives(tr[k], es[k]) <==> exists m {:trigger es[m]} :: j < m < k && es[m].Exit? && tr[m].cur == id
  {
    assert StepAt(tr, es, j) && StepAt(tr, es, k);
    assert tr[j + 1].at[c] == Waking(id) && tr[k].at[c] == Waking(id);
    if m :| j < m < k && es[m].Exit? && tr[m].cur == id {
      assert StepAt(tr, es, m);
      ZombieForever(tr, es, m + 1, k, id);
    } else {
      StaysLive(tr, es, j + 1, k, id);
    }
  }

  lemma {:induction false} StaysLive(tr: seq<System>, es: seq<Event>, k: nat, m: nat, i: nat)
    requires IsRun(tr, es) && k <= m < |tr| && i < |tr[k].tasks| && Live(tr[k].tasks[i])
    requires forall j {:trigger es[j]} | k <= j < m :: !(es[j].Exit? && tr[j].cur == i)
    ensures i < |tr[m].tasks| && Live(tr[m].tasks[i])
    decreases m
  {
    if k < m {
      StaysLive(tr, es, k, m - 1, i);
      assert StepAt(tr, es, m - 1);
    }
  }

  // ---------- PIDs ----------

  /** However check and commit interleave, nr_task plus the waiting forks stays at most
      2 * MAX_TASK - 2, nr_task is the number of PIDs taken, and do_fork gets a fresh valid PID. */
  lemma ForkAlwaysGetsPid(tr: seq<System>, es: seq<Event>, k: nat)
    requires IsRun(tr, es) && k < |tr| && NoRevival(tr, es, k)
    ensures tr[k].nr + |Waiting(tr[k].at)| <= 2 * MAX_TASK - 2 < MAX_PID
    ensures tr[k].nr == |tr[k].taken| == |LiveIds(tr[k].tasks)|
    ensures k < |es| && es[k] == ForkCommit ==>
      |tr[k + 1].tasks| == |tr[k].tasks| + 1 && 0 <= tr[k + 1].tasks[|tr[k].tasks|].pid < MAX_PID
      && tr[k + 1].tasks[|tr[k].tasks|].pid !in tr[k].taken
  {
    RunInv(tr, es, k);
    if k < |es| && es[k] == ForkCommit {
      assert StepAt(tr, es, k);
      PidAvailable(tr[k]);
    }
  }

  /** Live tasks have different PIDs, all of them marked in the bitmap. */
  lemma LivePidsDistinct(tr: seq<System>, es: seq<Event>, k: nat, i: nat, j: nat)
    requires IsRun(tr, es) && k < |tr| && NoRevival(tr, es, k) && i < j < |tr[k].tasks|
    requires Live(tr[k].tasks[i]) && Live(tr[k].tasks[j])
    ensures tr[k].tasks[i].pid != tr[k].tasks[j].pid
    ensures tr[k].tasks[i].pid in tr[k].taken && tr[k].tasks[j].pid in tr[k].taken
  {
    RunInv(tr, es, k);
  }

  /** find_task on a live task's PID returns that task, whatever zombies once had the same PID, and
      also if younger tasks than the first n are listed while it scans. For PID 0, idle's, it
      returns nothing. */
  lemma FindsLiveTask(tr: seq<System>, es: seq<Event>, k: nat, i: nat, n: nat)
    requires IsRun(tr, es) && k < |tr| && NoRevival(tr, es, k) && i < n <= |tr[k].tasks| && Live(tr[k].tasks[i])
    ensures FindTask(tr[k].tasks, tr[k].tasks[i].pid) == if tr[k].tasks[i].pid > 0 then i else -1
    ensures FindFrom(tr[k].tasks, tr[k].tasks[i].pid, n) == i
  {
    RunInv(tr, es, k);
    var ts := tr[k].tasks;
    FindFromIs(ts, ts[i].pid, i, n);
    FindFromIs(ts, ts[i].pid, i, |ts|);
  }

  /** Conversely, find_task finds a live task exactly for the taken PIDs above 0. */
  lemma FindsLiveIffTaken(tr: seq<System>, es: seq<Event>, k: nat, pid: int)
    requires IsRun(tr, es) && k < |tr| && NoRevival(tr, es, k)
    ensures var r := FindTask(tr[k].tasks, pid);
      (r >= 0 && Live(tr[k].tasks[r])) <==> (pid > 0 && pid in tr[k].taken)
  {
    RunInv(tr, es, k);
    TakenHaveHolders(tr, es, k);
    if pid > 0 && pid in tr[k].taken {
      var i :| 0 <= i < |tr[k].tasks| && Live(tr[k].tasks[i]) && tr[k].tasks[i].pid == pid;
      FindsLiveTask(tr, es, k, i, |tr[k].tasks|);
    }
  }

  ghost predicate EveryPidHeld(s: System) {
    forall p | p in s.taken :: exists i :: 0 <= i < |s.tasks| && Live(s.tasks[i]) && s.tasks[i].pid == p
  }

  /** Every taken PID belongs to a live task: exits never leak one. */
  lemma {:induction false} TakenHaveHolders(tr: seq<System>, es: seq<Event>, k: nat)
    requires IsRun(tr, es) && k < |tr| && NoRevival(tr, es, k)
    ensures EveryPidHeld(tr[k])
  {
    if k == 0 {
      assert Live(Start().tasks[0]);
    } else {
      TakenHaveHolders(tr, es, k - 1);
      RunInv(tr, es, k - 1);
      assert StepAt(tr, es, k - 1);
      HeldStep(tr[k - 1], es[k - 1]);
    }
  }

  lemma HeldStep(s: System, e: Event)
    requires Inv(s) && EveryPidHeld(s) && Enabled(s, e)
    ensures EveryPidHeld(Next(s, e))
  {
    var s' := Next(s, e);
    forall p | p in s'.taken ensures exists i :: 0 <= i < |s'.tasks| && Live(s'.tasks[i]) && s'.tasks[i].pid == p {
      if p in s.taken {
        var i :| 0 <= i < |s.tasks| && Live(s.tasks[i]) && s.tasks[i].pid == p;
        assert Live(s'.tasks[i]) && s'.tasks[i].pid == p;
      } else {
        assert Live(s'.tasks[|s.tasks|]) && s'.tasks[|s.tasks|].pid == p;
      }
    }
  }

  /** Tasks are never unlisted, and a zombie stays one for ever. */
  lemma {:induction false} ZombieForever(tr: seq<System>, es: seq<Event>, k: nat, m: nat, i: nat)
    requires IsRun(tr, es) && k <= m < |tr| && NoRevival(tr, es, m)
    requires i < |tr[k].tasks| && tr[k].tasks[i].state == Zombie
    ensures i < |tr[m].tasks| && tr[m].tasks[i].state == Zombie
    decreases m
  {
    if k < m {
      ZombieForever(tr, es, k, m - 1, i);
      assert StepAt(tr, es, m - 1);
    }
  }

  /** Nor is it ever picked again. */
  lemma ZombieNeverPicked(tr: seq<System>, es: seq<Event>, k: nat, m: nat, i: nat)
    requires IsRun(tr, es) && k <= m < |es| && NoRevival(tr, es, m) && es[m] == Schedule
    requires i < |tr[k].tasks| && tr[k].tasks[i].state == Zombie
    ensures tr[m + 1].cur != i
  {
    ZombieForever(tr, es, k, m, i);
    RunIdles(tr, es, m);
    assert StepAt(tr, es, m);
    PickIs(tr[m]);
  }

  // ---------- round-robin ----------

  lemma {:induction false} RunIdles(tr: seq<System>, es: seq<Event>, k: nat)
    requires IsRun(tr, es) && k < |tr|
    ensures Idles(tr[k])
  {
    if k > 0 {
      RunIdles(tr, es, k - 1);
      assert StepAt(tr, es, k - 1);
    }
  }

  /** With idle runnable, schedule goes down the list from the current task to the next runnable
      one, and from idle to the youngest runnable one. */
  lemma PickIs(s: System)
    requires Idles(s)
    ensures var n := Scheduled(s).cur;
      && n < |s.tasks| && IsRunnable(s.tasks[n])
      && (s.cur > 0 ==> n < s.cur && forall j | n < j < s.cur :: !IsRunnable(s.tasks[j]))
      && (s.cur == 0 ==> forall j | n < j < |s.tasks| :: !IsRunnable(s.tasks[j]))
  {
    var calm := s.tasks[s.cur := s.tasks[s.cur].(resched := false)];
    assert forall j | 0 <= j < |calm| :: IsRunnable(calm[j]) == IsRunnable(s.tasks[j]);
  }

  /** An exit, and the schedule that cpu_idle then calls. */
  lemma ExitWhole(s: System, errno: int)
    requires Inv(s) && Enabled(s, Exit(errno))
    ensures var s1 := Next(s, Exit(errno));
      && WellFormed(s1) && s1.cur == s.cur && s1.tasks[s.cur].resched
      && var s2 := Next(s1, Schedule); var t := s.tasks[s.cur];
      && |s2.tasks| == |s.tasks| && s2.nr == s.nr - 1 && s2.taken == s.taken - {t.pid}
      && s2.tasks[s.cur] == Task(Zombie, t.pid, t.runs, false, errno)
      && s2.cur < s.cur && IsRunnable(s2.tasks[s2.cur])
      && forall j | s2.cur < j < s.cur :: !IsRunnable(s2.tasks[j])
  {
    PickIs(Next(s, Exit(errno)));
  }

  lemma StepRuns(s: System, e: Event, t: nat)
    requires WellFormed(s) && Enabled(s, e) && t < |s.tasks|
    ensures var s' := Next(s, e);
      t < |s'.tasks| && s'.tasks[t].runs
        == if e == Schedule && s'.cur == t then (s.tasks[t].runs + 1) % WORD else s.tasks[t].runs
  {
  }

  /** What step k does to the running task and to the listing. */
  lemma PickInRun(tr: seq<System>, es: seq<Event>, k: nat)
    requires IsRun(tr, es) && k < |es|
    ensures |tr[k].tasks| <= |tr[k + 1].tasks|
    ensures es[k] != Schedule ==> tr[k + 1].cur == tr[k].cur
    ensures es[k] == Schedule ==>
      var c, n := tr[k].cur, tr[k + 1].cur;
      && (c > 0 ==> n < c) && c < |tr[k].tasks|
      && forall j | n < j < (if c > 0 then c else |tr[k].tasks|) :: !IsRunnable(tr[k].tasks[j])
  {
    RunIdles(tr, es, k);
    assert StepAt(tr, es, k);
    PickIs(tr[k]);
  }

  lemma RunsInRun(tr: seq<System>, es: seq<Event>, k: nat, t: nat)
    requires IsRun(tr, es) && k < |es| && t < |tr[k].tasks|
    ensures t < |tr[k + 1].tasks|
    ensures tr[k + 1].tasks[t].runs
      == if es[k] == Schedule && tr[k + 1].cur == t then (tr[k].tasks[t].runs + 1) % WORD else tr[k].tasks[t].runs
  {
    assert StepAt(tr, es, k);
    StepRuns(tr[k], es[k], t);
  }

  /** How often task t is picked by the steps from a up to b. */
  ghost function Picks(tr: seq<System>, es: seq<Event>, t: nat, a: nat, b: nat): nat
    requires a <= b <= |es| < |tr|
    decreases b - a
  {
    if a == b then 0
    else Picks(tr, es, t, a, b - 1) + if es[b - 1] == Schedule && tr[b].cur == t then 1 else 0
  }

  /** Steps a and b pick idle, and no step between them does. */
  ghost predicate Round(tr: seq<System>, es: seq<Event>, a: nat, b: nat) {
    && a < b < |es| < |tr|
    && es[a] == Schedule && tr[a + 1].cur == 0 && es[b] == Schedule && tr[b + 1].cur == 0
    && forall k {:trigger es[k]} | a < k < b && es[k] == Schedule :: tr[k + 1].cur != 0
  }

  /** The scan position passes over each task at most once in a round. */
  lemma {:induction false} ScanPasses(tr: seq<System>, es: seq<Event>, a: nat, b: nat, t: nat, k: nat)
    requires IsRun(tr, es) && Round(tr, es, a, b) && t > 0 && a < k <= b
    ensures tr[k].cur == 0 || tr[k].cur > t ==> Picks(tr, es, t, a + 1, k) == 0
    ensures Picks(tr, es, t, a + 1, k) <= 1
    decreases k
  {
    if k > a + 1 {
      ScanPasses(tr, es, a, b, t, k - 1);
      PickInRun(tr, es, k - 1);
    }
  }

  /** Within a round no task but idle is picked twice, not even one forked meanwhile. */
  lemma PickedAtMostOnce(tr: seq<System>, es: seq<Event>, a: nat, b: nat, t: nat)
    requires IsRun(tr, es) && Round(tr, es, a, b) && t > 0
    ensures Picks(tr, es, t, a + 1, b) <= 1
  {
    ScanPasses(tr, es, a, b, t, b);
  }

  /** Runnable in every state from step a + 1 to step b. */
  ghost predicate StaysRunnable(tr: seq<System>, t: nat, a: nat, b: nat)
    requires b < |tr|
  {
    forall k {:trigger tr[k].tasks} | a < k <= b :: t < |tr[k].tasks| && IsRunnable(tr[k].tasks[t])
  }

  lemma {:induction false} ScanReaches(tr: seq<System>, es: seq<Event>, a: nat, b: nat, t: nat, k: nat)
    requires IsRun(tr, es) && Round(tr, es, a, b) && t > 0 && a < k <= b && StaysRunnable(tr, t, a, b)
    ensures 0 < tr[k].cur <= t ==> Picks(tr, es, t, a + 1, k) == 1
    decreases k
  {
    if k > a + 1 {
      ScanReaches(tr, es, a, b, t, k - 1);
      ScanPasses(tr, es, a, b, t, k - 1);
      PickInRun(tr, es, k - 1);
      assert IsRunnable(tr[k - 1].tasks[t]);
    }
  }

  /** Between two consecutive picks of idle, every task that was listed at the first and stays
      runnable is picked exactly once, whatever is forked, woken or ended in between. */
  lemma PickedExactlyOnce(tr: seq<System>, es: seq<Event>, a: nat, b: nat, t: nat)
    requires IsRun(tr, es) && Round(tr, es, a, b) && t > 0 && StaysRunnable(tr, t, a, b)
    ensures Picks(tr, es, t, a + 1, b) == 1
  {
    ScanReaches(tr, es, a, b, t, b);
    PickInRun(tr, es, b);
    assert IsRunnable(tr[b].tasks[t]);
  }

  /** A 32-bit counter after p ticks. */
  ghost function Ticked(r: nat, p: nat): (r': nat)
    ensures p > 0 ==> r' == (r + p) % WORD
  {
    if p == 0 then r else (Ticked(r, p - 1) + 1) % WORD
  }

  /** runs_time counts a task's picks, modulo 2^32. */
  lemma {:induction false} RunsCountPicks(tr: seq<System>, es: seq<Event>, t: nat, k: nat, m: nat)
    requires IsRun(tr, es) && k <= m < |tr| && t < |tr[k].tasks|
    ensures t < |tr[m].tasks|
    ensures tr[m].tasks[t].runs == Ticked(tr[k].tasks[t].runs, Picks(tr, es, t, k, m))
    decreases m
  {
    if k < m {
      RunsCountPicks(tr, es, t, k, m - 1);
      RunsInRun(tr, es, m - 1, t);
    }
  }

  ghost function Schedules(es: seq<Event>, a: nat, b: nat): nat
    requires a <= b <= |es|
    decreases b - a
  {
    if a == b then 0 else Schedules(es, a, b - 1) + if es[b - 1] == Schedule then 1 else 0
  }

  /** A round ends: from task c on, fewer than c calls of schedule can pass without picking idle,
      however many tasks are forked meanwhile. */
  lemma {:induction false} RoundEnds(tr: seq<System>, es: seq<Event>, a: nat, b: nat)
    requires IsRun(tr, es) && a <= b <= |es| && tr[a].cur > 0
    requires forall k {:trigger es[k]} | a <= k < b && es[k] == Schedule :: tr[k + 1].cur != 0
    ensures 0 < tr[b].cur && Schedules(es, a, b) + tr[b].cur <= tr[a].cur
    decreases b
  {
    if a < b {
      RoundEnds(tr, es, a, b - 1);
      PickInRun(tr, es, b - 1);
    }
  }
}
