/** What the scheduler guarantees over whole runs of `sched_add_task` and `sched_exec`. */
module SchedRuns {
  import opened SchedSpec

  datatype Event = Add(cfg: TaskCfg, ts: nat) | Exec(now: nat, end: nat)

  /** The clock does not go back, and there is room for a task that is added. */
  ghost predicate Timely(s: State, e: Event) {
    match e
    case Add(_, ts) => s.clock <= ts && |s.tasks| < s.taskMax
    case Exec(now, end) => s.clock <= now <= end
  }

  ghost function After(s: State, e: Event): (s1: State)
    requires Inv(s) && Timely(s, e)
    ensures Inv(s1)
  {
    match e
    case Add(cfg, ts) => AddKeepsInv(s, cfg, ts); Added(s, cfg, ts)
    case Exec(now, end) => ExecKeepsInv(s, now, end); Executed(s, now, end)
  }

  ghost predicate IsRun(s: State, es: seq<Event>)
    requires Inv(s)
    decreases |es|
  {
    es == [] || (Timely(s, es[0]) && IsRun(After(s, es[0]), es[1..]))
  }

  /** The state a run ends in; the invariant holds there, as in every state on the way. */
  ghost function Final(s: State, es: seq<Event>): (s1: State)
    requires Inv(s) && IsRun(s, es)
    ensures Inv(s1)
    decreases |es|
  {
    if es == [] then s else Final(After(s, es[0]), es[1..])
  }

  lemma PrefixStep(s: State, es: seq<Event>, j: nat)
    requires Inv(s) && es != [] && Timely(s, es[0]) && j < |es|
    requires IsRun(After(s, es[0]), es[1..][..j])
    ensures IsRun(s, es[..j + 1]) && Final(s, es[..j + 1]) == Final(After(s, es[0]), es[1..][..j])
  {
    hide Inv, After;
    assert es[..j + 1][1..] == es[1..][..j] && es[..j + 1][0] == es[0];
  }

  ghost function Initial(mode: Mode, taskMax: nat): (s: State)
    ensures Inv(s)
  {
    State(mode, taskMax, [], [], 0, 0)
  }

  // ----- execution counts

  ghost function Runs(s: State, e: Event, i: nat): nat
    requires Inv(s)
  {
    if e.Exec? && ExecOutcome(s, e.now) == Ran(i) then 1 else 0
  }

  /** How often a run calls the callback of task `i`. */
  ghost function RunCount(s: State, es: seq<Event>, i: nat): nat
    requires Inv(s) && IsRun(s, es)
    decreases |es|
  {
    if es == [] then 0 else Runs(s, es[0], i) + RunCount(After(s, es[0]), es[1..], i)
  }

  ghost function CountOf(s: State, i: nat): nat {
    if i < |s.tasks| then s.tasks[i].execCnt else 0
  }

  lemma {:induction false} ExecCntIsRunCount(s: State, es: seq<Event>, i: nat)
    requires Inv(s) && IsRun(s, es)
    ensures CountOf(Final(s, es), i) == CountOf(s, i) + RunCount(s, es, i)
    ensures i < |s.tasks| ==> i < |Final(s, es).tasks| && Final(s, es).tasks[i].cfg == s.tasks[i].cfg
    decreases |es|
  {
    hide Inv, After, Runs, CountOf;
    if es != [] {
      StepCounts(s, es[0], i);
      ExecCntIsRunCount(After(s, es[0]), es[1..], i);
    }
  }

  lemma StepCounts(s: State, e: Event, i: nat)
    requires Inv(s) && Timely(s, e)
    ensures CountOf(After(s, e), i) == CountOf(s, i) + Runs(s, e, i)
    ensures i < |s.tasks| ==> i < |After(s, e).tasks| && After(s, e).tasks[i].cfg == s.tasks[i].cfg
  {
    if e.Add? { AddReady(s, Task(e.cfg, Running, 0, 0, e.ts, e.ts + e.cfg.delayTick)); } else { ExecReady(s); }
    hide Inv, Enqueued;
  }

  /** A capped task runs at most `exec_cnt_max` times, and is DEAD exactly when it has
      run that often; an uncapped one never dies. */
  lemma CappedTasks(mode: Mode, taskMax: nat, es: seq<Event>, i: nat)
    requires IsRun(Initial(mode, taskMax), es)
    ensures var s, n := Final(Initial(mode, taskMax), es), RunCount(Initial(mode, taskMax), es, i);
      i < |s.tasks| ==> var t := s.tasks[i];
        && (t.state == Dead <==> t.cfg.execCntMax > 0 && n == t.cfg.execCntMax)
        && (t.cfg.execCntMax > 0 ==> n <= t.cfg.execCntMax)
  {
    hide IsRun, Final, RunCount;
    ExecCntIsRunCount(Initial(mode, taskMax), es, i);
    var s := Final(Initial(mode, taskMax), es);
    assert i < |s.tasks| ==> TaskInv(s.tasks[i], s.clock);
  }

  lemma {:induction false} DeadStaysDead(s: State, es: seq<Event>, i: nat)
    requires Inv(s) && IsRun(s, es) && i < |s.tasks| && s.tasks[i].state == Dead
    ensures i < |Final(s, es).tasks| && Final(s, es).tasks[i] == s.tasks[i] && Picked(Final(s, es)) != i
    ensures RunCount(s, es, i) == 0
    decreases |es|
  {
    PickedIsLive(s);
    hide Inv, After, Runs, Picked;
    if es != [] {
      StepLeavesDead(s, es[0], i);
      DeadStaysDead(After(s, es[0]), es[1..], i);
    }
  }

  lemma StepLeavesDead(s: State, e: Event, i: nat)
    requires Inv(s) && Timely(s, e) && i < |s.tasks| && s.tasks[i].state == Dead
    ensures i < |After(s, e).tasks| && After(s, e).tasks[i] == s.tasks[i] && Runs(s, e, i) == 0
  {
    PickedIsLive(s);
    if e.Add? { AddReady(s, Task(e.cfg, Running, 0, 0, e.ts, e.ts + e.cfg.delayTick)); } else { ExecReady(s); }
    hide Inv, Enqueued;
  }

  // ----- the choice of the task

  /** In CFS mode the task that runs is the earliest of all queued ones. */
  lemma EarliestRuns(s: State, now: nat)
    requires Inv(s) && s.mode == Cfs && ExecOutcome(s, now).Ran?
    ensures var x := ExecOutcome(s, now).picked;
      && s.tasks[x].nextExecTs <= now
      && forall i :: 0 <= i < |s.tasks| && Queued(s, s.tasks[i]) ==> Cmp(s.tasks[x], s.tasks[i]) <= 0
  {
    forall i | 0 <= i < |s.tasks| && Queued(s, s.tasks[i]) ensures Cmp(s.tasks[s.queue[0]], s.tasks[i]) <= 0 {
      var k :| 0 <= k < |s.queue| && s.queue[k] == i;
    }
  }

  /** A call that reports success without running a callback means exactly that no queued
      task is due: neither the order of the queue nor the delay test hides one. */
  lemma IdleMeansNothingDue(s: State, now: nat)
    requires Inv(s) && s.mode == Cfs && s.clock <= now
    ensures ExecOutcome(s, now).NotDue? <==>
      && s.queue != [] && s.tasks[s.queue[0]].cfg.hasCallback
      && forall i :: 0 <= i < |s.tasks| && Queued(s, s.tasks[i]) ==> now < s.tasks[i].nextExecTs
  {
    forall i | 0 <= i < |s.tasks| && Queued(s, s.tasks[i])
      ensures s.tasks[s.queue[0]].nextExecTs <= s.tasks[i].nextExecTs
    {
      var k :| 0 <= k < |s.queue| && s.queue[k] == i;
      assert k > 0 ==> Cmp(s.tasks[s.queue[0]], s.tasks[s.queue[k]]) <= 0;
    }
    if s.queue != [] {
      assert s.queue[0] in s.queue && TaskInv(s.tasks[s.queue[0]], s.clock);
    }
  }

  /** The queue never holds a task whose id is out of range, and no run of one happens. */
  lemma OutOfRangeNeverRuns(s: State, now: nat, i: nat)
    requires Inv(s) && s.mode == Cfs && i < |s.tasks| && s.tasks[i].cfg.id >= s.taskMax
    ensures i !in s.queue && ExecOutcome(s, now) != Ran(i)
  {
    if s.queue != [] { assert s.queue[0] in s.queue; }
  }

  /** What is not later than a new task keeps its place. */
  lemma EarlierStays(tasks: seq<Task>, q: seq<nat>, x: nat, i: nat)
    requires InRange(tasks, q) && x < |tasks| && Sorted(tasks, q)
    requires i < |q| && Cmp(tasks[x], tasks[q[i]]) >= 0
    ensures Enqueued(tasks, q, x)[i] == q[i]
  {
    var k := EnqueuedSplit(tasks, q, x);
  }

  // ----- bounded waiting in CFS mode

  ghost predicate OnlyExec(es: seq<Event>) {
    forall k :: 0 <= k < |es| ==> es[k].Exec?
  }

  /** The tasks up to position `p` can run, and do not come back within the same tick. */
  ghost predicate Willing(s: State, p: nat)
    requires InRange(s.tasks, s.queue)
  {
    forall k :: 0 <= k <= p < |s.queue| ==>
      s.tasks[s.queue[k]].cfg.hasCallback && s.tasks[s.queue[k]].cfg.period >= 1
  }

  /** A task that comes back later than the first `p` tasks of the queue stays behind them. */
  lemma StaysBehind(tasks: seq<Task>, q: seq<nat>, x: nat, p: nat)
    requires InRange(tasks, q) && x < |tasks| && Sorted(tasks, q)
    requires 0 < p <= |q| && Cmp(tasks[x], tasks[q[p - 1]]) >= 0
    ensures forall k :: 0 <= k < p ==> Enqueued(tasks, q, x)[k] == q[k]
  {
    forall k | 0 <= k < p ensures Enqueued(tasks, q, x)[k] == q[k] {
      assert k < p - 1 ==> Cmp(tasks[q[k]], tasks[q[p - 1]]) <= 0;
      EarlierStays(tasks, q, x, k);
    }
  }

  lemma DueHeadRuns(s: State, now: nat, p: nat)
    requires Inv(s) && s.mode == Cfs && s.clock <= now && p < |s.queue| && Willing(s, p)
    requires s.tasks[s.queue[p]].nextExecTs <= now
    ensures ExecOutcome(s, now) == Ran(s.queue[0])
  {
    assert p > 0 ==> Cmp(s.tasks[s.queue[0]], s.tasks[s.queue[p]]) <= 0;
    assert s.queue[0] in s.queue && TaskInv(s.tasks[s.queue[0]], s.clock);
  }

  /** Running the head moves a due task one place forward. */
  lemma HeadRuns(s: State, now: nat, end: nat, p: nat)
    requires Inv(s) && s.mode == Cfs && s.clock <= now <= end && 0 < p < |s.queue| && Willing(s, p)
    requires s.tasks[s.queue[p]].nextExecTs <= now
    ensures var s1 := Executed(s, now, end);
      && s1.mode == Cfs && p - 1 < |s1.queue| && InRange(s1.tasks, s1.queue)
      && (forall k :: 0 <= k <= p - 1 ==> s1.queue[k] == s.queue[k + 1] && s1.tasks[s1.queue[k]] == s.tasks[s.queue[k + 1]])
  {
    DueHeadRuns(s, now, p);
    var s1, x, rest := Executed(s, now, end), s.queue[0], s.queue[1..];
    ExecReady(s);
    HeadReady(s, TaskAfterRun(s.tasks[x], now, end));
    assert s.tasks[s.queue[0]].cfg.period >= 1;
    hide Inv, Enqueued, Sorted;
    assert forall k :: 0 <= k < |rest| ==> rest[k] == s.queue[k + 1] && rest[k] != x;
    if s1.tasks[x].state != Dead && s1.tasks[x].cfg.id < s.taskMax {
      assert s1.tasks[x].nextExecTs > s1.tasks[rest[p - 1]].nextExecTs;
      StaysBehind(s1.tasks, rest, x, p);
    }
  }

  /** A due task at position `p` is the one that the (p+1)-th further call runs. */
  lemma {:induction false} BoundedWaiting(s: State, es: seq<Event>, p: nat)
    requires Inv(s) && s.mode == Cfs && IsRun(s, es) && OnlyExec(es) && |es| == p + 1
    requires p < |s.queue| && Willing(s, p) && s.tasks[s.queue[p]].nextExecTs <= es[0].now
    ensures IsRun(s, es[..p]) && ExecOutcome(Final(s, es[..p]), es[p].now) == Ran(s.queue[p])
    decreases p
  {
    DueHeadRuns(s, es[0].now, p);
    if p > 0 {
      hide Final;
      var s1 := After(s, es[0]);
      WaitStep(s, es, p);
      BoundedWaiting(s1, es[1..], p - 1);
      PrefixStep(s, es, p - 1);
    }
  }

  lemma WaitStep(s: State, es: seq<Event>, p: nat)
    requires Inv(s) && s.mode == Cfs && IsRun(s, es) && OnlyExec(es) && |es| == p + 1
    requires 0 < p < |s.queue| && Willing(s, p) && s.tasks[s.queue[p]].nextExecTs <= es[0].now
    ensures var s1 := After(s, es[0]);
      && s1.mode == Cfs && IsRun(s1, es[1..]) && OnlyExec(es[1..]) && p - 1 < |s1.queue| && Willing(s1, p - 1)
      && s1.queue[p - 1] == s.queue[p] && s1.tasks[s.queue[p]].nextExecTs <= es[1].now
  {
    var s1 := After(s, es[0]);
    HeadRuns(s, es[0].now, es[0].end, p);
    ClockMoves(s, es[0].now, es[0].end);
    hide Executed, Inv;
    assert es[1..][0] == es[1] && es[1].Exec?;
    assert Timely(s1, es[1]);
    forall k | 0 <= k <= p - 1 ensures s1.tasks[s1.queue[k]] == s.tasks[s.queue[k + 1]] {}
  }

  lemma ClockMoves(s: State, now: nat, end: nat)
    requires InRange(s.tasks, s.queue) && now <= end
    ensures now <= Executed(s, now, end).clock
  {
  }

  // ----- the round robin of FCFS mode

  /** `x` stands `e` places after `prev` in the round of `n` tasks. */
  ghost predicate StandsAt(prev: nat, e: nat, x: nat, n: nat) {
    n > 0 && e < n && (prev + e) % n == x
  }

  lemma SmallMod(v: nat, n: nat)
    requires 0 < n && v < 2 * n
    ensures v % n == if v < n then v else v - n
  {
    if v >= n {
      assert v == (v / n) * n + v % n;
      assert v / n == 1;
    }
  }

  lemma StandsSomewhere(prev: nat, x: nat, n: nat) returns (e: nat)
    requires x < n && prev <= n
    ensures StandsAt(prev, e, x, n)
  {
    e := if prev == n then x else if x >= prev then x - prev else x + n - prev;
    SmallMod(prev + e, n);
  }

  lemma {:induction false} FindsNoLater(tasks: seq<Task>, prev: nat, i: nat, e: nat) returns (d: nat)
    requires i <= e < |tasks| && tasks[(prev + e) % |tasks|].state == Running
    ensures i <= d <= e && FcfsFind(tasks, prev, i) == (prev + d) % |tasks|
    decreases |tasks| - i
  {
    if tasks[(prev + i) % |tasks|].state == Running { d := i; }
    else { d := FindsNoLater(tasks, prev, i + 1, e); }
  }

  lemma AfterExec(s: State, es: seq<Event>)
    requires Inv(s) && IsRun(s, es) && OnlyExec(es) && es != []
    ensures Timely(s, es[0]) && s.clock <= es[0].now <= es[0].end
    ensures After(s, es[0]) == Executed(s, es[0].now, es[0].end) && Inv(After(s, es[0]))
    ensures IsRun(After(s, es[0]), es[1..]) && OnlyExec(es[1..])
  {
    ExecKeepsInv(s, es[0].now, es[0].end);
  }

  /** `x` can run and stands `e` places ahead. */
  ghost predicate Awaits(s: State, x: nat, e: nat) {
    s.mode == Fcfs && x < |s.tasks| && s.tasks[x].state == Running && StandsAt(s.prevIdx, e, x, |s.tasks|)
  }

  /** A call that chooses another task brings `x` closer. */
  lemma CloserByACall(s: State, es: seq<Event>, x: nat, e: nat) returns (e1: nat)
    requires Inv(s) && IsRun(s, es) && OnlyExec(es) && es != [] && Awaits(s, x, e) && Picked(s) != x
    ensures Timely(s, es[0]) && e1 < e && Awaits(After(s, es[0]), x, e1)
  {
    ExecReady(s);
    hide Inv, StandsAt;
    AfterExec(s, es);
    var d := Finds(s, x, e);
    PickAdvances(s, es[0].now, es[0].end, x, d, e);
    e1 := e - d - 1;
  }

  lemma Finds(s: State, x: nat, e: nat) returns (d: nat)
    requires InRange(s.tasks, s.queue) && Awaits(s, x, e)
    ensures d <= e && Picked(s) == (s.prevIdx + d) % |s.tasks|
  {
    d := FindsNoLater(s.tasks, s.prevIdx, 0, e);
  }

  /** A running task that stands `e` places ahead is chosen by one of the next `e + 1`
      calls, and so within as many calls as there are tasks. */
  lemma {:induction false} RoundRobin(s: State, es: seq<Event>, x: nat, e: nat) returns (j: nat)
    requires Inv(s) && IsRun(s, es) && OnlyExec(es) && Awaits(s, x, e) && e < |es|
    ensures j <= e && IsRun(s, es[..j]) && Picked(Final(s, es[..j])) == x
    decreases e
  {
    if Picked(s) == x {
      j := 0;
    } else {
      hide Inv, Awaits, Picked, Executed;
      AfterExec(s, es);
      var e1 := CloserByACall(s, es, x, e);
      hide IsRun, OnlyExec, Final;
      var i := RoundRobin(After(s, es[0]), es[1..], x, e1);
      j := i + 1;
      PrefixStep(s, es, i);
    }
  }

  /** A task that stays RUNNING is chosen within `task_num` consecutive calls. */
  lemma FcfsIsFair(s: State, es: seq<Event>, x: nat) returns (j: nat)
    requires Inv(s) && s.mode == Fcfs && IsRun(s, es) && OnlyExec(es) && |es| == |s.tasks|
    requires x < |s.tasks| && s.tasks[x].state == Running
    ensures j < |s.tasks| && IsRun(s, es[..j]) && Picked(Final(s, es[..j])) == x
  {
    var e := StandsSomewhere(s.prevIdx, x, |s.tasks|);
    j := RoundRobin(s, es, x, e);
  }

  lemma PickAdvances(s: State, now: nat, end: nat, x: nat, d: nat, e: nat)
    requires Inv(s) && s.mode == Fcfs && s.clock <= now <= end
    requires x < |s.tasks| && s.tasks[x].state == Running && StandsAt(s.prevIdx, e, x, |s.tasks|)
    requires d <= e && Picked(s) == (s.prevIdx + d) % |s.tasks| && Picked(s) != x
    ensures var s1 := Executed(s, now, end);
      && s1.mode == Fcfs && |s1.tasks| == |s.tasks| && s1.tasks[x].state == Running
      && d < e && StandsAt(s1.prevIdx, e - d - 1, x, |s.tasks|)
  {
    var n, s1 := |s.tasks|, Executed(s, now, end);
    SmallMod(s.prevIdx + d, n);
    SmallMod(s.prevIdx + e, n);
    SmallMod(s1.prevIdx + (e - d - 1), n);
  }
}
