/** When tasks run, told from the events of a run alone: when each task was added, and when its
    callback last began and ended. */
module SchedTimes {
  import opened Basics
  import opened SchedSpec
  import opened SchedRuns

  /** One run of a callback. */
  datatype Span = Span(begin: nat, end: nat)

  /** What a run has done: the tasks added, when, and the last span of each that has run. */
  datatype History = History(cfgs: seq<TaskCfg>, born: seq<nat>, spans: map<nat, Span>)

  const NOTHING: History := History([], [], map[])

  ghost function Noted(s: State, e: Event, h: History): History
    requires Inv(s) && Timely(s, e)
  {
    match e
    case Add(cfg, ts) => h.(cfgs := h.cfgs + [cfg], born := h.born + [ts])
    case Exec(now, end) =>
      match ExecOutcome(s, now)
      case Ran(x) => h.(spans := h.spans[x := Span(now, end)])
      case _ => h
  }

  ghost function HistoryOf(s: State, es: seq<Event>, h: History): History
    requires Inv(s) && IsRun(s, es)
    decreases |es|
  {
    if es == [] then h else HistoryOf(After(s, es[0]), es[1..], Noted(s, es[0], h))
  }

  /** When a task is due: a period after its last run ended, at first a delay after it was added. */
  ghost function Due(h: History, x: nat): nat
    requires x < |h.cfgs| == |h.born|
  {
    if x in h.spans then h.spans[x].end + h.cfgs[x].period else h.born[x] + h.cfgs[x].delayTick
  }

  ghost predicate Told(t: Task, h: History, x: nat, clock: nat)
    requires x < |h.cfgs| == |h.born|
  {
    t.cfg == h.cfgs[x] && t.createTs == h.born[x] &&
    (x in h.spans ==> h.spans[x].end <= clock && h.spans[x].begin <= h.spans[x].end &&
                      t.elapsed == h.spans[x].end - h.spans[x].begin) &&
    (t.state == Running ==> t.nextExecTs == Due(h, x))
  }

  ghost predicate Tells(s: State, h: History) {
    |h.cfgs| == |h.born| == |s.tasks| &&
    (forall x :: x in h.spans ==> x < |s.tasks|) &&
    (forall x :: 0 <= x < |s.tasks| ==> Told(s.tasks[x], h, x, s.clock))
  }

  lemma AddTells(s: State, cfg: TaskCfg, ts: nat, h: History)
    requires Inv(s) && Timely(s, Add(cfg, ts)) && Tells(s, h)
    ensures Tells(After(s, Add(cfg, ts)), Noted(s, Add(cfg, ts), h))
  {
    AddReady(s, Task(cfg, Running, 0, 0, ts, ts + cfg.delayTick));
    hide Inv, Enqueued;
    var s1, h1 := After(s, Add(cfg, ts)), Noted(s, Add(cfg, ts), h);
    forall x | 0 <= x < |s1.tasks| ensures Told(s1.tasks[x], h1, x, s1.clock) {
      if x < |s.tasks| { assert Told(s.tasks[x], h, x, s.clock); }
    }
  }

  /** What a call does to task `x` is what the history says of it. */
  lemma RunIsTold(t: Task, h: History, x: nat, now: nat, end: nat)
    requires x < |h.cfgs| == |h.born| && t.cfg == h.cfgs[x] && t.createTs == h.born[x] && now <= end && t.state == Running
    ensures Told(TaskAfterRun(t, now, end), h.(spans := h.spans[x := Span(now, end)]), x, end)
  {
  }

  /** A call changes no task but the one that runs. */
  lemma OthersUntouched(s: State, now: nat, end: nat, y: nat)
    requires InRange(s.tasks, s.queue) && now <= end && y < |s.tasks| && ExecOutcome(s, now) != Ran(y)
    ensures |Executed(s, now, end).tasks| == |s.tasks| && Executed(s, now, end).tasks[y] == s.tasks[y]
  {
    hide Picked, TaskAfterRun, Enqueued;
  }

  lemma RunnerIs(s: State, now: nat, end: nat, x: nat)
    requires InRange(s.tasks, s.queue) && now <= end && x < |s.tasks| && ExecOutcome(s, now) == Ran(x)
    ensures |Executed(s, now, end).tasks| == |s.tasks|
    ensures Executed(s, now, end).tasks[x] == TaskAfterRun(s.tasks[x], now, end)
  {
    hide Picked, TaskAfterRun, Enqueued;
  }

  lemma ClockAfter(s: State, now: nat, end: nat)
    requires InRange(s.tasks, s.queue) && s.clock <= now <= end
    ensures s.clock <= Executed(s, now, end).clock && |Executed(s, now, end).tasks| == |s.tasks|
    ensures ExecOutcome(s, now).Ran? ==> Executed(s, now, end).clock == end
  {
    hide Picked, TaskAfterRun, Enqueued;
  }

  lemma OutcomeIsPicked(s: State, now: nat)
    requires Inv(s)
    ensures InRange(s.tasks, s.queue)
    ensures ExecOutcome(s, now).Ran? ==> var x := ExecOutcome(s, now).picked; 0 <= x < |s.tasks| && s.tasks[x].state == Running
  {
    PickedIsLive(s);
  }

  lemma ExecTells(s: State, now: nat, end: nat, h: History)
    requires Inv(s) && Timely(s, Exec(now, end)) && Tells(s, h)
    ensures Tells(After(s, Exec(now, end)), Noted(s, Exec(now, end), h))
  {
    OutcomeIsPicked(s, now);
    ClockAfter(s, now, end);
    var s1, h1, o := Executed(s, now, end), Noted(s, Exec(now, end), h), ExecOutcome(s, now);
    assert After(s, Exec(now, end)) == s1;
    hide Inv, Executed, ExecOutcome, Due, TaskAfterRun;
    forall x: nat | x < |s1.tasks| ensures Told(s1.tasks[x], h1, x, s1.clock) {
      assert Told(s.tasks[x], h, x, s.clock);
      if o == Ran(x) {
        RunnerIs(s, now, end, x);
        RunIsTold(s.tasks[x], h, x, now, end);
      } else {
        OthersUntouched(s, now, end, x);
        DueStays(h, h1, x);
      }
    }
  }

  lemma DueStays(h: History, h1: History, x: nat)
    requires x < |h.cfgs| == |h.born| && h1.cfgs == h.cfgs && h1.born == h.born
    requires x in h.spans <==> x in h1.spans
    requires x in h.spans ==> h1.spans[x] == h.spans[x]
    ensures Due(h1, x) == Due(h, x)
  {
  }

  lemma {:induction false} RunTells(s: State, es: seq<Event>, h: History)
    requires Inv(s) && IsRun(s, es) && Tells(s, h)
    ensures Tells(Final(s, es), HistoryOf(s, es, h))
    decreases |es|
  {
    hide Inv, Tells, After, Noted;
    if es != [] {
      StepTells(s, es[0], h);
      RunTells(After(s, es[0]), es[1..], Noted(s, es[0], h));
    }
  }

  lemma FromTheStart(mode: Mode, taskMax: nat, es: seq<Event>)
    requires IsRun(Initial(mode, taskMax), es)
    ensures Tells(Final(Initial(mode, taskMax), es), HistoryOf(Initial(mode, taskMax), es, NOTHING))
  {
    RunTells(Initial(mode, taskMax), es, NOTHING);
  }

  /** In every run, in either mode, a call runs the callback of a task exactly if the task is the
      one chosen, has a callback, and is due by what the events so far say; and it is an error
      exactly if no task is chosen or the chosen one has no callback. */
  lemma RunsExactlyWhenDue(mode: Mode, taskMax: nat, es: seq<Event>, now: nat, x: nat)
    requires IsRun(Initial(mode, taskMax), es)
    ensures var s, h := Final(Initial(mode, taskMax), es), HistoryOf(Initial(mode, taskMax), es, NOTHING);
      |h.cfgs| == |h.born| == |s.tasks| &&
      (s.clock <= now && x < |s.tasks| ==>
        (ExecOutcome(s, now) == Ran(x) <==> Picked(s) == x && h.cfgs[x].hasCallback && Due(h, x) <= now)) &&
      (ExecOutcome(s, now).Invalid? <==> Picked(s) == NULL || !h.cfgs[Picked(s)].hasCallback)
  {
    FromTheStart(mode, taskMax, es);
    var s, h := Final(Initial(mode, taskMax), es), HistoryOf(Initial(mode, taskMax), es, NOTHING);
    PickedIsLive(s);
    assert x < |s.tasks| ==> Told(s.tasks[x], h, x, s.clock) && TaskInv(s.tasks[x], s.clock);
    hide Inv, IsRun, Final, HistoryOf;
  }

  /** In CFS mode no waiting task is due before the one that runs, and of those due at the same
      time none has a smaller priority number. */
  lemma EarliestDueRuns(taskMax: nat, es: seq<Event>, now: nat, x: nat, y: nat)
    requires IsRun(Initial(Cfs, taskMax), es)
    requires var s := Final(Initial(Cfs, taskMax), es);
      s.clock <= now && ExecOutcome(s, now) == Ran(x) && y < |s.tasks| && s.tasks[y].state != Dead && s.tasks[y].cfg.id < taskMax
    ensures var h := HistoryOf(Initial(Cfs, taskMax), es, NOTHING);
      x < |h.cfgs| == |h.born| && y < |h.cfgs| &&
      (Due(h, x) < Due(h, y) || (Due(h, x) == Due(h, y) && h.cfgs[x].priority <= h.cfgs[y].priority))
  {
    FromTheStart(Cfs, taskMax, es);
    ModeStays(Initial(Cfs, taskMax), es);
    var s, h := Final(Initial(Cfs, taskMax), es), HistoryOf(Initial(Cfs, taskMax), es, NOTHING);
    hide IsRun, Final, HistoryOf;
    EarliestRuns(s, now);
    PickedIsLive(s);
    assert Told(s.tasks[x], h, x, s.clock) && Told(s.tasks[y], h, y, s.clock) && TaskInv(s.tasks[y], s.clock);
    assert Cmp(s.tasks[x], s.tasks[y]) <= 0;
  }

  lemma {:induction false} ModeStays(s: State, es: seq<Event>)
    requires Inv(s) && IsRun(s, es)
    ensures Final(s, es).mode == s.mode && Final(s, es).taskMax == s.taskMax
    decreases |es|
  {
    if es != [] {
      StepMode(s, es[0]);
      hide Inv, After;
      ModeStays(After(s, es[0]), es[1..]);
    }
  }

  lemma StepMode(s: State, e: Event)
    requires Inv(s) && Timely(s, e)
    ensures After(s, e).mode == s.mode && After(s, e).taskMax == s.taskMax
  {
    if e.Add? { AddReady(s, Task(e.cfg, Running, 0, 0, e.ts, e.ts + e.cfg.delayTick)); } else { ExecReady(s); }
    hide Inv, Enqueued;
  }

  // ----- the times between the runs of a task

  /** Event `k` of the run calls the callback of task `x`. */
  ghost predicate RunsAt(s: State, es: seq<Event>, k: nat, x: nat)
    requires Inv(s) && IsRun(s, es) && k < |es|
    decreases |es|
  {
    if k == 0 then es[0].Exec? && ExecOutcome(s, es[0].now) == Ran(x)
    else RunsAt(After(s, es[0]), es[1..], k - 1, x)
  }

  lemma StepTells(s: State, e: Event, h: History)
    requires Inv(s) && Timely(s, e) && Tells(s, h)
    ensures Tells(After(s, e), Noted(s, e, h))
  {
    match e {
      case Add(cfg, ts) => AddTells(s, cfg, ts, h);
      case Exec(now, end) => ExecTells(s, now, end, h);
    }
  }

  /** The last run of a task only becomes later. */
  lemma SpansMoveOn(s: State, e: Event, h: History, x: nat)
    requires Inv(s) && Timely(s, e) && Tells(s, h) && x in h.spans
    ensures var h1 := Noted(s, e, h);
      x in h1.spans && h.spans[x].end <= h1.spans[x].end && x < |h.cfgs| <= |h1.cfgs| && h1.cfgs[x] == h.cfgs[x]
  {
    assert Told(s.tasks[x], h, x, s.clock);
    hide Inv, ExecOutcome;
  }

  lemma DueBeforeRun(s: State, now: nat, h: History, x: nat)
    requires Inv(s) && Tells(s, h) && ExecOutcome(s, now) == Ran(x)
    ensures x < |h.cfgs| == |h.born| && Due(h, x) <= now
    ensures x in h.spans ==> Due(h, x) == h.spans[x].end + h.cfgs[x].period
  {
    PickedIsLive(s);
    hide Inv;
    assert Told(s.tasks[x], h, x, s.clock);
  }

  lemma OneStepOn(s: State, es: seq<Event>, k: nat, x: nat)
    requires Inv(s) && IsRun(s, es) && 0 < k < |es| && RunsAt(s, es, k, x)
    ensures Timely(s, es[0]) && IsRun(After(s, es[0]), es[1..]) && RunsAt(After(s, es[0]), es[1..], k - 1, x)
    ensures Final(s, es) == Final(After(s, es[0]), es[1..]) && es[k] == es[1..][k - 1]
  {
    hide Inv, After;
  }

  lemma FirstRunsAt(s: State, es: seq<Event>, x: nat)
    requires Inv(s) && IsRun(s, es) && es != [] && RunsAt(s, es, 0, x)
    ensures Timely(s, es[0]) && es[0].Exec? && ExecOutcome(s, es[0].now) == Ran(x)
  {
    hide Inv, After, ExecOutcome;
  }

  lemma {:induction false} WaitsItsPeriod(s: State, es: seq<Event>, h: History, x: nat, j: nat)
    requires Inv(s) && IsRun(s, es) && Tells(s, h) && x in h.spans && j < |es| && RunsAt(s, es, j, x)
    ensures x < |h.cfgs| && es[j].Exec? && h.spans[x].end + h.cfgs[x].period <= es[j].now
    decreases j
  {
    hide Inv, Tells, After, Noted, Final, IsRun, RunsAt, Timely, ExecOutcome, Due;
    if j == 0 {
      FirstRunsAt(s, es, x);
      DueBeforeRun(s, es[0].now, h, x);
    } else {
      OneStepOn(s, es, j, x);
      StepTells(s, es[0], h);
      SpansMoveOn(s, es[0], h, x);
      WaitsItsPeriod(After(s, es[0]), es[1..], Noted(s, es[0], h), x, j - 1);
    }
  }

  lemma PeriodAfterFirst(s: State, es: seq<Event>, h: History, x: nat, j: nat)
    requires Inv(s) && IsRun(s, es) && Tells(s, h) && 0 < j < |es| && RunsAt(s, es, 0, x) && RunsAt(s, es, j, x)
    ensures x < |h.cfgs| == |s.tasks| && s.tasks[x].cfg == h.cfgs[x] && es[0].Exec? && es[j].Exec?
    ensures es[0].end + h.cfgs[x].period <= es[j].now
  {
    hide Inv, Tells, After, Noted, Final, IsRun, RunsAt, Timely, ExecOutcome;
    FirstRunsAt(s, es, x);
    OneStepOn(s, es, j, x);
    StepTells(s, es[0], h);
    NotedRun(s, es[0], h, x);
    WaitsItsPeriod(After(s, es[0]), es[1..], Noted(s, es[0], h), x, j - 1);
  }

  lemma {:induction false} PeriodFrom(s: State, es: seq<Event>, h: History, x: nat, i: nat, j: nat)
    requires Inv(s) && IsRun(s, es) && Tells(s, h) && i < j < |es| && RunsAt(s, es, i, x) && RunsAt(s, es, j, x)
    ensures x < |Final(s, es).tasks| && es[i].Exec? && es[j].Exec?
    ensures es[i].end + Final(s, es).tasks[x].cfg.period <= es[j].now
    decreases i
  {
    hide Inv, Tells, After, Noted, Final, IsRun, RunsAt, Timely, ExecOutcome;
    if i == 0 {
      PeriodAfterFirst(s, es, h, x, j);
      ExecCntIsRunCount(s, es, x);
    } else {
      OneStepOn(s, es, i, x);
      OneStepOn(s, es, j, x);
      StepTells(s, es[0], h);
      PeriodFrom(After(s, es[0]), es[1..], Noted(s, es[0], h), x, i - 1, j - 1);
    }
  }

  lemma NotedRun(s: State, e: Event, h: History, x: nat)
    requires Inv(s) && Timely(s, e) && Tells(s, h) && e.Exec? && ExecOutcome(s, e.now) == Ran(x)
    ensures var h1 := Noted(s, e, h); x in h1.spans && h1.spans[x].end == e.end && h1.cfgs == h.cfgs
    ensures x < |h.cfgs| == |s.tasks| && s.tasks[x].cfg == h.cfgs[x]
  {
    OutcomeIsPicked(s, e.now);
    hide Inv, ExecOutcome;
    assert Told(s.tasks[x], h, x, s.clock);
  }

  /** Between the end of one run of a task and the start of any later one lies at least its
      period, in every run and in either mode. */
  lemma PeriodBetweenRuns(mode: Mode, taskMax: nat, es: seq<Event>, x: nat, i: nat, j: nat)
    requires IsRun(Initial(mode, taskMax), es) && i < j < |es|
    requires RunsAt(Initial(mode, taskMax), es, i, x) && RunsAt(Initial(mode, taskMax), es, j, x)
    ensures var s := Final(Initial(mode, taskMax), es);
      x < |s.tasks| && es[i].Exec? && es[j].Exec? && es[i].end + s.tasks[x].cfg.period <= es[j].now
  {
    PeriodFrom(Initial(mode, taskMax), es, NOTHING, x, i, j);
  }
}
