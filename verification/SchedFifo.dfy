/** The order of the CFS queue over whole runs: ties stand in the order in which they came,
    and a task does not change while it is linked. */
module SchedFifo {
  import opened Basics
  import opened SchedSpec
  import opened SchedRuns

  /** When a task was last put into the queue, counted in events, and what it was then. */
  datatype Entry = Entry(when: nat, task: Task)

  /** The task that an event puts into the queue, or NULL. */
  ghost function PutIn(s: State, e: Event): (x: int)
    requires Inv(s) && Timely(s, e)
    ensures x == NULL || 0 <= x < |After(s, e).tasks|
  {
    if s.mode == Fcfs then NULL
    else
      match e
      case Add(cfg, _) => if cfg.id < s.taskMax then |s.tasks| else NULL
      case Exec(now, end) =>
        match ExecOutcome(s, now)
        case Ran(x) =>
          var t := TaskAfterRun(s.tasks[x], now, end);
          if t.state != Dead && t.cfg.id < s.taskMax then x else NULL
        case _ => NULL
  }

  ghost function Recorded(s: State, e: Event, t: nat, log: map<nat, Entry>): map<nat, Entry>
    requires Inv(s) && Timely(s, e)
  {
    var x := PutIn(s, e);
    if x == NULL then log else log[x := Entry(t, After(s, e).tasks[x])]
  }

  /** The last entry of every task in a run whose first event has number `t`. */
  ghost function Entries(s: State, es: seq<Event>, t: nat, log: map<nat, Entry>): map<nat, Entry>
    requires Inv(s) && IsRun(s, es)
    decreases |es|
  {
    if es == [] then log else Entries(After(s, es[0]), es[1..], t + 1, Recorded(s, es[0], t, log))
  }

  ghost predicate Unchanged(tasks: seq<Task>, log: map<nat, Entry>, t: nat, x: nat) {
    x < |tasks| && x in log && log[x].when < t && log[x].task == tasks[x]
  }

  ghost predicate InOrder(tasks: seq<Task>, log: map<nat, Entry>, x: nat, y: nat)
    requires x < |tasks| && y < |tasks|
  {
    Cmp(tasks[x], tasks[y]) == 0 ==> x in log && y in log && log[x].when < log[y].when
  }

  /** Every queued task is what it was when it came, and ties stand in the order of coming. */
  ghost predicate Fifo(tasks: seq<Task>, q: seq<nat>, log: map<nat, Entry>, t: nat) {
    InRange(tasks, q) &&
    (forall a :: 0 <= a < |q| ==> Unchanged(tasks, log, t, q[a])) &&
    (forall a, b :: 0 <= a < b < |q| ==> InOrder(tasks, log, q[a], q[b]))
  }

  ghost function Placed(q: seq<nat>, k: nat, x: nat): (r: seq<nat>)
    requires k <= |q|
    ensures |r| == |q| + 1
    ensures forall a :: 0 <= a < |r| ==> r[a] == if a < k then q[a] else if a == k then x else q[a - 1]
  {
    q[..k] + [x] + q[k..]
  }

  lemma StillUnchanged(tasks: seq<Task>, q: seq<nat>, log: map<nat, Entry>, t: nat, x: nat, k: nat, a: nat)
    requires Fifo(tasks, q, log, t) && x < |tasks| && x !in q && k <= |q| && a <= |q|
    ensures Unchanged(tasks, log[x := Entry(t, tasks[x])], t + 1, Placed(q, k, x)[a])
  {
    hide Cmp;
    if a != k { assert Unchanged(tasks, log, t, q[if a < k then a else a - 1]); }
  }

  lemma StillInOrder(tasks: seq<Task>, q: seq<nat>, log: map<nat, Entry>, t: nat, x: nat, k: nat, a: nat, b: nat)
    requires Fifo(tasks, q, log, t) && x < |tasks| && x !in q && k <= |q| && a < b <= |q|
    requires k < |q| ==> forall i :: k <= i < |q| ==> Cmp(tasks[x], tasks[q[i]]) < 0
    requires Placed(q, k, x)[a] < |tasks| && Placed(q, k, x)[b] < |tasks|
    ensures InOrder(tasks, log[x := Entry(t, tasks[x])], Placed(q, k, x)[a], Placed(q, k, x)[b])
  {
    hide Cmp;
    assert forall i :: 0 <= i < |q| ==> q[i] != x && Unchanged(tasks, log, t, q[i]);
    if b == k {
    } else if a == k {
      assert Cmp(tasks[x], tasks[q[b - 1]]) < 0;
    } else {
      assert InOrder(tasks, log, q[if a < k then a else a - 1], q[if b < k then b else b - 1]);
    }
  }

  /** A newcomer goes behind all its ties. */
  lemma NewcomerIsLast(tasks: seq<Task>, q: seq<nat>, log: map<nat, Entry>, t: nat, x: nat)
    requires Fifo(tasks, q, log, t) && x < |tasks| && x !in q && Sorted(tasks, q)
    ensures Fifo(tasks, Enqueued(tasks, q, x), log[x := Entry(t, tasks[x])], t + 1)
  {
    var log1 := log[x := Entry(t, tasks[x])];
    var k := EnqueuedSplit(tasks, q, x);
    var r := Enqueued(tasks, q, x);
    assert r == Placed(q, k, x);
    hide Enqueued, Cmp, Fifo, Placed, InOrder, Unchanged, Sorted;
    forall a | 0 <= a < |r| ensures Unchanged(tasks, log1, t + 1, r[a]) {
      StillUnchanged(tasks, q, log, t, x, k, a);
    }
    forall a, b | 0 <= a < b < |r| ensures InOrder(tasks, log1, r[a], r[b]) {
      StillInOrder(tasks, q, log, t, x, k, a, b);
    }
    Gathered(tasks, r, log1, t + 1);
  }

  lemma Gathered(tasks: seq<Task>, q: seq<nat>, log: map<nat, Entry>, t: nat)
    requires InRange(tasks, q)
    requires forall a :: 0 <= a < |q| ==> Unchanged(tasks, log, t, q[a])
    requires forall a, b :: 0 <= a < b < |q| ==> InOrder(tasks, log, q[a], q[b])
    ensures Fifo(tasks, q, log, t)
  {
  }

  /** The queue without its head, when only tasks that are not in it change. */
  lemma RestIsFifo(tasks: seq<Task>, q: seq<nat>, tasks1: seq<Task>, log: map<nat, Entry>, t: nat, r: seq<nat>, skip: nat)
    requires Fifo(tasks, q, log, t) && skip <= |q| && r == q[skip..] && |tasks1| >= |tasks|
    requires forall i :: 0 <= i < |r| ==> tasks1[r[i]] == tasks[r[i]]
    ensures Fifo(tasks1, r, log, t)
  {
    hide Cmp;
    forall a | 0 <= a < |r| ensures Unchanged(tasks1, log, t, r[a]) {
      assert Unchanged(tasks, log, t, q[a + skip]);
    }
    forall a, b | 0 <= a < b < |r| ensures InOrder(tasks1, log, r[a], r[b]) {
      assert InOrder(tasks, log, q[a + skip], q[b + skip]);
    }
  }

  lemma Later(tasks: seq<Task>, q: seq<nat>, log: map<nat, Entry>, t: nat)
    requires Fifo(tasks, q, log, t)
    ensures Fifo(tasks, q, log, t + 1)
  {
    forall a | 0 <= a < |q| ensures Unchanged(tasks, log, t + 1, q[a]) {
      assert Unchanged(tasks, log, t, q[a]);
    }
  }

  lemma AddIsFifo(s: State, cfg: TaskCfg, ts: nat, t: nat, log: map<nat, Entry>)
    requires Inv(s) && Timely(s, Add(cfg, ts)) && s.mode == Cfs && Fifo(s.tasks, s.queue, log, t)
    ensures var s1 := After(s, Add(cfg, ts)); Fifo(s1.tasks, s1.queue, Recorded(s, Add(cfg, ts), t, log), t + 1)
  {
    var x, task := |s.tasks|, Task(cfg, Running, 0, 0, ts, ts + cfg.delayTick);
    AddReady(s, task);
    hide Inv, Fifo, Enqueued;
    Same(s.tasks, s.queue, task);
    RestIsFifo(s.tasks, s.queue, s.tasks + [task], log, t, s.queue, 0);
    if cfg.id < s.taskMax {
      NewcomerIsLast(s.tasks + [task], s.queue, log, t, x);
    } else {
      Later(s.tasks + [task], s.queue, log, t);
    }
  }

  lemma Same(tasks: seq<Task>, q: seq<nat>, task: Task)
    requires InRange(tasks, q)
    ensures forall i :: 0 <= i < |q| ==> (tasks + [task])[q[i]] == tasks[q[i]]
    ensures q == q[0..]
  {
  }

  lemma ExecIsFifo(s: State, now: nat, end: nat, t: nat, log: map<nat, Entry>)
    requires Inv(s) && Timely(s, Exec(now, end)) && s.mode == Cfs && Fifo(s.tasks, s.queue, log, t)
    ensures var s1 := After(s, Exec(now, end)); Fifo(s1.tasks, s1.queue, Recorded(s, Exec(now, end), t, log), t + 1)
  {
    ExecReady(s);
    hide Inv, Fifo, Enqueued;
    if ExecOutcome(s, now).Ran? {
      var x := s.queue[0];
      var task := TaskAfterRun(s.tasks[x], now, end);
      HeadReady(s, task);
      hide TaskAfterRun;
      Others(s.tasks, s.queue[1..], x, task);
      RestIsFifo(s.tasks, s.queue, s.tasks[x := task], log, t, s.queue[1..], 1);
      NewcomerIsLast(s.tasks[x := task], s.queue[1..], log, t, x);
      Later(s.tasks[x := task], s.queue[1..], log, t);
    } else {
      Later(s.tasks, s.queue, log, t);
    }
  }

  lemma Others(tasks: seq<Task>, r: seq<nat>, x: nat, task: Task)
    requires InRange(tasks, r) && x < |tasks| && x !in r
    ensures forall i :: 0 <= i < |r| ==> tasks[x := task][r[i]] == tasks[r[i]]
  {
  }

  lemma StepIsFifo(s: State, e: Event, t: nat, log: map<nat, Entry>)
    requires Inv(s) && Timely(s, e) && s.mode == Cfs && Fifo(s.tasks, s.queue, log, t)
    ensures var s1 := After(s, e); s1.mode == Cfs && Fifo(s1.tasks, s1.queue, Recorded(s, e, t, log), t + 1)
  {
    hide Inv, Fifo, Recorded;
    match e {
      case Add(cfg, ts) => AddIsFifo(s, cfg, ts, t, log);
      case Exec(now, end) => ExecIsFifo(s, now, end, t, log);
    }
  }

  lemma {:induction false} RunIsFifo(s: State, es: seq<Event>, t: nat, log: map<nat, Entry>)
    requires Inv(s) && IsRun(s, es) && s.mode == Cfs && Fifo(s.tasks, s.queue, log, t)
    ensures var s1 := Final(s, es); Fifo(s1.tasks, s1.queue, Entries(s, es, t, log), t + |es|)
    decreases |es|
  {
    hide Inv, Fifo, Recorded, After;
    if es != [] {
      StepIsFifo(s, es[0], t, log);
      RunIsFifo(After(s, es[0]), es[1..], t + 1, Recorded(s, es[0], t, log));
    }
  }

  /** In every run, two queued tasks with the same time and priority stand in the order in
      which they were last put in; and every queued task, its key included, is what it was
      then: keys change only while a task is out of the tree. */
  lemma TiesAreFifo(taskMax: nat, es: seq<Event>, a: nat, b: nat)
    requires IsRun(Initial(Cfs, taskMax), es) && a < b < |Final(Initial(Cfs, taskMax), es).queue|
    ensures
      var s, log := Final(Initial(Cfs, taskMax), es), Entries(Initial(Cfs, taskMax), es, 0, map[]);
      var x, y := s.queue[a], s.queue[b];
      x < |s.tasks| && y < |s.tasks| && x in log && y in log &&
      log[x].task == s.tasks[x] && log[y].task == s.tasks[y] &&
      (Cmp(s.tasks[x], s.tasks[y]) == 0 ==> log[x].when < log[y].when)
  {
    RunIsFifo(Initial(Cfs, taskMax), es, 0, map[]);
    var s, log := Final(Initial(Cfs, taskMax), es), Entries(Initial(Cfs, taskMax), es, 0, map[]);
    hide IsRun, Final, Entries, Cmp;
    assert Unchanged(s.tasks, log, |es|, s.queue[a]) && Unchanged(s.tasks, log, |es|, s.queue[b]);
    assert InOrder(s.tasks, log, s.queue[a], s.queue[b]);
  }

  /** One event changes a queued task only by running it, and then it has left the queue
      before its key changes. */
  lemma KeysStay(s: State, e: Event, x: nat)
    requires Inv(s) && Timely(s, e) && s.mode == Cfs && x in s.queue
    ensures
      var s1 := After(s, e);
      x < |s.tasks| <= |s1.tasks| &&
      ((e.Exec? && ExecOutcome(s, e.now) == Ran(x) && s.queue[0] == x) || (s1.tasks[x] == s.tasks[x] && x in s1.queue))
  {
    if e.Add? {
      AddKeepsInv(s, e.cfg, e.ts);
    } else {
      ExecKeepsInv(s, e.now, e.end);
    }
  }
}
