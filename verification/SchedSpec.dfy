/** What `sched/sched.h` does, on values: tasks, the order of the queue, and one
    function for each call.  The class in `Sched.dfy` is proved to do the same. */
module SchedSpec {
  import opened Basics
  import opened Trees

  datatype TaskState = Running | Sleeping | Stopped | Dead

  /** `period` is the tick count that `sched_hz2tick` returns for the task's `exec_freq`. */
  datatype TaskCfg = TaskCfg(id: nat, priority: nat, period: nat, execCntMax: nat, delayTick: nat, hasCallback: bool)

  datatype Task = Task(cfg: TaskCfg, state: TaskState, execCnt: nat, elapsed: nat, createTs: nat, nextExecTs: nat)

  datatype Mode = Fcfs | Cfs

  /** The scheduler: `queue` lists the tasks linked in the red-black tree, in order;
      `clock` is the last reading of `f_get_ts`. */
  datatype State = State(mode: Mode, taskMax: nat, tasks: seq<Task>, queue: seq<nat>, prevIdx: nat, clock: nat)

  datatype Outcome = Invalid(picked: int) | NotDue(picked: int) | Ran(picked: int)

  function Cmp(a: Task, b: Task): int {
    if a.nextExecTs < b.nextExecTs then -1
    else if a.nextExecTs > b.nextExecTs then 1
    else if a.cfg.priority < b.cfg.priority then -1
    else if a.cfg.priority > b.cfg.priority then 1
    else 0
  }

  ghost predicate InRange(tasks: seq<Task>, q: seq<nat>) {
    forall k :: 0 <= k < |q| ==> q[k] < |tasks|
  }

  /** The queue with `x` put behind every task that is not later than it, in front of
      the first that is. */
  ghost function Enqueued(tasks: seq<Task>, q: seq<nat>, x: nat): (r: seq<nat>)
    requires InRange(tasks, q) && x < |tasks|
    ensures InRange(tasks, r) && |r| == |q| + 1
  {
    if q == [] then [x]
    else if Cmp(tasks[x], tasks[q[0]]) < 0 then [x] + q
    else [q[0]] + Enqueued(tasks, q[1..], x)
  }

  /** The first running task at or after place `i` of the round that starts at `prev`. */
  ghost function FcfsFind(tasks: seq<Task>, prev: nat, i: nat): (r: int)
    requires i <= |tasks|
    ensures r == NULL || 0 <= r < |tasks|
    decreases |tasks| - i
  {
    if i == |tasks| then NULL
    else
      var idx := (prev + i) % |tasks|;
      if tasks[idx].state == Running then idx else FcfsFind(tasks, prev, i + 1)
  }

  ghost function Picked(s: State): (r: int)
    requires InRange(s.tasks, s.queue)
    ensures r == NULL || 0 <= r < |s.tasks|
  {
    if s.mode == Fcfs then FcfsFind(s.tasks, s.prevIdx, 0)
    else if s.queue == [] then NULL
    else s.queue[0]
  }

  ghost function Added(s: State, cfg: TaskCfg, ts: nat): State
    requires InRange(s.tasks, s.queue)
  {
    var x := |s.tasks|;
    var tasks := s.tasks + [Task(cfg, Running, 0, 0, ts, ts + cfg.delayTick)];
    State(s.mode, s.taskMax, tasks,
          if s.mode == Cfs && cfg.id < s.taskMax then Enqueued(tasks, s.queue, x) else s.queue,
          s.prevIdx, ts)
  }

  ghost function AfterPick(s: State, now: nat): State
    requires InRange(s.tasks, s.queue)
  {
    var x := Picked(s);
    s.(clock := now, prevIdx := if s.mode == Fcfs && x != NULL then x + 1 else s.prevIdx)
  }

  ghost function ExecOutcome(s: State, now: nat): Outcome
    requires InRange(s.tasks, s.queue)
  {
    var x := Picked(s);
    if x == NULL || !s.tasks[x].cfg.hasCallback then Invalid(x)
    else if now - s.tasks[x].createTs < s.tasks[x].cfg.delayTick || now < s.tasks[x].nextExecTs then NotDue(x)
    else Ran(x)
  }

  ghost function TaskAfterRun(t: Task, now: nat, end: nat): Task
    requires now <= end
  {
    var u := t.(execCnt := t.execCnt + 1, elapsed := end - now);
    if t.cfg.execCntMax == 0 || u.execCnt < t.cfg.execCntMax then u.(nextExecTs := end + t.cfg.period)
    else u.(state := Dead)
  }

  ghost function Executed(s: State, now: nat, end: nat): State
    requires InRange(s.tasks, s.queue) && now <= end
  {
    var s1 := AfterPick(s, now);
    match ExecOutcome(s, now)
    case Ran(x) =>
      var t := TaskAfterRun(s.tasks[x], now, end);
      var tasks := s.tasks[x := t];
      if s.mode == Fcfs then s1.(tasks := tasks, clock := end)
      else
        var rest := s.queue[1..];
        s1.(tasks := tasks, clock := end,
            queue := if t.state != Dead && t.cfg.id < s.taskMax then Enqueued(tasks, rest, x) else rest)
    case _ => s1
  }

  // ----- what every call keeps

  ghost predicate Sorted(tasks: seq<Task>, q: seq<nat>)
    requires InRange(tasks, q)
  {
    forall i, j :: 0 <= i < j < |q| ==> Cmp(tasks[q[i]], tasks[q[j]]) <= 0
  }

  ghost predicate TaskInv(t: Task, clock: nat) {
    && t.createTs <= clock
    && t.createTs + t.cfg.delayTick <= t.nextExecTs
    && (t.state == Running || t.state == Dead)
    && (t.state == Running ==> t.cfg.execCntMax == 0 || t.execCnt < t.cfg.execCntMax)
    && (t.state == Dead ==> t.execCnt == t.cfg.execCntMax > 0)
  }

  /** A task that the queue must hold: `sched_cfs_insert_task` ignores an id that is too large. */
  ghost predicate Queued(s: State, t: Task) {
    s.mode == Cfs && t.state != Dead && t.cfg.id < s.taskMax
  }

  ghost predicate Inv(s: State) {
    && |s.tasks| <= s.taskMax
    && InRange(s.tasks, s.queue) && NoRepeats(s.queue) && Sorted(s.tasks, s.queue)
    && (forall i :: 0 <= i < |s.tasks| ==> (i in s.queue <==> Queued(s, s.tasks[i])))
    && (forall i :: 0 <= i < |s.tasks| ==> TaskInv(s.tasks[i], s.clock))
    && s.prevIdx <= |s.tasks|
  }

  lemma PutTogether(q: seq<nat>, j: nat, x: nat)
    requires j < |q|
    ensures [q[0]] + (q[1..][..j] + [x] + q[1..][j..]) == q[..j + 1] + [x] + q[j + 1..]
  {
    assert [q[0]] + q[1..][..j] == q[..j + 1];
    assert q[1..][j..] == q[j + 1..];
  }

  lemma {:induction false} EnqueuedParts(tasks: seq<Task>, q: seq<nat>, x: nat) returns (k: nat)
    requires InRange(tasks, q) && x < |tasks|
    ensures k <= |q| && Enqueued(tasks, q, x) == q[..k] + [x] + q[k..]
    ensures forall i :: 0 <= i < k ==> Cmp(tasks[x], tasks[q[i]]) >= 0
    ensures k < |q| ==> Cmp(tasks[x], tasks[q[k]]) < 0
  {
    if q == [] || Cmp(tasks[x], tasks[q[0]]) < 0 {
      k := 0;
    } else {
      hide Cmp;
      var j := EnqueuedParts(tasks, q[1..], x);
      k := j + 1;
      PutTogether(q, j, x);
      hide Enqueued;
      assert forall i :: 0 < i < |q| ==> q[i] == q[1..][i - 1];
    }
  }

  /** In a sorted queue, everything behind `x` is later than it. */
  lemma EnqueuedSplit(tasks: seq<Task>, q: seq<nat>, x: nat) returns (k: nat)
    requires InRange(tasks, q) && x < |tasks| && Sorted(tasks, q)
    ensures k <= |q| && Enqueued(tasks, q, x) == q[..k] + [x] + q[k..]
    ensures forall i :: 0 <= i < k ==> Cmp(tasks[x], tasks[q[i]]) >= 0
    ensures forall i :: k <= i < |q| ==> Cmp(tasks[x], tasks[q[i]]) < 0
  {
    k := EnqueuedParts(tasks, q, x);
    forall i | k <= i < |q| ensures Cmp(tasks[x], tasks[q[i]]) < 0 {
      assert k < i ==> Cmp(tasks[q[k]], tasks[q[i]]) <= 0;
    }
  }

  /** The place of `x` is the only one with these neighbours. */
  lemma {:induction false} EnqueuedIs(tasks: seq<Task>, a: seq<nat>, b: seq<nat>, x: nat)
    requires InRange(tasks, a) && InRange(tasks, b) && InRange(tasks, a + b) && x < |tasks|
    requires forall i :: 0 <= i < |a| ==> Cmp(tasks[x], tasks[a[i]]) >= 0
    requires b != [] ==> Cmp(tasks[x], tasks[b[0]]) < 0
    ensures Enqueued(tasks, a + b, x) == a + [x] + b
  {
    if a == [] {
      assert a + b == b;
    } else {
      assert (a + b)[1..] == a[1..] + b && (a + b)[0] == a[0];
      EnqueuedIs(tasks, a[1..], b, x);
      assert a + [x] + b == [a[0]] + (a[1..] + [x] + b);
    }
  }

  lemma EnqueuedKeeps(tasks: seq<Task>, q: seq<nat>, x: nat)
    requires InRange(tasks, q) && x < |tasks| && x !in q && NoRepeats(q) && Sorted(tasks, q)
    ensures var r := Enqueued(tasks, q, x);
      NoRepeats(r) && Sorted(tasks, r) && (forall i :: i in r <==> i in q || i == x)
  {
    var k := EnqueuedParts(tasks, q, x);
    EnqueuedMembers(q, k, x);
    EnqueuedSorted(tasks, q, k, x);
  }

  lemma EnqueuedMembers(q: seq<nat>, k: nat, x: nat)
    requires k <= |q| && x !in q && NoRepeats(q)
    ensures var r := q[..k] + [x] + q[k..];
      NoRepeats(r) && (forall i :: i in r <==> i in q || i == x)
  {
    assert q == q[..k] + q[k..];
  }

  lemma EnqueuedSorted(tasks: seq<Task>, q: seq<nat>, k: nat, x: nat)
    requires InRange(tasks, q) && x < |tasks| && k <= |q| && Sorted(tasks, q)
    requires forall i :: 0 <= i < k ==> Cmp(tasks[x], tasks[q[i]]) >= 0
    requires k < |q| ==> Cmp(tasks[x], tasks[q[k]]) < 0
    ensures var r := q[..k] + [x] + q[k..]; InRange(tasks, r) && Sorted(tasks, r)
  {
    var r := q[..k] + [x] + q[k..];
    forall i, j | 0 <= i < j < |r| ensures Cmp(tasks[r[i]], tasks[r[j]]) <= 0 {
      assert i < k ==> r[i] == q[i];
      assert i > k ==> r[i] == q[i - 1];
      assert j < k ==> r[j] == q[j];
      assert j > k ==> r[j] == q[j - 1];
      if i == k {
        assert j - 1 > k ==> Cmp(tasks[q[k]], tasks[q[j - 1]]) <= 0;
      }
    }
  }

  /** A task that is added is not in the queue yet, and leaves the queue as it is. */
  lemma AddReady(s: State, t: Task)
    requires Inv(s)
    ensures InRange(s.tasks, s.queue)
    ensures InRange(s.tasks + [t], s.queue) && Sorted(s.tasks + [t], s.queue) && |s.tasks| !in s.queue
  {
  }

  lemma ExecReady(s: State)
    requires Inv(s)
    ensures |s.tasks| <= s.taskMax && InRange(s.tasks, s.queue) && NoRepeats(s.queue) && Sorted(s.tasks, s.queue)
    ensures s.queue != [] ==> s.queue[0] < |s.tasks| && s.tasks[s.queue[0]].createTs <= s.clock
    ensures forall i :: 0 <= i < |s.tasks| ==> s.tasks[i].createTs <= s.clock
  {
    assert forall i :: 0 <= i < |s.tasks| ==> TaskInv(s.tasks[i], s.clock);
  }

  /** Taking the head out leaves a queue in order, whatever becomes of the head. */
  lemma HeadReady(s: State, t: Task)
    requires InRange(s.tasks, s.queue) && NoRepeats(s.queue) && Sorted(s.tasks, s.queue) && s.queue != []
    ensures var x := s.queue[0];
      && InRange(s.tasks[x := t], s.queue[1..]) && Sorted(s.tasks[x := t], s.queue[1..]) && x !in s.queue[1..]
  {
    var x, rest := s.queue[0], s.queue[1..];
    assert s.queue == [x] + rest;
    RestKeeps(s.tasks, s.tasks[x := t], x, rest);
  }

  lemma AddKeepsInv(s: State, cfg: TaskCfg, ts: nat)
    requires Inv(s) && s.clock <= ts && |s.tasks| < s.taskMax
    ensures Inv(Added(s, cfg, ts))
  {
    var s1 := Added(s, cfg, ts);
    var x := |s.tasks|;
    if s.mode == Cfs && cfg.id < s.taskMax {
      assert x !in s.queue;
      EnqueuedKeeps(s1.tasks, s.queue, x);
    }
  }

  lemma {:induction false} FcfsFindRunning(tasks: seq<Task>, prev: nat, i: nat)
    requires i <= |tasks|
    ensures var r := FcfsFind(tasks, prev, i);
      r != NULL ==> tasks[r].state == Running
    decreases |tasks| - i
  {
    if i < |tasks| { FcfsFindRunning(tasks, prev, i + 1); }
  }

  lemma PickedIsLive(s: State)
    requires Inv(s)
    ensures var x := Picked(s); x != NULL ==> s.tasks[x].state == Running && (s.mode == Cfs ==> Queued(s, s.tasks[x]))
  {
    if s.mode == Fcfs { FcfsFindRunning(s.tasks, s.prevIdx, 0); }
    else if s.queue != [] { assert s.queue[0] in s.queue; }
  }

  lemma ExecKeepsInv(s: State, now: nat, end: nat)
    requires Inv(s) && s.clock <= now <= end
    ensures Inv(Executed(s, now, end))
  {
    PickedIsLive(s);
    var s1 := Executed(s, now, end);
    TasksKeep(s, now, end);
    if s.mode == Cfs && ExecOutcome(s, now).Ran? {
      RequeueKeeps(s, now, end);
    }
    hide Sorted, NoRepeats, Cmp, TaskInv, Enqueued, TaskAfterRun;
  }

  lemma TasksKeep(s: State, now: nat, end: nat)
    requires Inv(s) && s.clock <= now <= end
    ensures var s1 := Executed(s, now, end);
      |s1.tasks| == |s.tasks| && s.clock <= s1.clock && forall i :: 0 <= i < |s1.tasks| ==> TaskInv(s1.tasks[i], s1.clock)
  {
    PickedIsLive(s);
    var s1 := Executed(s, now, end);
    hide Sorted, NoRepeats, Cmp, Enqueued;
    forall i | 0 <= i < |s1.tasks| ensures TaskInv(s1.tasks[i], s1.clock) {
      assert TaskInv(s.tasks[i], s.clock);
    }
  }

  lemma RequeueKeeps(s: State, now: nat, end: nat)
    requires Inv(s) && s.clock <= now <= end && s.mode == Cfs && ExecOutcome(s, now).Ran?
    ensures var s1 := Executed(s, now, end);
      && InRange(s1.tasks, s1.queue) && NoRepeats(s1.queue) && Sorted(s1.tasks, s1.queue)
      && (forall i :: 0 <= i < |s1.tasks| ==> (i in s1.queue <==> Queued(s1, s1.tasks[i])))
  {
    var s1 := Executed(s, now, end);
    var x, rest := s.queue[0], s.queue[1..];
    assert s.queue == [x] + rest;
    RestKeeps(s.tasks, s1.tasks, x, rest);
    hide Sorted, NoRepeats, Cmp;
    if Queued(s1, s1.tasks[x]) { EnqueuedKeeps(s1.tasks, rest, x); }
    forall i | 0 <= i < |s1.tasks| ensures i in s1.queue <==> Queued(s1, s1.tasks[i]) {
      assert i in s.queue <==> i in rest || i == x;
      assert i in s.queue <==> Queued(s, s.tasks[i]);
    }
  }

  lemma RestKeeps(tasks: seq<Task>, tasks': seq<Task>, x: nat, rest: seq<nat>)
    requires InRange(tasks, [x] + rest) && NoRepeats([x] + rest) && Sorted(tasks, [x] + rest)
    requires |tasks| == |tasks'| && forall i :: 0 <= i < |tasks| && i != x ==> tasks'[i] == tasks[i]
    ensures x !in rest && InRange(tasks', rest) && NoRepeats(rest) && Sorted(tasks', rest)
  {
    var q := [x] + rest;
    assert forall k :: 0 <= k < |rest| ==> rest[k] == q[k + 1] && q[k + 1] != q[0];
  }
}
