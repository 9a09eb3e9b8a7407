/** `sched/sched.h`: the scheduler that keeps its tasks in the red-black tree. */
module Scheds {
  import opened Basics
  import opened Trees
  import opened Arenas
  import opened InsertFixup
  import opened Unlinking
  import opened RbTrees
  import opened SchedSpec
  import Bits
  import Walking

  ghost predicate NoneLater(tasks: seq<Task>, s: seq<nat>, x: nat)
    requires x < |tasks|
  {
    forall i :: 0 <= i < |s| ==> s[i] < |tasks| && Cmp(tasks[x], tasks[s[i]]) >= 0
  }

  ghost predicate AllLater(tasks: seq<Task>, s: seq<nat>, x: nat)
    requires x < |tasks|
  {
    forall i :: 0 <= i < |s| ==> s[i] < |tasks| && Cmp(tasks[x], tasks[s[i]]) < 0
  }

  lemma JoinedSides(tasks: seq<Task>, a: seq<nat>, b: seq<nat>, x: nat)
    requires x < |tasks|
    ensures NoneLater(tasks, a, x) && NoneLater(tasks, b, x) ==> NoneLater(tasks, a + b, x)
    ensures AllLater(tasks, a, x) && AllLater(tasks, b, x) ==> AllLater(tasks, a + b, x)
  {
  }

  /** The descent has passed only tasks that are not later than `x` on the left and
      only later ones on the right. */
  ghost predicate Between(tasks: seq<Task>, p: Path, x: nat)
    requires x < |tasks|
  {
    NoneLater(tasks, Before(p), x) && AllLater(tasks, After(p), x)
  }

  /** One comparison narrows the place of `x` to the left or the right of a node. */
  lemma DescendSplit(tasks: seq<Task>, p: Path, t: Tree, x: nat)
    requires x < |tasks| && t.Node? && SchedSpec.InRange(tasks, Inorder(Plug(p, t))) && Sorted(tasks, Inorder(Plug(p, t)))
    requires Between(tasks, p, x)
    ensures t.id < |tasks|
    ensures Cmp(tasks[x], tasks[t.id]) < 0 ==> Between(tasks, GoneLeft(p, t.id, t.red, t.right), x)
    ensures Cmp(tasks[x], tasks[t.id]) >= 0 ==> Between(tasks, GoneRight(p, t.left, t.id, t.red), x)
  {
    InorderPlug(p, t);
    hide Inorder;
    var b, l, r, a := Before(p), Inorder(t.left), Inorder(t.right), After(p);
    assert Inorder(Plug(p, t)) == b + (l + [t.id] + r) + a by { InorderNode(t); }
    SortedAround(tasks, b, l, t.id, r, a, x);
    JoinedSides(tasks, b, l, x);
    JoinedSides(tasks, b + l, [t.id], x);
    JoinedSides(tasks, [t.id], r, x);
    JoinedSides(tasks, [t.id] + r, a, x);
  }

  lemma InorderNode(t: Tree)
    requires t.Node?
    ensures Inorder(t) == Inorder(t.left) + [t.id] + Inorder(t.right)
  {
  }

  lemma SortedAround(tasks: seq<Task>, b: seq<nat>, l: seq<nat>, i: nat, r: seq<nat>, a: seq<nat>, x: nat)
    requires SchedSpec.InRange(tasks, b + (l + [i] + r) + a) && Sorted(tasks, b + (l + [i] + r) + a) && x < |tasks|
    ensures i < |tasks|
    ensures Cmp(tasks[x], tasks[i]) >= 0 ==> NoneLater(tasks, l, x)
    ensures Cmp(tasks[x], tasks[i]) < 0 ==> AllLater(tasks, r, x)
  {
    var m := l + [i] + r;
    var s := b + m + a;
    assert forall k :: 0 <= k < |m| ==> s[|b| + k] == m[k];
    assert s[|b| + |l|] == m[|l|] == i;
    forall k | 0 <= k < |l| ensures l[k] < |tasks| && Cmp(tasks[l[k]], tasks[i]) <= 0 {
      assert m[k] == l[k] && s[|b| + k] == m[k];
    }
    forall k | 0 <= k < |r| ensures r[k] < |tasks| && Cmp(tasks[i], tasks[r[k]]) <= 0 {
      assert m[|l| + 1 + k] == r[k] && s[|b| + (|l| + 1 + k)] == r[k];
    }
  }

  /** Linking `x` at the end of the descent enqueues it. */
  lemma LeafPlace(tasks: seq<Task>, p: Path, x: nat)
    requires x < |tasks| && SchedSpec.InRange(tasks, Inorder(Plug(p, Leaf))) && Between(tasks, p, x)
    ensures Inorder(Plug(p, Node(Leaf, x, true, Leaf))) == Enqueued(tasks, Inorder(Plug(p, Leaf)), x)
  {
    LeafContents(p, x);
    assert SchedSpec.InRange(tasks, Before(p)) && SchedSpec.InRange(tasks, After(p));
    hide Inorder, Before, After, Plug, Enqueued, Cmp;
    EnqueuedIs(tasks, Before(p), After(p), x);
  }

  lemma LeafContents(p: Path, x: nat)
    ensures Inorder(Plug(p, Leaf)) == Before(p) + After(p)
    ensures Inorder(Plug(p, Node(Leaf, x, true, Leaf))) == Before(p) + [x] + After(p)
  {
    InorderPlug(p, Leaf);
    InorderPlug(p, Node(Leaf, x, true, Leaf));
    assert Inorder(Node(Leaf, x, true, Leaf)) == [x];
    hide Before, After, Plug;
    EmptyMiddle(Before(p), After(p));
  }

  lemma EmptyMiddle(a: seq<nat>, b: seq<nat>)
    ensures a + [] + b == a + b
  {
  }

  /** ... and leaves a tree that `rb_insert_color` can repair. */
  lemma LeafColours(p: Path, x: nat)
    requires RedBlack(Plug(p, Leaf))
    ensures InsertPending(p, Node(Leaf, x, true, Leaf))
  {
    RedBlackPlug(p, Leaf);
  }

  lemma NodeSite(m: Arena, root: int, p: Path, t: Tree)
    requires Shows(m, root, p, t) && t.Node?
    ensures t.id < |m| && m[t.id].left == Ptr(t.left) && m[t.id].right == Ptr(t.right)
  {
  }

  class Sched {
    const mode: Mode
    const taskMax: nat
    var tasks: seq<Task>
    var prevIdx: nat
    var currTs: nat
    const rb: RbTree
    /** The last reading of `f_get_ts`. */
    ghost var clock: nat

    ghost function Queue(): seq<nat>
      reads this, rb
    {
      Inorder(rb.tree)
    }

    ghost function Abs(): State
      reads this, rb
    {
      State(mode, taskMax, tasks, Queue(), prevIdx, clock)
    }

    /** Nodes outside the tree are all zero. */
    ghost predicate Linked()
      reads this, rb
    {
      && rb.Valid() && |rb.nodes| == taskMax
      && forall i :: 0 <= i < taskMax && i !in Ids(rb.tree) ==> rb.nodes[i] == ZEROED
    }

    ghost predicate Valid()
      reads this, rb
    {
      Linked() && Inv(Abs())
    }

    constructor (mode: Mode, taskMax: nat)
      ensures Valid() && Abs() == State(mode, taskMax, [], [], 0, 0)
      ensures fresh(rb)
    {
      this.mode := mode;
      this.taskMax := taskMax;
      tasks := [];
      prevIdx := 0;
      currTs := 0;
      rb := new RbTree(taskMax);
      clock := 0;
      new;
      assert Queue() == [] && Ids(rb.tree) == {};
    }

    /** The test `rb_parent_color != 0` tells linked nodes from others, because the one
        node without a parent, the root, is black. */
    lemma LinkedTest(x: nat)
      requires Linked() && x < taskMax
      ensures !rb.nodes[x].ZeroWord() <==> x in Ids(rb.tree)
    {
      if x in Ids(rb.tree) {
        var f := Find(Top, rb.tree, x);
        Refocus(rb.nodes, rb.root, Top, rb.tree, f.path, f.tree);
      }
    }

    method CfsInsertTask(x: nat) returns (ghost rounds: nat)
      requires Linked() && x < |tasks| <= taskMax && x !in Ids(rb.tree)
      requires SchedSpec.InRange(tasks, Queue()) && Sorted(tasks, Queue())
      modifies rb
      ensures Linked()
      ensures Queue() == if tasks[x].cfg.id < taskMax then Enqueued(tasks, old(Queue()), x) else old(Queue())
      ensures Bits.Pow2(2 * rounds) <= (|old(Queue())| + 1) * (|old(Queue())| + 1)
    {
      rounds := 0;
      if tasks[x].cfg.id >= taskMax {
        return;
      }
      var link;
      ghost var p;
      link, p := FindLink(x);
      LeafPlace(tasks, p, x);
      LeafColours(p, x);
      ApartPlug(p, Leaf);
      InsertDepthBound(p);
      rb.LinkNode(x, link, p);
      rounds := rb.InsertColor(x, p, Node(Leaf, x, true, Leaf));
      Bits.PowerMonotone(2 * rounds, Depth(p));
    }

    /** The descent to the link where `x` belongs. */
    method FindLink(x: nat) returns (link: Link, ghost p: Path)
      requires Linked() && x < |tasks|
      requires SchedSpec.InRange(tasks, Queue()) && Sorted(tasks, Queue())
      ensures Shows(rb.nodes, rb.root, p, Leaf) && Plug(p, Leaf) == rb.tree && link == LinkTo(p)
      ensures Between(tasks, p, x)
    {
      var curr := rb.root;
      link, p := AtRoot, Top;
      ghost var t := rb.tree;
      if t.Node? { NodeSite(rb.nodes, rb.root, p, t); }
      while curr != NULL
        invariant Shows(rb.nodes, rb.root, p, t) && curr == Ptr(t) && link == LinkTo(p)
        invariant t.Node? ==> t.id < |rb.nodes| && rb.nodes[t.id].left == Ptr(t.left) && rb.nodes[t.id].right == Ptr(t.right)
        invariant Plug(p, t) == rb.tree && Between(tasks, p, x)
        decreases t
      {
        DescendSplit(tasks, p, t, x);
        var cmp := Cmp(tasks[x], tasks[curr]);
        link := if cmp < 0 then LeftOf(curr) else RightOf(curr);
        curr := if cmp < 0 then rb.nodes[curr].left else rb.nodes[curr].right;
        ghost var q, u := p, t;
        if cmp < 0 {
          p, t := GoneLeft(p, t.id, t.red, t.right), t.left;
        } else {
          p, t := GoneRight(p, t.left, t.id, t.red), t.right;
        }
        Refocus(rb.nodes, rb.root, q, u, p, t);
        if t.Node? { NodeSite(rb.nodes, rb.root, p, t); }
      }
    }

    /** `sched_cfs_remove_task`. */
    method CfsRemoveTask(x: nat)
      requires Linked() && x < taskMax
      modifies rb
      ensures Linked() && x !in Ids(rb.tree)
      ensures Queue() == if x in old(Ids(rb.tree)) then Without(old(Queue()), x) else old(Queue())
    {
      LinkedTest(x);
      if !rb.nodes[x].ZeroWord() {
        ghost var rounds := rb.Erase(x);
        rb.Clear(x);
      }
    }

    method CfsGetTask() returns (x: int)
      requires Linked()
      ensures x == if Queue() == [] then NULL else Queue()[0]
    {
      ghost var steps;
      x, steps := rb.First();
      Walking.InorderNonempty(rb.tree);
    }

    method FcfsGetTask() returns (x: int)
      modifies this`prevIdx
      ensures x == FcfsFind(tasks, old(prevIdx), 0)
      ensures prevIdx == if x != NULL then x + 1 else old(prevIdx)
    {
      var prev := prevIdx;
      for i := 0 to |tasks|
        invariant prevIdx == prev == old(prevIdx)
        invariant FcfsFind(tasks, prev, 0) == FcfsFind(tasks, prev, i)
      {
        var idx := (prev + i) % |tasks|;
        if tasks[idx].state == Running {
          prevIdx := idx + 1;
          return idx;
        }
      }
      return NULL;
    }

    /** `sched_add_task`; `ts` is what `f_get_ts` returns. */
    method AddTask(cfg: TaskCfg, ts: nat)
      requires Valid() && |tasks| < taskMax && clock <= ts
      modifies this, rb
      ensures Valid() && Abs() == Added(old(Abs()), cfg, ts)
    {
      hide Inv, SchedSpec.InRange, Sorted, Shows, RedBlack, Inorder, Enqueued;
      AddKeepsInv(Abs(), cfg, ts);
      AddReady(Abs(), Task(cfg, Running, 0, 0, ts, ts + cfg.delayTick));
      var x := |tasks|;
      InorderIds(rb.tree);
      tasks := tasks + [Task(cfg, Running, 0, 0, ts, ts + cfg.delayTick)];
      clock := ts;
      if mode == Cfs {
        ghost var rounds := CfsInsertTask(x);
      }
    }

    /** The part of `sched_exec` from the removal of the chosen task on. */
    method Run(x: nat, now: nat, end: nat)
      requires Linked() && x < |tasks| <= taskMax && now <= end && tasks[x].state != Dead
      requires mode == Cfs ==> Queue() != [] && Queue()[0] == x
      requires SchedSpec.InRange(tasks, Queue()) && Sorted(tasks, Queue()) && NoRepeats(Queue())
      modifies this`tasks, this`clock, rb
      ensures Linked() && clock == end
      ensures tasks == old(tasks)[x := TaskAfterRun(old(tasks)[x], now, end)]
      ensures Queue() == if mode == Fcfs then old(Queue())
        else if tasks[x].state != Dead && tasks[x].cfg.id < taskMax then Enqueued(tasks, old(Queue())[1..], x)
        else old(Queue())[1..]
    {
      hide SchedSpec.InRange, Sorted, NoRepeats, Shows, RedBlack, Inorder, Enqueued, IsTree, Ids;
      if mode == Cfs {
        HeadReady(Abs(), TaskAfterRun(tasks[x], now, end));
        InorderIds(rb.tree);
        assert Queue()[0] in Queue();
        CfsRemoveTask(x);
        assert Queue() == old(Queue())[1..];
      }
      var t := tasks[x];
      t := t.(execCnt := t.execCnt + 1, elapsed := end - now);
      clock := end;
      tasks := tasks[x := t];
      if t.cfg.execCntMax == 0 || t.execCnt < t.cfg.execCntMax {
        tasks := tasks[x := t.(nextExecTs := end + t.cfg.period)];
        if mode == Cfs {
          ghost var rounds := CfsInsertTask(x);
        }
      } else {
        tasks := tasks[x := t.(state := Dead)];
      }
    }

    /** `sched_exec`; `now` and `end` are what `f_get_ts` returns before and after the callback. */
    method Exec(now: nat, end: nat) returns (ok: bool)
      requires Valid() && clock <= now <= end
      modifies this, rb
      ensures Valid() && Abs() == Executed(old(Abs()), now, end)
      ensures ok <==> !ExecOutcome(old(Abs()), now).Invalid?
    {
      hide Inv, Shows, RedBlack, Inorder, Enqueued, SchedSpec.InRange, Sorted, NoRepeats, IsTree, Ids, TaskAfterRun, FcfsFind;
      ghost var s := Abs();
      ExecKeepsInv(s, now, end);
      PickedIsLive(s);
      ExecReady(s);
      currTs := now;
      clock := now;
      var x;
      if mode == Cfs {
        x := CfsGetTask();
      } else {
        x := FcfsGetTask();
      }
      if x == NULL || !tasks[x].cfg.hasCallback {
        return false;
      }
      if currTs - tasks[x].createTs < tasks[x].cfg.delayTick {
        return true;
      }
      if currTs < tasks[x].nextExecTs {
        return true;
      }
      Run(x, now, end);
      return true;
    }
  }
}
