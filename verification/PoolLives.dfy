/** Which blocks of `ds/mp.h` are free and which are handed out, told from the calls and the
    pointers they return alone. */
module PoolLives {
  import opened PoolSpec
  import opened PoolRuns

  /** `rets` are the pointers the allocations of a history return. */
  ghost predicate Returns(m: Machine, ss: seq<State>, ops: seq<Op>, rets: seq<Pointer>)
    requires IsRun(m, ss, ops)
  {
    |rets| == |ops| && forall i :: 0 <= i < |ops| ==> ReturnsAt(m, ss, ops, rets, i)
  }

  ghost predicate ReturnsAt(m: Machine, ss: seq<State>, ops: seq<Op>, rets: seq<Pointer>, i: nat)
    requires IsRun(m, ss, ops) && |rets| == |ops| && i < |ops|
  {
    assert StepAt(m, ss, ops, i);
    ops[i].Alloc? ==> rets[i] == Allocated(m, ss[i], ops[i].cap).1
  }

  /** The pointers returned by the first `i` calls and since then neither freed nor reset. */
  ghost function Held(ops: seq<Op>, rets: seq<Pointer>, i: nat): set<Pointer>
    requires i <= |ops| == |rets|
  {
    if i == 0 then {}
    else
      match ops[i - 1]
      case Alloc(_) => Held(ops, rets, i - 1) + (if rets[i - 1].At? then {rets[i - 1]} else {})
      case Free(p) => Held(ops, rets, i - 1) - {p}
      case Reset => {}
  }

  /** Exactly the pointers in `held` are live. */
  ghost predicate Accounts(m: Machine, s: State, held: set<Pointer>) {
    forall p :: p in held <==> Live(m, s, p)
  }

  /** An allocation makes no other pointer live. */
  lemma NothingElseAwakes(m: Machine, s: State, cap: nat, q: Pointer)
    requires m.Valid() && Inv(m, s) && cap < m.word && Sound(m, s, cap)
    requires Live(m, Allocated(m, s, cap).0, q)
    ensures Live(m, s, q) || q == Allocated(m, s, cap).1
  {
    var (t, p) := Allocated(m, s, cap);
    var j := Holder(m, t, q);
    var k := FirstFit(s.blocks, BlockSize(m, cap));
    AllocKeepsInv(m, s, cap);
    if k < |s.blocks| {
      var i := if j > k && |t.blocks| > |s.blocks| then j - 1 else j;
      assert j != k && t.blocks[j] == s.blocks[i] ==> HoldsAt(m, s, q, i);
    } else if j < |s.blocks| {
      assert HoldsAt(m, s, q, j);
    }
  }

  /** An allocation makes exactly the pointer it returns live. */
  lemma AllocAccounts(m: Machine, s: State, cap: nat, held: set<Pointer>)
    requires m.Valid() && Inv(m, s) && cap < m.word && Sound(m, s, cap) && Accounts(m, s, held)
    ensures var (t, p) := Allocated(m, s, cap); Accounts(m, t, held + (if p.At? then {p} else {}))
  {
    var (t, p) := Allocated(m, s, cap);
    hide Sound, Inv, Allocated, Live;
    if p.At? { FreshPointer(m, s, cap); } else { AllocKeepsInv(m, s, cap); }
    forall q | Live(m, s, q) ensures Live(m, t, q) { AllocKeepsLive(m, s, cap, q); }
    forall q | Live(m, t, q) ensures Live(m, s, q) || (q == p && p.At?) {
      NothingElseAwakes(m, s, cap, q);
      LiveIsPointer(m, t, q);
    }
  }

  lemma AllocKeepsLive(m: Machine, s: State, cap: nat, q: Pointer)
    requires m.Valid() && Inv(m, s) && cap < m.word && Sound(m, s, cap) && Live(m, s, q)
    ensures Live(m, Allocated(m, s, cap).0, q)
  {
    LiveStays(m, s, Alloc(cap), q);
  }

  lemma LiveIsPointer(m: Machine, s: State, q: Pointer)
    requires Live(m, s, q)
    ensures q.At?
  {}

  /** Freeing takes exactly the pointer given. */
  lemma FreeAccounts(m: Machine, s: State, p: Pointer, held: set<Pointer>)
    requires m.Valid() && Inv(m, s) && (p == Null || Live(m, s, p)) && Accounts(m, s, held)
    ensures Accounts(m, Freed(m, s, p), held - {p})
  {
    var t := Freed(m, s, p);
    forall q ensures q in held - {p} <==> Live(m, t, q) {
      if Live(m, s, q) && q != p {
        LiveStays(m, s, Free(p), q);
      }
      if Live(m, t, q) {
        var k := Holder(m, t, q);
        assert HoldsAt(m, s, q, k);
        HolderIsUnique(m, s, q, k);
      }
    }
  }

  /** Over every history from the empty pool, the live pointers are exactly those returned and
      since then neither freed nor reset. */
  lemma {:induction false} HeldAreLive(m: Machine, ss: seq<State>, ops: seq<Op>, rets: seq<Pointer>, i: nat)
    requires IsRun(m, ss, ops) && ss[0] == EMPTY && Returns(m, ss, ops, rets) && i <= |ops|
    ensures forall p :: p in Held(ops, rets, i) <==> Live(m, ss[i], p)
  {
    if i > 0 {
      HeldAreLive(m, ss, ops, rets, i - 1);
      RunKeepsInv(m, ss, ops, i - 1);
      assert StepAt(m, ss, ops, i - 1) && ReturnsAt(m, ss, ops, rets, i - 1);
      hide Inv, Sound, Live, Allocated, Freed, IsRun, Returns;
      assert Accounts(m, ss[i - 1], Held(ops, rets, i - 1));
      match ops[i - 1] {
        case Alloc(cap) => AllocAccounts(m, ss[i - 1], cap, Held(ops, rets, i - 1));
        case Free(p) => FreeAccounts(m, ss[i - 1], p, Held(ops, rets, i - 1));
        case Reset => NoneLive(m);
      }
    }
    NoneLive(m);
  }

  lemma NoneLive(m: Machine)
    ensures forall p :: !Live(m, EMPTY, p)
  {}

  /** Over every history from the empty pool, a block is free exactly if its pointer was not
      returned, or was freed since: nothing is ever lost. */
  lemma OtherBlocksAreFree(m: Machine, ss: seq<State>, ops: seq<Op>, rets: seq<Pointer>, i: nat, k: nat)
    requires IsRun(m, ss, ops) && ss[0] == EMPTY && Returns(m, ss, ops, rets) && i <= |ops| && k < |ss[i].blocks|
    ensures ss[i].blocks[k].free <==> At(ss[i].blocks[k].addr + m.header) !in Held(ops, rets, i)
  {
    HeldAreLive(m, ss, ops, rets, i);
    RunKeepsInv(m, ss, ops, i);
    hide IsRun, Returns;
    var s, p := ss[i], At(ss[i].blocks[k].addr + m.header);
    if Live(m, s, p) {
      var j := Holder(m, s, p);
      if j != k { BlocksAreDisjoint(m, s, j, k); }
    } else {
      assert !HoldsAt(m, s, p, k);
    }
  }
}
