/** `ds/mp.h` over whole histories of allocations, frees and resets. */
module PoolRuns {
  import opened PoolSpec

  datatype Op = Alloc(cap: nat) | Free(p: Pointer) | Reset

  ghost predicate Legal(m: Machine, s: State, op: Op)
    requires m.Valid() && s.off <= MP_SIZE
  {
    match op
    case Alloc(cap) => cap < m.word && Sound(m, s, cap)
    case Free(p) => p == Null || Live(m, s, p)
    case Reset => true
  }

  ghost function Step(m: Machine, s: State, op: Op): State
    requires m.Valid() && s.off <= MP_SIZE && Legal(m, s, op)
  {
    match op
    case Alloc(cap) => Allocated(m, s, cap).0
    case Free(p) => Freed(m, s, p)
    case Reset => EMPTY
  }

  ghost predicate StepAt(m: Machine, ss: seq<State>, ops: seq<Op>, i: nat)
    requires m.Valid() && i < |ops| && |ss| == |ops| + 1
  {
    ss[i].off <= MP_SIZE && Legal(m, ss[i], ops[i]) && ss[i + 1] == Step(m, ss[i], ops[i])
  }

  /** `ss` are the states a history of operations passes through. */
  ghost predicate IsRun(m: Machine, ss: seq<State>, ops: seq<Op>) {
    m.Valid() && |ss| == |ops| + 1 && forall i :: 0 <= i < |ops| ==> StepAt(m, ss, ops, i)
  }

  lemma StepKeepsInv(m: Machine, s: State, op: Op)
    requires m.Valid() && Inv(m, s) && Legal(m, s, op)
    ensures Inv(m, Step(m, s, op))
  {
    match op {
      case Alloc(cap) => AllocKeepsInv(m, s, cap);
      case Free(p) => FreeKeepsInv(m, s, p);
      case Reset =>
    }
  }

  /** Over every history the blocks tile the used part of the buffer. */
  lemma {:induction false} RunKeepsInv(m: Machine, ss: seq<State>, ops: seq<Op>, i: nat)
    requires IsRun(m, ss, ops) && Inv(m, ss[0]) && i <= |ops|
    ensures Inv(m, ss[i])
  {
    if i > 0 {
      RunKeepsInv(m, ss, ops, i - 1);
      assert StepAt(m, ss, ops, i - 1);
      StepKeepsInv(m, ss[i - 1], ops[i - 1]);
    }
  }

  // ---- Conservation

  ghost function Bytes(bs: seq<Block>, free: bool): nat {
    if bs == [] then 0
    else Bytes(bs[..|bs| - 1], free) + (if bs[|bs| - 1].free == free then bs[|bs| - 1].size else 0)
  }

  lemma {:induction false} BytesUpTo(m: Machine, s: State, i: nat)
    requires Inv(m, s) && i <= |s.blocks|
    ensures Bytes(s.blocks[..i], true) + Bytes(s.blocks[..i], false) == StartOf(s.blocks, i)
  {
    if i > 0 {
      BytesUpTo(m, s, i - 1);
      assert s.blocks[..i][..i - 1] == s.blocks[..i - 1];
      assert Laid(m, s.blocks, i - 1);
    }
  }

  /** Bytes handed out and bytes free add up to the bytes ever taken from the tail. */
  lemma Conservation(m: Machine, ss: seq<State>, ops: seq<Op>, i: nat)
    requires IsRun(m, ss, ops) && Inv(m, ss[0]) && i <= |ops|
    ensures Bytes(ss[i].blocks, true) + Bytes(ss[i].blocks, false) == ss[i].off <= MP_SIZE
  {
    RunKeepsInv(m, ss, ops, i);
    BytesUpTo(m, ss[i], |ss[i].blocks|);
    assert ss[i].blocks[..|ss[i].blocks|] == ss[i].blocks;
  }

  // ---- Live pointers

  ghost function Payload(m: Machine, s: State, p: Pointer): nat
    requires m.Valid() && Inv(m, s) && Live(m, s, p)
  {
    assert Laid(m, s.blocks, Holder(m, s, p));
    s.blocks[Holder(m, s, p)].size - m.header
  }

  lemma HolderIsUnique(m: Machine, s: State, p: Pointer, k: nat)
    requires Inv(m, s) && HoldsAt(m, s, p, k)
    ensures Live(m, s, p) && Holder(m, s, p) == k
  {
    var j := Holder(m, s, p);
    if j != k { BlocksAreDisjoint(m, s, j, k); }
  }

  /** Live allocations never overlap, are aligned and lie inside the buffer. */
  lemma LivePointersApart(m: Machine, s: State, p: Pointer, q: Pointer)
    requires m.Valid() && Inv(m, s) && Live(m, s, p) && Live(m, s, q) && p != q
    ensures p.offset % MP_ALIGN == 0 && p.offset + Payload(m, s, p) <= MP_SIZE
    ensures p.offset + Payload(m, s, p) <= q.offset - m.header || q.offset + Payload(m, s, q) <= p.offset - m.header
  {
    var i, j := Holder(m, s, p), Holder(m, s, q);
    assert Laid(m, s.blocks, i) && Laid(m, s.blocks, j);
    BlocksAreDisjoint(m, s, i, j);
  }

  /** Where block `i` stands after an allocation out of block `k`. */
  ghost function Shifted(s: State, t: State, k: nat, i: nat): nat {
    if i <= k || |s.blocks| == |t.blocks| then i else i + 1
  }

  lemma AllocMoves(m: Machine, s: State, cap: nat, i: nat)
    requires m.Valid() && Inv(m, s) && cap < m.word && Sound(m, s, cap) && i < |s.blocks|
    ensures var (t, p) := Allocated(m, s, cap);
            var k := FirstFit(s.blocks, BlockSize(m, cap));
            var j := Shifted(s, t, k, i);
            j < |t.blocks| && (i != k ==> t.blocks[j] == s.blocks[i]) &&
            (i == k ==> s.blocks[i].free && t.blocks[j].addr == s.blocks[i].addr)
  {
    AllocKeepsInv(m, s, cap);
    if Representable(m, s.off, cap) { BlockSizeIsExact(m, s.off, cap); }
  }

  /** An allocation hands out a pointer that was not live. */
  lemma FreshPointer(m: Machine, s: State, cap: nat)
    requires m.Valid() && Inv(m, s) && cap < m.word && Sound(m, s, cap)
    requires Allocated(m, s, cap).1.At?
    ensures !Live(m, s, Allocated(m, s, cap).1) && Live(m, Allocated(m, s, cap).0, Allocated(m, s, cap).1)
  {
    AllocKeepsInv(m, s, cap);
    if Representable(m, s.off, cap) { BlockSizeIsExact(m, s.off, cap); }
    var (t, p) := Allocated(m, s, cap);
    var k := FirstFit(s.blocks, BlockSize(m, cap));
    assert HoldsAt(m, t, p, k);
    if Live(m, s, p) {
      var j := Holder(m, s, p);
      if k < |s.blocks| && j != k { BlocksAreDisjoint(m, s, j, k); }
      assert Laid(m, s.blocks, j);
      if k == |s.blocks| { Ascending(m, s, j, k); }
    }
  }

  /** A live pointer stays live, in a block of the same size, under every operation but its
      own free and a reset. */
  lemma LiveStays(m: Machine, s: State, op: Op, p: Pointer)
    requires m.Valid() && Inv(m, s) && Legal(m, s, op) && Live(m, s, p)
    requires op != Free(p) && op != Reset
    ensures var t := Step(m, s, op);
            Inv(m, t) && Live(m, t, p) && Payload(m, t, p) == Payload(m, s, p)
  {
    StepKeepsInv(m, s, op);
    var t, i := Step(m, s, op), Holder(m, s, p);
    match op {
      case Alloc(cap) =>
        AllocMoves(m, s, cap, i);
        HolderIsUnique(m, t, p, Shifted(s, t, FirstFit(s.blocks, BlockSize(m, cap)), i));
      case Free(q) =>
        HolderIsUnique(m, t, p, i);
    }
  }

  lemma {:induction false} LiveThroughout(m: Machine, ss: seq<State>, ops: seq<Op>, p: Pointer, i: nat)
    requires IsRun(m, ss, ops) && Inv(m, ss[0]) && Live(m, ss[0], p) && i <= |ops|
    requires Free(p) !in ops && Reset !in ops
    ensures Inv(m, ss[i]) && Live(m, ss[i], p) && Payload(m, ss[i], p) == Payload(m, ss[0], p)
  {
    if i > 0 {
      LiveThroughout(m, ss, ops, p, i - 1);
      assert StepAt(m, ss, ops, i - 1);
      assert ops[i - 1] in ops;
      LiveStays(m, ss[i - 1], ops[i - 1], p);
    }
  }

  /** What was allocated, kept for any history and then freed can be had again: a request no
      larger than the original one never fails. */
  lemma FreedCanBeReused(m: Machine, s: State, cap: nat, ss: seq<State>, ops: seq<Op>, again: nat)
    requires m.Valid() && Inv(m, s) && cap < m.word && Sound(m, s, cap)
    requires IsRun(m, ss, ops) && ss[0] == Allocated(m, s, cap).0 && Allocated(m, s, cap).1.At?
    requires Free(Allocated(m, s, cap).1) !in ops && Reset !in ops && again <= cap
    ensures var p, t := Allocated(m, s, cap).1, ss[|ops|];
            Inv(m, t) && Live(m, t, p) && again < m.word && Sound(m, Freed(m, t, p), again) &&
            Allocated(m, Freed(m, t, p), again).1.At?
  {
    var p, t := Allocated(m, s, cap).1, ss[|ops|];
    AllocKeepsInv(m, s, cap);
    AllocPicks(m, s, cap);
    var k: nat :| HoldsAt(m, ss[0], p, k) && FitsBest(m, s, cap, ss[0], p, k);
    HolderIsUnique(m, ss[0], p, k);
    LiveThroughout(m, ss, ops, p, |ops|);
    var j := Holder(m, t, p);
    assert t.blocks[j].size == ss[0].blocks[k].size;
    BlocksWithin(m, t, j);
    FreeKeepsInv(m, t, p);
    AlignUpMonotone(again, cap);
    AllocPicks(m, Freed(m, t, p), again);
    assert Freed(m, t, p).blocks[j].free;
  }

  lemma BlocksWithin(m: Machine, s: State, j: nat)
    requires Inv(m, s) && j < |s.blocks|
    ensures s.blocks[j].size <= s.off <= MP_SIZE
  {
    Ascending(m, s, j, |s.blocks|);
  }

  lemma AlignUpMonotone(a: nat, b: nat)
    requires a <= b
    ensures AlignUp(a) <= AlignUp(b)
  {}

  // ---- Blocks are only ever cut, never merged

  ghost predicate NoneReaches(s: State, need: nat) {
    (forall i :: 0 <= i < |s.blocks| ==> s.blocks[i].size < need) && s.off + need > MP_SIZE
  }

  lemma NeverMerges(m: Machine, s: State, op: Op, need: nat)
    requires m.Valid() && Inv(m, s) && Legal(m, s, op) && op != Reset && NoneReaches(s, need)
    ensures NoneReaches(Step(m, s, op), need)
  {
    if op.Alloc? {
      AllocKeepsInv(m, s, op.cap);
      if Representable(m, s.off, op.cap) { BlockSizeIsExact(m, s.off, op.cap); }
    }
  }

  /** Freeing neighbours does not join them: once no block, free or not, is large enough for a
      request and the tail is too short, it is refused after every history without a reset. */
  lemma {:induction false} StaysRefused(m: Machine, ss: seq<State>, ops: seq<Op>, cap: nat, i: nat)
    requires IsRun(m, ss, ops) && Inv(m, ss[0]) && Reset !in ops && i <= |ops|
    requires cap < m.word && MP_SIZE + m.header + AlignUp(cap) < m.word
    requires NoneReaches(ss[0], m.header + AlignUp(cap))
    ensures Inv(m, ss[i]) && NoneReaches(ss[i], m.header + AlignUp(cap))
    ensures Allocated(m, ss[i], cap).1 == Null
  {
    if i > 0 {
      StaysRefused(m, ss, ops, cap, i - 1);
      assert StepAt(m, ss, ops, i - 1);
      assert ops[i - 1] in ops;
      StepKeepsInv(m, ss[i - 1], ops[i - 1]);
      NeverMerges(m, ss[i - 1], ops[i - 1], m.header + AlignUp(cap));
    }
    AllocPicks(m, ss[i], cap);
  }
}
