/** `ds/mp.h` as a class: the block sizes and the free list are changed in place and the list
    is walked link by link; each call is proved to do what `PoolSpec` says. */
module Pools {
  import opened Basics
  import opened Bits
  import opened PoolSpec
  import opened Lists

  /** The list head of the pool, which lies outside the buffer. */
  const ROOT: Addr := -2

  ghost function FreeAddrs(bs: seq<Block>): seq<Addr> {
    if bs == [] then []
    else FreeAddrs(bs[..|bs| - 1]) + (if bs[|bs| - 1].free then [bs[|bs| - 1].addr] else [])
  }

  ghost function FreeRing(bs: seq<Block>): seq<Addr> {
    [ROOT] + FreeAddrs(bs)
  }

  /** The first free block at or behind position `i`. */
  ghost function NextFree(bs: seq<Block>, i: nat): (j: nat)
    requires i <= |bs|
    ensures i <= j <= |bs| && (j < |bs| ==> bs[j].free)
    ensures forall x :: i <= x < j ==> !bs[x].free
    decreases |bs| - i
  {
    if i == |bs| || bs[i].free then i else NextFree(bs, i + 1)
  }

  /** The list node of the block at position `i`, the head behind the last. */
  ghost function NodeAt(bs: seq<Block>, i: nat): Addr {
    if i < |bs| then bs[i].addr else ROOT
  }

  /** How many free blocks stand before position `i`. */
  ghost function Rank(bs: seq<Block>, i: nat): nat
    requires i <= |bs|
  {
    |FreeAddrs(bs[..i])|
  }

  lemma {:induction false} FreeAddrsConcat(a: seq<Block>, b: seq<Block>)
    ensures FreeAddrs(a + b) == FreeAddrs(a) + FreeAddrs(b)
  {
    if b == [] {
      assert a + b == a;
    } else {
      FreeAddrsConcat(a, b[..|b| - 1]);
      assert (a + b)[..|a + b| - 1] == a + b[..|b| - 1];
    }
  }

  lemma FreeAddrsOne(b: Block)
    ensures FreeAddrs([b]) == if b.free then [b.addr] else []
  {
    assert [b][..0] == [];
  }

  lemma Parted(bs: seq<Block>, k: nat)
    requires k < |bs|
    ensures bs == bs[..k] + [bs[k]] + bs[k + 1..]
  {}

  lemma FreeAddrsSplit(bs: seq<Block>, k: nat)
    requires k < |bs|
    ensures FreeAddrs(bs) == FreeAddrs(bs[..k]) + FreeAddrs([bs[k]]) + FreeAddrs(bs[k + 1..])
  {
    hide FreeAddrs;
    Parted(bs, k);
    FreeAddrsConcat(bs[..k] + [bs[k]], bs[k + 1..]);
    FreeAddrsConcat(bs[..k], [bs[k]]);
  }

  lemma {:induction false} NoFreeBetween(bs: seq<Block>, i: nat, j: nat)
    requires i <= j <= |bs| && forall x :: i <= x < j ==> !bs[x].free
    ensures FreeAddrs(bs[..j]) == FreeAddrs(bs[..i])
  {
    if i < j {
      NoFreeBetween(bs, i, j - 1);
      assert bs[..j][..j - 1] == bs[..j - 1];
    }
  }

  /** Where a free block stands on the list. */
  lemma RankOfFree(bs: seq<Block>, k: nat)
    requires k < |bs| && bs[k].free
    ensures Rank(bs, k) + 1 < |FreeRing(bs)| && FreeRing(bs)[Rank(bs, k) + 1] == bs[k].addr
    ensures FreeRing(bs)[..Rank(bs, k) + 1] == FreeRing(bs[..k])
    ensures FreeRing(bs)[Rank(bs, k) + 2..] == FreeAddrs(bs[k + 1..])
    ensures Rank(bs, k + 1) == Rank(bs, k) + 1
  {
    FreeAddrsSplit(bs, k);
    FreeAddrsOne(bs[k]);
    assert bs[..k + 1][..k] == bs[..k];
  }

  lemma RankOfEnd(bs: seq<Block>, i: nat)
    requires i <= |bs| && NextFree(bs, i) == |bs|
    ensures Rank(bs, i) + 1 == |FreeRing(bs)|
  {
    NoFreeBetween(bs, i, |bs|);
    assert bs[..|bs|] == bs;
  }

  /** The node behind the first `Rank(bs, i)` nodes is that of the next free block. */
  lemma Follower(bs: seq<Block>, i: nat)
    requires i <= |bs|
    ensures Rank(bs, i) < |FreeRing(bs)|
    ensures Succ(FreeRing(bs), Rank(bs, i)) == NodeAt(bs, NextFree(bs, i))
    ensures Rank(bs, NextFree(bs, i)) == Rank(bs, i)
  {
    var j := NextFree(bs, i);
    NoFreeBetween(bs, i, j);
    if j < |bs| { RankOfFree(bs, j); } else { RankOfEnd(bs, i); }
  }

  lemma {:induction false} FreeAddrsAre(bs: seq<Block>, a: Addr)
    requires a in FreeAddrs(bs)
    ensures exists i :: 0 <= i < |bs| && bs[i].free && bs[i].addr == a
  {
    var n := |bs| - 1;
    if a in FreeAddrs(bs[..n]) {
      FreeAddrsAre(bs[..n], a);
      var i :| 0 <= i < n && bs[..n][i].free && bs[..n][i].addr == a;
      assert bs[i].free && bs[i].addr == a;
    } else {
      assert bs[n].free && bs[n].addr == a;
    }
  }

  /** The free list holds exactly the free blocks. */
  lemma FreeListIsExact(bs: seq<Block>, a: Addr)
    ensures a in FreeAddrs(bs) <==> exists i :: 0 <= i < |bs| && bs[i].free && bs[i].addr == a
  {
    if a in FreeAddrs(bs) { FreeAddrsAre(bs, a); }
    forall i | 0 <= i < |bs| && bs[i].free ensures bs[i].addr as Addr in FreeAddrs(bs) {
      RankOfFree(bs, i);
    }
  }

  /** The free list is strictly ordered by address. */
  lemma {:induction false} FreeAddrsAscend(m: Machine, s: State, n: nat, i: nat, j: nat)
    requires Inv(m, s) && n <= |s.blocks| && i < j < Rank(s.blocks, n)
    ensures FreeAddrs(s.blocks[..n])[i] < FreeAddrs(s.blocks[..n])[j]
  {
    var bs := s.blocks[..n];
    assert bs[..n - 1] == s.blocks[..n - 1];
    if j < Rank(s.blocks, n - 1) {
      FreeAddrsAscend(m, s, n - 1, i, j);
    } else {
      FreeAddrsAre(bs[..n - 1], FreeAddrs(bs[..n - 1])[i]);
      var x :| 0 <= x < n - 1 && bs[..n - 1][x].addr == FreeAddrs(bs[..n - 1])[i];
      BlocksAreDisjoint(m, s, x, n - 1);
      Ascending(m, s, x, n - 1);
    }
  }

  // ---- Headers lie in the buffer, but never in the payload of a block

  ghost predicate HeaderOf(m: Machine, b: Block, x: nat) {
    b.addr <= x < b.addr + m.header
  }

  ghost predicate InHeader(m: Machine, bs: seq<Block>, x: nat) {
    exists i :: 0 <= i < |bs| && HeaderOf(m, bs[i], x)
  }

  /** The buffer changes at most where the headers of `bs` are. */
  ghost predicate OnlyHeaders(m: Machine, bs: seq<Block>, before: seq<Byte>, now: seq<Byte>) {
    |before| == |now| && forall x :: 0 <= x < |before| && !InHeader(m, bs, x) ==> before[x] == now[x]
  }

  lemma PayloadIsNoHeader(m: Machine, s: State, k: nat, x: nat)
    requires Inv(m, s) && k < |s.blocks|
    requires s.blocks[k].addr + m.header <= x < s.blocks[k].addr + s.blocks[k].size
    ensures !InHeader(m, s.blocks, x)
  {
    forall i | 0 <= i < |s.blocks| ensures !HeaderOf(m, s.blocks[i], x) {
      assert Laid(m, s.blocks, i);
      if i != k { BlocksAreDisjoint(m, s, i, k); }
    }
  }

  /** What a client stored in a live allocation survives every call that writes headers only. */
  lemma PayloadSurvives(m: Machine, s: State, before: seq<Byte>, now: seq<Byte>, k: nat)
    requires Inv(m, s) && k < |s.blocks| && OnlyHeaders(m, s.blocks, before, now) && |before| == MP_SIZE
    requires m.header <= s.blocks[k].size
    ensures s.blocks[k].addr + s.blocks[k].size <= MP_SIZE
    ensures now[s.blocks[k].addr + m.header..s.blocks[k].addr + s.blocks[k].size] ==
            before[s.blocks[k].addr + m.header..s.blocks[k].addr + s.blocks[k].size]
  {
    Ascending(m, s, k, |s.blocks|);
    forall x | s.blocks[k].addr + m.header <= x < s.blocks[k].addr + s.blocks[k].size
      ensures before[x] == now[x]
    {
      PayloadIsNoHeader(m, s, k, x);
    }
  }

  ghost predicate SizeShown(sizes: map<Addr, nat>, b: Block) {
    b.addr in sizes && sizes[b.addr] == b.size
  }

  ghost predicate SizesShown(sizes: map<Addr, nat>, bs: seq<Block>) {
    forall i :: 0 <= i < |bs| ==> SizeShown(sizes, bs[i])
  }

  ghost predicate IsNode(bs: seq<Block>, node: Addr) {
    node == ROOT || exists k :: 0 <= k < |bs| && bs[k].addr == node
  }

  lemma RingNodesAreNodes(bs: seq<Block>, node: Addr)
    requires node in FreeRing(bs)
    ensures IsNode(bs, node)
  {
    if node != ROOT { FreeAddrsAre(bs, node); }
  }

  /** Blocks that start at the same addresses have the same headers. */
  lemma SameAddrs(m: Machine, bs: seq<Block>, cs: seq<Block>)
    requires |bs| == |cs| && forall i :: 0 <= i < |bs| ==> bs[i].addr == cs[i].addr
    ensures forall x :: InHeader(m, cs, x) <==> InHeader(m, bs, x)
  {
    forall x ensures InHeader(m, cs, x) <==> InHeader(m, bs, x) {
      if InHeader(m, cs, x) {
        var i :| 0 <= i < |cs| && HeaderOf(m, cs[i], x);
        assert HeaderOf(m, bs[i], x);
      }
      if InHeader(m, bs, x) {
        var i :| 0 <= i < |bs| && HeaderOf(m, bs[i], x);
        assert HeaderOf(m, cs[i], x);
      }
    }
  }

  lemma UsedKeeps(m: Machine, s: State, k: nat, free: bool)
    requires Inv(m, s) && k < |s.blocks|
    ensures Inv(m, s.(blocks := s.blocks[k := s.blocks[k].(free := free)]))
  {
    var cs := s.blocks[k := s.blocks[k].(free := free)];
    forall i | 0 <= i < |cs| ensures Laid(m, cs, i) {
      assert Laid(m, s.blocks, i);
    }
  }

  lemma RingWithout(bs: seq<Block>, k: nat)
    requires k < |bs| && bs[k].free
    ensures var c, r := FreeRing(bs), Rank(bs, k);
            r + 1 < |c| && FreeRing(bs[k := bs[k].(free := false)]) == c[..r + 1] + c[r + 2..]
  {
    hide FreeAddrs;
    var cs := bs[k := bs[k].(free := false)];
    RankOfFree(bs, k);
    FreeAddrsSplit(cs, k);
    FreeAddrsOne(cs[k]);
    assert cs[..k] == bs[..k] && cs[k + 1..] == bs[k + 1..];
  }

  lemma RingWith(bs: seq<Block>, k: nat)
    requires k < |bs| && !bs[k].free
    ensures var c, r := FreeRing(bs), Rank(bs, k);
            r < |c| && FreeRing(bs[k := bs[k].(free := true)]) == c[..r + 1] + [bs[k].addr as Addr] + c[r + 1..]
  {
    hide FreeAddrs;
    var cs := bs[k := bs[k].(free := true)];
    FreeAddrsSplit(bs, k);
    FreeAddrsSplit(cs, k);
    FreeAddrsOne(bs[k]);
    FreeAddrsOne(cs[k]);
    assert cs[..k] == bs[..k] && cs[k + 1..] == bs[k + 1..];
  }

  /** The link of the node of a free block leads to the next free block. */
  lemma NextNode(next: Links, prev: Links, bs: seq<Block>, j: nat)
    requires IsRing(next, prev, FreeRing(bs)) && j < |bs| && bs[j].free
    ensures bs[j].addr in next && next[bs[j].addr] == NodeAt(bs, NextFree(bs, j + 1))
  {
    RankOfFree(bs, j);
    Follower(bs, j + 1);
    assert LinkedAt(next, prev, FreeRing(bs), Rank(bs, j) + 1);
  }

  lemma FirstNode(next: Links, prev: Links, bs: seq<Block>)
    requires IsRing(next, prev, FreeRing(bs))
    ensures ROOT in next && next[ROOT] == NodeAt(bs, NextFree(bs, 0))
  {
    assert bs[..0] == [];
    Follower(bs, 0);
    assert LinkedAt(next, prev, FreeRing(bs), 0);
  }

  /** The two nodes of the list between which a block belongs. */
  lemma Place(next: Links, prev: Links, bs: seq<Block>, k: nat)
    requires IsRing(next, prev, FreeRing(bs)) && k < |bs| && !bs[k].free
    ensures var iter, r := NodeAt(bs, NextFree(bs, k)), Rank(bs, k);
            r < |FreeRing(bs)| && iter == Succ(FreeRing(bs), r) &&
            iter in prev && prev[iter] == FreeRing(bs)[r] &&
            IsNode(bs, bs[k].addr) && IsNode(bs, iter) && IsNode(bs, prev[iter])
  {
    hide FreeAddrs, IsNode;
    var c, r := FreeRing(bs), Rank(bs, k);
    Follower(bs, k);
    assert LinkedAt(next, prev, c, r);
    assert LinkedAt(next, prev, c, if r + 1 < |c| then r + 1 else 0);
    RingNodesAreNodes(bs, c[r]);
    RingNodesAreNodes(bs, Succ(c, r));
    BlockIsNode(bs, k);
  }

  lemma BlockIsNode(bs: seq<Block>, k: nat)
    requires k < |bs|
    ensures IsNode(bs, bs[k].addr)
  {}

  lemma SizesKept(sizes: map<Addr, nat>, bs: seq<Block>, cs: seq<Block>)
    requires SizesShown(sizes, bs) && |cs| == |bs|
    requires forall i :: 0 <= i < |bs| ==> cs[i].addr == bs[i].addr && cs[i].size == bs[i].size
    ensures SizesShown(sizes, cs)
  {
    forall i | 0 <= i < |bs| ensures SizeShown(sizes, cs[i]) {
      assert SizeShown(sizes, bs[i]);
    }
  }

  lemma OnlyHeadersMoved(m: Machine, bs: seq<Block>, cs: seq<Block>, before: seq<Byte>, now: seq<Byte>)
    requires OnlyHeaders(m, bs, before, now)
    requires |bs| == |cs| && forall i :: 0 <= i < |bs| ==> bs[i].addr == cs[i].addr
    ensures OnlyHeaders(m, cs, before, now)
  {
    SameAddrs(m, bs, cs);
  }

  lemma InsertionPoint(m: Machine, s: State, i: nat, k: nat)
    requires Inv(m, s) && i <= k < |s.blocks| && !s.blocks[k].free
    requires var n := NodeAt(s.blocks, NextFree(s.blocks, i)); n == ROOT || n >= s.blocks[k].addr
    ensures NextFree(s.blocks, k) == NextFree(s.blocks, i)
  {
    var j := NextFree(s.blocks, i);
    assert j < k ==> Laid(m, s.blocks, j);
    if j < k { Ascending(m, s, j, k); }
  }

  lemma NotOnList(m: Machine, s: State, k: nat)
    requires Inv(m, s) && k < |s.blocks| && !s.blocks[k].free
    ensures (s.blocks[k].addr as Addr) !in FreeRing(s.blocks)
  {
    if (s.blocks[k].addr as Addr) in FreeAddrs(s.blocks) {
      FreeAddrsAre(s.blocks, s.blocks[k].addr);
      var i :| 0 <= i < |s.blocks| && s.blocks[i].free && s.blocks[i].addr == s.blocks[k].addr;
      BlocksAreDisjoint(m, s, i, k);
    }
  }

  /** Block `k` gives way to two blocks. */
  ghost function Cut(bs: seq<Block>, k: nat, b: Block, rest: Block): (cs: seq<Block>)
    requires k < |bs|
    ensures |cs| == |bs| + 1 && cs[k] == b && cs[k + 1] == rest
    ensures forall i :: 0 <= i < k ==> cs[i] == bs[i]
    ensures forall i :: k + 1 < i < |cs| ==> cs[i] == bs[i - 1]
  {
    bs[..k] + [b, rest] + bs[k + 1..]
  }

  lemma CutIsCarved(m: Machine, bs: seq<Block>, k: nat, need: nat)
    requires k < |bs| && bs[k].size >= need + m.header + MP_ALIGN
    ensures var rest := Block(bs[k].addr + need, bs[k].size - need, false);
            Cut(bs, k, Block(bs[k].addr, need, false), rest)[k + 1 := rest.(free := true)] == Carved(m, bs, k, need)
  {}

  lemma CutRing(bs: seq<Block>, k: nat, b: Block, rest: Block)
    requires k < |bs| && !bs[k].free && !b.free && !rest.free
    ensures FreeRing(Cut(bs, k, b, rest)) == FreeRing(bs)
  {
    hide FreeAddrs;
    FreeAddrsSplit(bs, k);
    FreeAddrsOne(bs[k]);
    FreeAddrsOne(b);
    FreeAddrsOne(rest);
    FreeAddrsConcat([b], [rest]);
    assert [b] + [rest] == [b, rest];
    FreeAddrsConcat(bs[..k], [b, rest]);
    FreeAddrsConcat(bs[..k] + [b, rest], bs[k + 1..]);
  }

  lemma UnitsAdd(a: nat, b: nat)
    requires a % MP_ALIGN == 0 && b % MP_ALIGN == 0
    ensures (a + b) % MP_ALIGN == 0 && (a >= b ==> (a - b) % MP_ALIGN == 0)
  {}

  /** Both parts of the cut block are laid out in its place. */
  lemma PartsLaid(m: Machine, bs: seq<Block>, k: nat, need: nat, rest: Block)
    requires k < |bs| && Laid(m, bs, k) && bs[k].size >= need + m.header > need >= m.header
    requires need % MP_ALIGN == 0 && rest == Block(bs[k].addr + need, bs[k].size - need, false)
    ensures var cs := Cut(bs, k, Block(bs[k].addr, need, false), rest);
      Laid(m, cs, k) && Laid(m, cs, k + 1) && StartOf(cs, k + 2) == StartOf(bs, k + 1)
  {
    hide Cut;
    UnitsAdd(bs[k].addr, need);
    UnitsAdd(bs[k].size, need);
  }

  lemma CutKeeps(m: Machine, s: State, k: nat, need: nat, rest: Block)
    requires Inv(m, s) && k < |s.blocks| && s.blocks[k].size >= need + m.header > need >= m.header
    requires need % MP_ALIGN == 0 && rest == Block(s.blocks[k].addr + need, s.blocks[k].size - need, false)
    ensures Inv(m, s.(blocks := Cut(s.blocks, k, Block(s.blocks[k].addr, need, false), rest)))
  {
    var bs, cs := s.blocks, Cut(s.blocks, k, Block(s.blocks[k].addr, need, false), rest);
    hide Cut;
    assert Laid(m, bs, k);
    PartsLaid(m, bs, k, need, rest);
    forall i | 0 <= i < |cs| ensures Laid(m, cs, i) {
      if i < k { assert Laid(m, bs, i); }
      if i > k + 1 { assert Laid(m, bs, i - 1); }
    }
  }

  lemma SizeAt(sizes: map<Addr, nat>, bs: seq<Block>, k: nat)
    requires SizesShown(sizes, bs) && k < |bs|
    ensures SizeShown(sizes, bs[k])
  {}

  lemma CutSizes(m: Machine, s: State, sizes: map<Addr, nat>, sizes1: map<Addr, nat>, k: nat, need: nat, rest: Block)
    requires Inv(m, s) && SizesShown(sizes, s.blocks) && k < |s.blocks| && 0 < need < s.blocks[k].size
    requires rest == Block(s.blocks[k].addr + need, s.blocks[k].size - need, false)
    requires sizes1 == sizes[rest.addr as Addr := rest.size][s.blocks[k].addr as Addr := need]
    ensures SizesShown(sizes1, Cut(s.blocks, k, Block(s.blocks[k].addr, need, false), rest))
  {
    var cs := Cut(s.blocks, k, Block(s.blocks[k].addr, need, false), rest);
    forall i | 0 <= i < |cs| ensures SizeShown(sizes1, cs[i]) {
      if i < k || i > k + 1 {
        var j := if i < k then i else i - 1;
        assert SizeShown(sizes, s.blocks[j]) && Laid(m, s.blocks, j);
        BlocksAreDisjoint(m, s, j, k);
      }
    }
  }

  lemma OnlyHeadersJoin(m: Machine, bs: seq<Block>, a: seq<Byte>, b: seq<Byte>, c: seq<Byte>)
    requires OnlyHeaders(m, bs, a, b) && OnlyHeaders(m, bs, b, c)
    ensures OnlyHeaders(m, bs, a, c)
  {}

  lemma NoHeaders(m: Machine, bs: seq<Block>, bytes: seq<Byte>)
    ensures OnlyHeaders(m, bs, bytes, bytes)
  {}

  lemma BlockInBuffer(m: Machine, s: State, k: nat)
    requires Inv(m, s) && k < |s.blocks|
    ensures s.blocks[k].addr + s.blocks[k].size <= s.off <= MP_SIZE && m.header <= s.blocks[k].size
  {
    Ascending(m, s, k, |s.blocks|);
    assert Laid(m, s.blocks, k);
  }

  lemma TakenThenCarved(m: Machine, bs: seq<Block>, k: nat, need: nat)
    requires k < |bs| && bs[k].size >= need + m.header + MP_ALIGN
    ensures Carved(m, bs[k := bs[k].(free := false)], k, need) == Carved(m, bs, k, need)
  {}

  lemma CarvedHeaders(m: Machine, bs: seq<Block>, k: nat, need: nat, before: seq<Byte>, now: seq<Byte>)
    requires k < |bs| && bs[k].size >= need && OnlyHeaders(m, bs, before, now)
    ensures OnlyHeaders(m, Carved(m, bs, k, need), before, now)
  {
    var cs := Carved(m, bs, k, need);
    forall x | InHeader(m, bs, x) ensures InHeader(m, cs, x) {
      var i :| 0 <= i < |bs| && HeaderOf(m, bs[i], x);
      assert HeaderOf(m, cs[if i <= k || |cs| == |bs| then i else i + 1], x);
    }
  }

  lemma AppendedSizes(m: Machine, s: State, sizes: map<Addr, nat>, need: nat)
    requires Inv(m, s) && SizesShown(sizes, s.blocks)
    ensures SizesShown(sizes[s.off as Addr := need], s.blocks + [Block(s.off, need, false)])
  {
    var cs := s.blocks + [Block(s.off, need, false)];
    forall i | 0 <= i < |cs| ensures SizeShown(sizes[s.off as Addr := need], cs[i]) {
      if i < |s.blocks| {
        assert SizeShown(sizes, s.blocks[i]) && Laid(m, s.blocks, i);
        Ascending(m, s, i, |s.blocks|);
      }
    }
  }

  lemma AppendedRing(bs: seq<Block>, b: Block)
    requires !b.free
    ensures FreeRing(bs + [b]) == FreeRing(bs)
  {
    FreeAddrsConcat(bs, [b]);
    FreeAddrsOne(b);
  }

  /** `count` bytes from `start` are zero now and the others are as before. */
  ghost predicate ZeroedAt(before: seq<Byte>, now: seq<Byte>, start: nat, count: nat) {
    |before| == |now| &&
    forall x :: 0 <= x < |now| ==> now[x] == if start <= x < start + count then 0 else before[x]
  }

  ghost predicate NoHeaderIn(m: Machine, bs: seq<Block>, start: nat, count: nat) {
    forall x :: start <= x < start + count ==> !InHeader(m, bs, x)
  }

  lemma GrantedPayload(m: Machine, s: State, t: State, p: Pointer, cap: nat)
    requires Inv(m, t)
    requires p.At? && exists k: nat :: HoldsAt(m, t, p, k) && FitsBest(m, s, cap, t, p, k)
    ensures p.offset + cap <= MP_SIZE
    ensures NoHeaderIn(m, t.blocks, p.offset, cap)
  {
    var k: nat :| HoldsAt(m, t, p, k) && FitsBest(m, s, cap, t, p, k);
    BlockInBuffer(m, t, k);
    forall x | p.offset <= x < p.offset + cap ensures !InHeader(m, t.blocks, x) {
      PayloadIsNoHeader(m, t, k, x);
    }
  }

  class Pool {
    const m: Machine
    const links: ListHeap
    const data: array<Byte>
    var sizes: map<Addr, nat>
    var off: nat
    ghost var blocks: seq<Block>

    ghost function Abs(): State
      reads this
    {
      State(blocks, off)
    }

    ghost predicate Valid()
      reads this, links
    {
      m.Valid() && data.Length == MP_SIZE && Inv(m, Abs()) &&
      links.Ring(FreeRing(blocks)) && SizesShown(sizes, blocks)
    }

    /** `mp_init` on a zeroed pool. */
    constructor (m: Machine)
      requires m.Valid()
      ensures Valid() && Abs() == EMPTY && this.m == m
      ensures fresh(links) && fresh(data)
    {
      this.m := m;
      var heap := new ListHeap();
      heap.Init(ROOT);
      links := heap;
      data := new Byte[MP_SIZE];
      sizes := map[];
      off := 0;
      blocks := [];
      assert FreeRing([]) == [ROOT];
    }

    /** Some field of a header is written: the bytes there become unspecified. */
    method TouchHeader(node: Addr)
      requires Valid() && IsNode(blocks, node)
      modifies data
      ensures OnlyHeaders(m, blocks, old(data[..]), data[..])
    {
      if node != ROOT {
        ghost var before := data[..];
        ghost var k :| 0 <= k < |blocks| && blocks[k].addr == node;
        Ascending(m, Abs(), k, |blocks|);
        assert Laid(m, blocks, k);
        for x := node to node + m.header
          invariant forall y :: 0 <= y < MP_SIZE && !HeaderOf(m, blocks[k], y) ==> data[y] == before[y]
        {
          data[x] := *;
        }
      }
    }

    method TouchHeaders(node: Addr, before: Addr, behind: Addr)
      requires Valid() && IsNode(blocks, node) && IsNode(blocks, before) && IsNode(blocks, behind)
      modifies data
      ensures OnlyHeaders(m, blocks, old(data[..]), data[..])
    {
      TouchHeader(node);
      TouchHeader(before);
      TouchHeader(behind);
    }

    /** `list_del` of a free block, which is thereby handed out. */
    method TakeOut(node: Addr, ghost k: nat)
      requires Valid() && k < |blocks| && blocks[k].free && node == blocks[k].addr
      modifies `blocks, links, data
      ensures Valid() && blocks == old(blocks[k := blocks[k].(free := false)])
      ensures OnlyHeaders(m, blocks, old(data[..]), data[..])
    {
      ghost var c, r := FreeRing(blocks), Rank(blocks, k);
      RankOfFree(blocks, k);
      assert LinkedAt(links.next, links.prev, c, r + 1);
      RingNodesAreNodes(blocks, Pred(c, r + 1));
      RingNodesAreNodes(blocks, Succ(c, r + 1));
      TouchHeaders(node, links.prev[node], links.next[node]);
      links.Delete(node, c, r + 1);
      ghost var bs := blocks;
      blocks := blocks[k := blocks[k].(free := false)];
      RingWithout(bs, k);
      UsedKeeps(m, State(bs, off), k, false);
      SameAddrs(m, bs, blocks);
    }

    /** The walk of the free list to the first node at or behind an address. */
    method FindPlace(addr: Addr, ghost k: nat) returns (iter: Addr)
      requires Valid() && k < |blocks| && !blocks[k].free && addr == blocks[k].addr
      ensures iter == NodeAt(blocks, NextFree(blocks, k))
    {
      ghost var i := 0;
      FirstNode(links.next, links.prev, blocks);
      iter := links.next[ROOT];
      while iter != ROOT && iter < addr
        invariant i <= k && iter == NodeAt(blocks, NextFree(blocks, i))
        decreases |blocks| - i
      {
        ghost var j := NextFree(blocks, i);
        if k < j { Ascending(m, Abs(), k, j); }
        NextNode(links.next, links.prev, blocks, j);
        i := j + 1;
        iter := links.next[iter];
      }
      InsertionPoint(m, Abs(), i, k);
    }

    /** The block at `k` joins the free list in the order of addresses. */
    method InsertByAddress(addr: Addr, ghost k: nat)
      requires Valid() && k < |blocks| && !blocks[k].free && addr == blocks[k].addr
      modifies `blocks, links, data
      ensures Valid() && blocks == old(blocks[k := blocks[k].(free := true)])
      ensures OnlyHeaders(m, blocks, old(data[..]), data[..])
    {
      hide Inv, NextFree, FreeAddrs, Rank, FreeRing, IsNode, IsRing, OnlyHeaders, InHeader;
      var iter := FindPlace(addr, k);
      ghost var c, bs, r := FreeRing(blocks), blocks, Rank(blocks, k);
      Place(links.next, links.prev, bs, k);
      var before := links.prev[iter];
      TouchHeaders(addr, before, iter);
      NotOnList(m, Abs(), k);
      links.AddBetween(addr, before, iter, c, r);
      blocks := blocks[k := blocks[k].(free := true)];
      RingWith(bs, k);
      UsedKeeps(m, State(bs, off), k, true);
      OnlyHeadersMoved(m, bs, blocks, old(data[..]), data[..]);
      SizesKept(sizes, bs, blocks);
    }

    /** The walk of the free list to the first block that is large enough. */
    method FindFit(need: nat) returns (node: Addr, ghost k: nat)
      requires Valid()
      ensures k == FirstFit(blocks, need)
      ensures node == NodeAt(blocks, FirstFit(blocks, need))
    {
      k := NextFree(blocks, 0);
      FirstNode(links.next, links.prev, blocks);
      node := links.next[ROOT];
      while node != ROOT
        invariant k <= |blocks| && node == NodeAt(blocks, k) && (k < |blocks| ==> blocks[k].free)
        invariant forall i :: 0 <= i < k ==> !(blocks[i].free && blocks[i].size >= need)
        decreases |blocks| - k
      {
        assert SizeShown(sizes, blocks[k]);
        if sizes[node] >= need {
          return;
        }
        NextNode(links.next, links.prev, blocks, k);
        node := links.next[node];
        k := NextFree(blocks, k + 1);
      }
    }

    /** The block at `k`, just taken off the list, keeps `need` bytes; the rest is put back. */
    method Split(node: Addr, need: nat, ghost k: nat)
      requires Valid() && k < |blocks| && node == blocks[k].addr && !blocks[k].free
      requires need >= m.header && need % MP_ALIGN == 0 && blocks[k].size >= need + m.header + MP_ALIGN
      modifies `blocks, `sizes, links, data
      ensures Valid() && blocks == old(Carved(m, blocks, k, need))
      ensures OnlyHeaders(m, blocks, old(data[..]), data[..])
    {
      hide Inv, FreeAddrs, FreeRing, IsRing, OnlyHeaders, InHeader, SizesShown;
      ghost var bs, sizes0 := blocks, sizes;
      var splitBlock := node + need;
      SizeAt(sizes, blocks, k);
      sizes := sizes[splitBlock := sizes[node] - need];
      sizes := sizes[node := need];
      ghost var rest := Block(splitBlock, bs[k].size - need, false);
      blocks := Cut(bs, k, Block(bs[k].addr, need, false), rest);
      CutRing(bs, k, Block(bs[k].addr, need, false), rest);
      CutKeeps(m, Abs().(blocks := bs), k, need, rest);
      CutSizes(m, Abs().(blocks := bs), sizes0, sizes, k, need, rest);
      BlockIsNode(blocks, k);
      TouchHeader(node);
      ghost var cut, middle := blocks, data[..];
      InsertByAddress(splitBlock, k + 1);
      CutIsCarved(m, bs, k, need);
      OnlyHeadersMoved(m, cut, blocks, old(data[..]), middle);
      OnlyHeadersJoin(m, blocks, old(data[..]), middle, data[..]);
    }

    /** The part of `mp_alloc` that takes a free block, whole or in part. */
    method TakeFit(node: Addr, need: nat, ghost k: nat)
      requires Valid() && k < |blocks| && blocks[k].free && node == blocks[k].addr && blocks[k].size >= need
      requires need >= m.header && need % MP_ALIGN == 0
      modifies `blocks, `sizes, links, data
      ensures Valid() && blocks == old(Carved(m, blocks, k, need))
      ensures OnlyHeaders(m, blocks, old(data[..]), data[..])
    {
      hide Inv, FreeAddrs, FreeRing, IsRing, OnlyHeaders, InHeader, SizesShown;
      ghost var bs, bytes := blocks, data[..];
      BlockInBuffer(m, Abs(), k);
      TakeOut(node, k);
      SizeAt(sizes, blocks, k);
      if sizes[node] >= Plus(Plus(need, m.header, m.word), MP_ALIGN, m.word) {
        ghost var taken, middle := blocks, data[..];
        Split(node, need, k);
        TakenThenCarved(m, bs, k, need);
        CarvedHeaders(m, taken, k, need, bytes, middle);
        OnlyHeadersJoin(m, blocks, bytes, middle, data[..]);
      }
    }

    /** The part of `mp_alloc` that extends the used part of the buffer. */
    method TakeTail(need: nat, ghost cap: nat)
      requires Valid() && cap < m.word && Sound(m, Abs(), cap) && need == BlockSize(m, cap)
      requires FirstFit(blocks, need) == |blocks| && TailAdmits(m, off, need)
      modifies this, data
      ensures Valid() && Abs() == Allocated(m, old(Abs()), cap).0
      ensures OnlyHeaders(m, blocks, old(data[..]), data[..])
    {
      hide Inv, FreeAddrs, FreeRing, IsRing, OnlyHeaders, InHeader, SizesShown, AlignUp, BlockSize;
      ghost var s := Abs();
      AllocKeepsInv(m, s, cap);
      var tail := off;
      sizes := sizes[tail as Addr := need];
      off := Plus(off, need, m.word);
      blocks := blocks + [Block(tail, need, false)];
      AppendedSizes(m, s, old(sizes), need);
      AppendedRing(s.blocks, blocks[|s.blocks|]);
      BlockIsNode(blocks, |s.blocks|);
      TouchHeader(tail);
    }

    /** `mp_alloc`. */
    method Alloc(cap: nat) returns (p: Pointer)
      requires Valid() && cap < m.word && Sound(m, Abs(), cap)
      modifies this, links, data
      ensures Valid() && (Abs(), p) == Allocated(m, old(Abs()), cap)
      ensures OnlyHeaders(m, blocks, old(data[..]), data[..])
    {
      hide Inv, FreeAddrs, FreeRing, IsRing, OnlyHeaders, InHeader, SizesShown, AlignUp, BlockSize, Carved;
      AllocKeepsInv(m, Abs(), cap);
      var need := BlockSize(m, cap);
      var node, k := FindFit(need);
      if node != ROOT {
        BlockSizeIsExact(m, off, cap);
        TakeFit(node, need, k);
        p := At(node + m.header);
      } else if Plus(off, need, m.word) > MP_SIZE {
        NoHeaders(m, blocks, data[..]);
        p := Null;
      } else {
        p := At(off + m.header);
        TakeTail(need, cap);
      }
    }

    method FillZero(start: nat, count: nat)
      requires start + count <= data.Length
      modifies data
      ensures ZeroedAt(old(data[..]), data[..], start, count)
    {
      for x := start to start + count
        invariant forall y :: start <= y < x ==> data[y] == 0
        invariant forall y :: 0 <= y < data.Length && (y < start || y >= x) ==> data[y] == old(data[y])
      {
        data[x] := 0;
      }
    }

    /** `mp_calloc`: the payload asked for is zeroed, which reaches into no header; of the rest
        of the buffer only headers change. */
    method Calloc(cap: nat) returns (p: Pointer)
      requires Valid() && cap < m.word && Sound(m, Abs(), cap)
      modifies this, links, data
      ensures Valid() && (Abs(), p) == Allocated(m, old(Abs()), cap)
      ensures p == Null ==> OnlyHeaders(m, blocks, old(data[..]), data[..])
      ensures p.At? ==> p.offset + cap <= MP_SIZE && NoHeaderIn(m, blocks, p.offset, cap)
      ensures p.At? ==> exists granted ::
                OnlyHeaders(m, blocks, old(data[..]), granted) && ZeroedAt(granted, data[..], p.offset, cap)
    {
      hide Inv, FreeAddrs, FreeRing, IsRing, OnlyHeaders, InHeader, SizesShown, Allocated, ZeroedAt, NoHeaderIn;
      AllocPicks(m, Abs(), cap);
      p := Alloc(cap);
      if p.At? {
        GrantedPayload(m, old(Abs()), Abs(), p, cap);
        FillZero(p.offset, cap);
      }
    }

    /** `mp_free`; the null pointer is let through. */
    method Free(p: Pointer)
      requires Valid() && (p == Null || Live(m, Abs(), p))
      modifies `blocks, links, data
      ensures Valid() && Abs() == Freed(m, old(Abs()), p)
      ensures OnlyHeaders(m, blocks, old(data[..]), data[..])
    {
      if p == Null {
        NoHeaders(m, blocks, data[..]);
        return;
      }
      InsertByAddress(p.offset - m.header, Holder(m, Abs(), p));
    }

    /** `mp_reset`. */
    method Reset()
      requires Valid()
      modifies this, links
      ensures Valid() && Abs() == EMPTY
    {
      off := 0;
      links.Init(ROOT);
      blocks := [];
      assert FreeRing([]) == [ROOT];
    }
  }
}
