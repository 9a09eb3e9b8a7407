/** What `ds/mp.h` promises, on values: a buffer cut into blocks, each free or handed out. */
module PoolSpec {
  import opened Bits

  const MP_SIZE: nat := 65536
  const MP_ALIGN: nat := 8

  /** The size of a block header, rounded up, and the number of values of `usz`. */
  datatype Machine = Machine(header: nat, word: nat) {
    predicate Valid() {
      header % MP_ALIGN == 0 && 0 < header <= 64 && word % MP_ALIGN == 0 && word > 2 * MP_SIZE
    }
  }

  /** A block, header included; addresses are offsets into the buffer. */
  datatype Block = Block(addr: nat, size: nat, free: bool)

  datatype Pointer = Null | At(offset: nat)

  datatype State = State(blocks: seq<Block>, off: nat)

  const EMPTY: State := State([], 0)

  // ---- Sizes, in machine arithmetic and without a bound

  function AlignUp(n: nat): nat {
    (n + (MP_ALIGN - 1)) / MP_ALIGN * MP_ALIGN
  }

  /** `MP_BLOCK_HEADER_SIZE + MP_ALIGN_UP(cap)` as the machine computes it. */
  function BlockSize(m: Machine, cap: nat): (need: nat)
    requires m.Valid() && cap < m.word
    ensures need < m.word
  {
    Plus(m.header, Plus(cap, MP_ALIGN - 1, m.word) / MP_ALIGN * MP_ALIGN, m.word)
  }

  predicate TailAdmits(m: Machine, off: nat, need: nat)
    requires off < m.word && need < m.word
  {
    Plus(off, need, m.word) <= MP_SIZE
  }

  predicate Representable(m: Machine, off: nat, cap: nat) {
    off + m.header + AlignUp(cap) < m.word
  }

  lemma AlignUpBounds(n: nat)
    ensures AlignUp(n) % MP_ALIGN == 0 && n <= AlignUp(n) < n + MP_ALIGN
  {}

  lemma BlockSizeIsExact(m: Machine, off: nat, cap: nat)
    requires m.Valid() && Representable(m, off, cap)
    ensures cap < m.word && BlockSize(m, cap) == m.header + AlignUp(cap)
    ensures BlockSize(m, cap) % MP_ALIGN == 0 && BlockSize(m, cap) >= m.header + cap
    ensures BlockSize(m, cap) < m.header + cap + MP_ALIGN
  {
    AlignUpBounds(cap);
  }

  /** The machine's size and tail tests agree with unbounded arithmetic exactly when the end
      of a block put at the tail is a value of `usz`. */
  lemma RequestIsExact(m: Machine, off: nat, cap: nat)
    requires m.Valid() && off <= MP_SIZE && cap < m.word
    ensures
      (BlockSize(m, cap) == m.header + AlignUp(cap) &&
       (TailAdmits(m, off, BlockSize(m, cap)) <==> off + m.header + AlignUp(cap) <= MP_SIZE)) <==>
      Representable(m, off, cap)
  {
    if Representable(m, off, cap) {
      BlockSizeIsExact(m, off, cap);
    }
  }

  /** A request of the largest `usz` is granted a block with no payload at all. */
  lemma WrappedRequest(m: Machine)
    requires m.Valid()
    ensures BlockSize(m, m.word - 1) == m.header < m.header + (m.word - 1)
    ensures TailAdmits(m, 0, BlockSize(m, m.word - 1)) && !Representable(m, 0, m.word - 1)
  {
    assert Plus(m.word - 1, MP_ALIGN - 1, m.word) == MP_ALIGN - 2;
  }

  // ---- The operations

  /** The first free block that is large enough, or the number of blocks. */
  function FirstFit(bs: seq<Block>, need: nat): (k: nat)
    ensures k <= |bs|
    ensures k < |bs| ==> bs[k].free && bs[k].size >= need
    ensures forall i :: 0 <= i < k ==> !(bs[i].free && bs[i].size >= need)
  {
    if bs == [] then 0
    else if bs[0].free && bs[0].size >= need then 0
    else 1 + FirstFit(bs[1..], need)
  }

  function Carved(m: Machine, bs: seq<Block>, k: nat, need: nat): seq<Block>
    requires k < |bs| && bs[k].size >= need
  {
    var b := bs[k];
    if b.size >= need + m.header + MP_ALIGN then
      bs[..k] + [Block(b.addr, need, false), Block(b.addr + need, b.size - need, true)] + bs[k + 1..]
    else
      bs[k := b.(free := false)]
  }

  function Allocated(m: Machine, s: State, cap: nat): (State, Pointer)
    requires m.Valid() && cap < m.word && s.off <= MP_SIZE
  {
    var need := BlockSize(m, cap);
    var k := FirstFit(s.blocks, need);
    if k < |s.blocks| then
      (State(Carved(m, s.blocks, k, need), s.off), At(s.blocks[k].addr + m.header))
    else if !TailAdmits(m, s.off, need) then
      (s, Null)
    else
      (State(s.blocks + [Block(s.off, need, false)], Plus(s.off, need, m.word)), At(s.off + m.header))
  }

  ghost predicate HoldsAt(m: Machine, s: State, p: Pointer, k: nat) {
    p.At? && k < |s.blocks| && s.blocks[k].addr + m.header == p.offset && !s.blocks[k].free
  }

  ghost predicate Live(m: Machine, s: State, p: Pointer) {
    exists k: nat :: HoldsAt(m, s, p, k)
  }

  ghost function Holder(m: Machine, s: State, p: Pointer): (k: nat)
    requires Live(m, s, p)
    ensures HoldsAt(m, s, p, k)
  {
    var k: nat :| HoldsAt(m, s, p, k);
    k
  }

  ghost function Freed(m: Machine, s: State, p: Pointer): State
    requires p == Null || Live(m, s, p)
  {
    if p == Null then s
    else
      var k := Holder(m, s, p);
      s.(blocks := s.blocks[k := s.blocks[k].(free := true)])
  }

  // ---- The invariant: the blocks tile the used part of the buffer

  ghost function StartOf(bs: seq<Block>, i: nat): nat
    requires i <= |bs|
  {
    if i == 0 then 0 else bs[i - 1].addr + bs[i - 1].size
  }

  ghost predicate Laid(m: Machine, bs: seq<Block>, i: nat)
    requires i < |bs|
  {
    bs[i].addr == StartOf(bs, i) && bs[i].addr % MP_ALIGN == 0 &&
    bs[i].size % MP_ALIGN == 0 && bs[i].size >= m.header > 0
  }

  ghost predicate Inv(m: Machine, s: State) {
    (forall i :: 0 <= i < |s.blocks| ==> Laid(m, s.blocks, i)) &&
    StartOf(s.blocks, |s.blocks|) == s.off <= MP_SIZE && s.off % MP_ALIGN == 0
  }

  lemma {:induction false} Ascending(m: Machine, s: State, i: nat, j: nat)
    requires Inv(m, s) && i < j <= |s.blocks|
    ensures s.blocks[i].addr + s.blocks[i].size <= StartOf(s.blocks, j) <= s.off
    ensures j < |s.blocks| ==> s.blocks[i].addr + s.blocks[i].size <= s.blocks[j].addr
    decreases |s.blocks| - j, j
  {
    AscendingTo(m, s, i, j);
    AscendingTo(m, s, i, |s.blocks|);
    if j < |s.blocks| {
      assert Laid(m, s.blocks, j);
      AscendingTo(m, s, j, |s.blocks|);
    }
  }

  lemma {:induction false} AscendingTo(m: Machine, s: State, i: nat, j: nat)
    requires Inv(m, s) && i < j <= |s.blocks|
    ensures s.blocks[i].addr + s.blocks[i].size <= StartOf(s.blocks, j)
  {
    if i + 1 < j {
      AscendingTo(m, s, i, j - 1);
      assert Laid(m, s.blocks, j - 1);
    }
  }

  /** No two blocks share a byte, and only one block starts at an address. */
  lemma BlocksAreDisjoint(m: Machine, s: State, i: nat, j: nat)
    requires Inv(m, s) && i < |s.blocks| && j < |s.blocks| && i != j
    ensures s.blocks[i].addr + s.blocks[i].size <= s.blocks[j].addr ||
            s.blocks[j].addr + s.blocks[j].size <= s.blocks[i].addr
    ensures s.blocks[i].addr != s.blocks[j].addr
    ensures s.blocks[i].addr + s.blocks[i].size <= s.off <= MP_SIZE
  {
    if i < j { Ascending(m, s, i, j); } else { Ascending(m, s, j, i); }
    Ascending(m, s, i, |s.blocks|);
    assert Laid(m, s.blocks, i) && Laid(m, s.blocks, j);
  }

  lemma CarvedKeeps(m: Machine, s: State, k: nat, need: nat)
    requires m.Valid() && Inv(m, s) && k < |s.blocks| && s.blocks[k].size >= need
    requires need % MP_ALIGN == 0 && need >= m.header
    ensures Inv(m, s.(blocks := Carved(m, s.blocks, k, need)))
  {
    var bs, cs := s.blocks, Carved(m, s.blocks, k, need);
    assert Laid(m, bs, k);
    if bs[k].size >= need + m.header + MP_ALIGN {
      forall i | 0 <= i < |cs| ensures Laid(m, cs, i) {
        if i < k { assert Laid(m, bs, i); }
        if i > k + 1 { assert Laid(m, bs, i - 1); }
      }
    } else {
      forall i | 0 <= i < |cs| ensures Laid(m, cs, i) {
        assert Laid(m, bs, i);
      }
    }
  }

  /** The requests that are dealt with rightly: those whose end at the tail is a value of
      `usz`, and those that are refused anyhow. */
  predicate Sound(m: Machine, s: State, cap: nat)
    requires m.Valid() && cap < m.word && s.off <= MP_SIZE
  {
    Representable(m, s.off, cap) ||
    (FirstFit(s.blocks, BlockSize(m, cap)) == |s.blocks| && !TailAdmits(m, s.off, BlockSize(m, cap)))
  }

  lemma AllocKeepsInv(m: Machine, s: State, cap: nat)
    requires m.Valid() && Inv(m, s) && cap < m.word && Sound(m, s, cap)
    ensures Inv(m, Allocated(m, s, cap).0)
    ensures Allocated(m, s, cap).1 == Null ==> Allocated(m, s, cap).0 == s
    ensures Allocated(m, s, cap).1.At? ==> Representable(m, s.off, cap)
  {
    var need := BlockSize(m, cap);
    var k := FirstFit(s.blocks, need);
    if Representable(m, s.off, cap) {
      BlockSizeIsExact(m, s.off, cap);
      if k < |s.blocks| {
        CarvedKeeps(m, s, k, need);
      } else if TailAdmits(m, s.off, need) {
        var cs := s.blocks + [Block(s.off, need, false)];
        forall i | 0 <= i < |cs| ensures Laid(m, cs, i) {
          if i < |s.blocks| { assert Laid(m, s.blocks, i); }
        }
      }
    }
  }

  lemma FreeKeepsInv(m: Machine, s: State, p: Pointer)
    requires Inv(m, s) && (p == Null || Live(m, s, p))
    ensures Inv(m, Freed(m, s, p))
  {
    forall i | 0 <= i < |s.blocks| ensures Laid(m, Freed(m, s, p).blocks, i) {
      assert Laid(m, s.blocks, i);
    }
  }

  // ---- What an allocation returns

  /** A pointer comes back with room for the request. It is the lowest-addressed free block
      that is large enough, wasting less than a header and an alignment unit beyond its own
      rounding; the tail is used only when there is none; and `Null` comes back exactly when
      neither has the room. */
  ghost predicate Served(m: Machine, s: State, cap: nat, t: State, p: Pointer) {
    var need := m.header + AlignUp(cap);
    (p == Null <==> s.off + need > MP_SIZE &&
                    forall i :: 0 <= i < |s.blocks| && s.blocks[i].free ==> s.blocks[i].size < need) &&
    (p == Null ==> t == s) &&
    (p.At? ==> exists k: nat :: HoldsAt(m, t, p, k) && FitsBest(m, s, cap, t, p, k))
  }

  ghost predicate FitsBest(m: Machine, s: State, cap: nat, t: State, p: Pointer, k: nat) {
    var need := m.header + AlignUp(cap);
    p.At? && k < |t.blocks| && need <= t.blocks[k].size < need + m.header + MP_ALIGN &&
    p.offset + cap <= t.blocks[k].addr + t.blocks[k].size &&
    (forall i :: 0 <= i < |s.blocks| && s.blocks[i].free && s.blocks[i].size >= need ==>
      t.blocks[k].addr <= s.blocks[i].addr)
  }

  lemma AllocPicks(m: Machine, s: State, cap: nat)
    requires m.Valid() && Inv(m, s) && cap < m.word && Sound(m, s, cap)
    ensures Served(m, s, cap, Allocated(m, s, cap).0, Allocated(m, s, cap).1)
  {
    AllocKeepsInv(m, s, cap);
    AlignUpBounds(cap);
    var need := m.header + AlignUp(cap);
    var (t, p) := Allocated(m, s, cap);
    if Representable(m, s.off, cap) {
      BlockSizeIsExact(m, s.off, cap);
      var k := FirstFit(s.blocks, need);
      if p.At? {
        assert HoldsAt(m, t, p, k);
        forall i | 0 <= i < |s.blocks| && s.blocks[i].free && s.blocks[i].size >= need
          ensures t.blocks[k].addr <= s.blocks[i].addr
        {
          if i > k { Ascending(m, s, k, i); }
        }
        assert FitsBest(m, s, cap, t, p, k);
      }
    } else {
      NothingIsThatLarge(m, s, need);
    }
  }

  /** A block is cut only where what is left over has room for a header and a unit of its own;
      every other free block was there before. */
  lemma CutLeavesRoom(m: Machine, s: State, cap: nat, j: nat)
    requires m.Valid() && Inv(m, s) && cap < m.word && Sound(m, s, cap)
    requires j < |Allocated(m, s, cap).0.blocks| && Allocated(m, s, cap).0.blocks[j].free
    ensures var b := Allocated(m, s, cap).0.blocks[j]; b in s.blocks || b.size >= m.header + MP_ALIGN
  {
    var bs, cs := s.blocks, Allocated(m, s, cap).0.blocks;
    var k := FirstFit(bs, BlockSize(m, cap));
    if j < |bs| && cs[j] == bs[j] {
      assert bs[j] in bs;
    } else if k < |bs| && |cs| > |bs| && j > k + 1 {
      assert cs[j] == bs[j - 1];
    }
  }

  lemma NothingIsThatLarge(m: Machine, s: State, need: nat)
    requires Inv(m, s)
    ensures need > MP_SIZE ==> forall i :: 0 <= i < |s.blocks| ==> s.blocks[i].size < need
  {
    forall i | 0 <= i < |s.blocks| ensures s.blocks[i].size <= MP_SIZE {
      Ascending(m, s, i, |s.blocks|);
    }
  }

  /** `mp_alloc` keeps the blocks in order and serves the request exactly for the sound ones:
      any other request is granted what it did not ask for. */
  lemma AllocIsExact(m: Machine, s: State, cap: nat)
    requires m.Valid() && Inv(m, s) && cap < m.word
    ensures
      Inv(m, Allocated(m, s, cap).0) && Served(m, s, cap, Allocated(m, s, cap).0, Allocated(m, s, cap).1) <==>
      Sound(m, s, cap)
  {
    if Sound(m, s, cap) {
      AllocKeepsInv(m, s, cap);
      AllocPicks(m, s, cap);
    } else {
      var t := Allocated(m, s, cap).0;
      if Inv(m, t) { NothingIsThatLarge(m, t, m.header + AlignUp(cap)); }
    }
  }
}
