/** The compare-and-swap that wins a reservation keeps the invariant, although the value
    of `rp` it was decided on may be out of date. */
module MpscWinner {
  import opened Basics
  import opened MpscModel
  import opened MpscInvariant
  import opened MpscHistory
  import opened MpscProducer
  import opened Arith

  /** Equal words mean that no reservation came in between: the counter tells laps apart. */
  lemma NothingIntervened(c: Config, m: Memory, snap: Snap)
    requires c.Valid() && Shape(c, m) && SnapOk(c, snap, m.wp, m.lap, m.wbase)
    requires m.wp == snap.word && m.lap < snap.lap + c.counterMod
    ensures snap.lap == m.lap && snap.base == m.wbase && snap.Pos() == m.W()
  {
    SameMod(snap.lap, m.lap, c.counterMod);
  }

  /** What the memory becomes when a reservation of `size` bytes is won. */
  ghost function WonMemory(c: Config, m: Memory, p: nat, data: seq<Byte>, target: Word): Memory {
    var wraps := m.wp.off + |data| >= c.cap;
    var base := if target.locked then m.wbase + c.cap else m.wbase;
    m.(wp := target,
       lap := if wraps then m.lap + 1 else m.lap,
       wbase := if wraps then m.wbase + c.cap else m.wbase,
       turn := if target.locked then m.W() else if wraps then m.wbase + c.cap else m.turn,
       turnRes := if wraps then |m.res| else m.turnRes,
       res := m.res + [Res(p, m.W(), base, if target.locked then 0 else m.wp.off, |m.stream|, |data|)],
       done := m.done + [0], pushed := m.pushed + [false], stream := m.stream + data)
  }

  /** The decision made on a value of `rp` that fitted the unchanged write position is right
      for the present `rp`, which can only have come closer. */
  ghost predicate Fits(c: Config, m: Memory, size: nat, rp: nat, target: Word) {
    && !m.wp.locked && 0 < size && rp < c.cap && c.counterMod > 0
    && Target(c, m.wp, size, rp) == Some(target)
    && exists rbase: nat :: rbase + rp <= m.R() && RingOk(c.cap, m.wbase, m.wp.off, rbase, rp)
  }

  lemma RingStays(c: Config, m: Memory, size: nat, rp: nat, target: Word)
    requires c.Valid() && Shape(c, m) && RingOk(c.cap, m.wbase, m.wp.off, m.rbase, m.rp) && Fits(c, m, size, rp, target)
    ensures m.wp.off + size < c.cap ==>
      target == Word(false, m.wp.counter, m.wp.off + size) && RingOk(c.cap, m.wbase, m.wp.off + size, m.rbase, m.rp)
    ensures m.wp.off + size >= c.cap ==>
      m.wbase == m.rbase && target.off < m.rp && (target.locked <==> m.wp.off + size > c.cap) &&
      target.off == (if target.locked then size else 0)
  {
  }

  lemma WonKeepsRest(c: Config, m: Memory, p: nat, data: seq<Byte>, rp: nat, target: Word)
    requires MemoryOk(c, m) && p < c.producers && Fits(c, m, |data|, rp, target)
    ensures var m1 := WonMemory(c, m, p, data, target);
      && m1.W() == m1.res[|m.res|].End() && m1.R() == m.R() && m.W() < m1.W()
      && Shape(c, m1) && RingOk(c.cap, m1.wbase, m1.wp.off, m1.rbase, m1.rp)
      && ResOk(c.cap, c.producers, m1.res[|m.res|])
      && BasesOk(c.cap, m1.res, m1.rbase)
      && |m.res| == |m.done| == |m.pushed| && m1.res[|m.res|].off <= c.cap && |m.buf| == c.cap
  {
    hide HistoryOk, DoneOk, ContentOk, SyncOk;
    RingStays(c, m, |data|, rp, target);
    ModAdd(m.lap, 1, c.counterMod);
  }

  lemma WonKeepsMemory(c: Config, m: Memory, p: nat, data: seq<Byte>, rp: nat, target: Word)
    requires MemoryOk(c, m) && p < c.producers && Fits(c, m, |data|, rp, target)
    ensures MemoryOk(c, WonMemory(c, m, p, data, target))
  {
    hide Shape, HistoryOk, BasesOk, DoneOk, ContentOk, SyncOk, RingOk, ResOk, Fits;
    var m1 := WonMemory(c, m, p, data, target);
    WonKeepsRest(c, m, p, data, rp, target);
    HistoryGrows(c.cap, c.producers, m.res, m.W(), |m.stream|, m1.res[|m.res|]);
    StreamGrows(c, m, m1, data);
    WonIsAhead(c, m, m1, |data|);
  }

  /** The reader is where it was, with one more reservation ahead of it. */
  lemma WonIsAhead(c: Config, m: Memory, m1: Memory, size: nat)
    requires MemoryOk(c, m) && |m1.res| == |m.res| + 1 && m1.res == m.res + [m1.res[|m.res|]]
    requires m1.done == m.done + [0] && m1.pushed == m.pushed + [false]
    requires m1.res[|m.res|].pre == m.W() < m1.W() && m1.W() == m1.res[|m.res|].End()
    requires m1.res[|m.res|].pos == |m.stream| && |m1.stream| == |m.stream| + m1.res[|m.res|].size
    requires m1.R() == m.R() && m1.taken == m.taken
    ensures DoneOk(m1.res, m1.done, m1.pushed)
    ensures SyncOk(m1.res, m1.R(), m1.W(), |m1.taken|, |m1.stream|)
  {
    hide HistoryOk, BasesOk, ContentOk;
  }

  lemma StreamGrows(c: Config, m: Memory, m1: Memory, data: seq<Byte>)
    requires MemoryOk(c, m) && |m1.res| == |m.res| + 1 == |m1.done| && m1.res[..|m.res|] == m.res && m1.done[..|m.res|] == m.done
    requires m1.buf == m.buf && m1.stream == m.stream + data && m1.R() == m.R()
    requires m1.done[|m.res|] == 0 && m1.res[|m.res|].off <= c.cap && m1.res[|m.res|].pos <= |m.stream|
    ensures ContentOk(m1.buf, m1.res, m1.done, m1.stream, m1.R())
  {
    forall i | 0 <= i < |m1.res| ensures CellsOk(m1.buf, m1.res[i], m1.done[i], m1.stream, m1.R()) {
      if i < |m.res| {
        assert m1.res[i] == m1.res[..|m.res|][i] && m1.done[i] == m1.done[..|m.res|][i];
        assert CellsOk(m.buf, m.res[i], m.done[i], m.stream, m.R());
      }
    }
  }

  // ----- the rest of the state

  lemma TurnStays(c: Config, m: Memory, p: nat, data: seq<Byte>, rp: nat, target: Word, resetting: bool)
    requires MemoryOk(c, m) && p < c.producers && Fits(c, m, |data|, rp, target) && TurnOk(c, m, resetting)
    requires resetting ==> m.wbase == m.rbase + c.cap
    ensures TurnOk(c, WonMemory(c, m, p, data, target), resetting)
  {
    hide HistoryOk, BasesOk, DoneOk, ContentOk, SyncOk;
    RingStays(c, m, |data|, rp, target);
  }

  /** A producer that holds no lock is not disturbed by the reservation of another. */
  lemma WonLeavesOthers(c: Config, m: Memory, p: nat, data: seq<Byte>, rp: nat, target: Word, p1: nat, q: Producer)
    requires MemoryOk(c, m) && p < c.producers && Fits(c, m, |data|, rp, target) && PcOk(c, m, p1, q)
    ensures PcOk(c, WonMemory(c, m, p, data, target), p1, q)
  {
    hide HistoryOk, BasesOk, DoneOk, ContentOk, SyncOk, HoldOk;
    WonKeepsRest(c, m, p, data, rp, target);
    if q.pc.Clear? || q.pc.SetWarp? || q.pc.Unlock? || q.pc.Fill? {
      HoldStays(m, WonMemory(c, m, p, data, target), p1, q.data, q.pc.r, data);
    }
  }

  lemma HoldStays(m: Memory, m1: Memory, p: nat, data: seq<Byte>, r: nat, more: seq<Byte>)
    requires |m.res| == |m.pushed| && |m1.res| == |m1.pushed| && HoldOk(m, p, data, r)
    requires m.res <= m1.res && m.pushed <= m1.pushed && m1.stream == m.stream + more
    ensures HoldOk(m1, p, data, r) && r < |m.res| && m1.res[r] == m.res[r]
  {
    assert m1.res[r] == m.res[r] && m1.pushed[r] == m.pushed[r];
    var a, b := m.res[r].pos, m.res[r].pos + m.res[r].size;
    assert m1.stream[a..b] == m.stream[a..b];
  }

  lemma WonOwn(c: Config, m: Memory, p: nat, q: Producer, target: Word)
    requires MemoryOk(c, m) && p < c.producers && PcOk(c, m, p, q) && q.pc.Decide? && m.wp == q.pc.snap.word
    requires m.lap < q.pc.snap.lap + c.counterMod && Target(c, m.wp, |q.data|, q.pc.rp) == Some(target)
    ensures Fits(c, m, |q.data|, q.pc.rp, target)
    ensures PcOk(c, WonMemory(c, m, p, q.data, target), p, q.(pc := Clear(|m.res|, target, m.wp.off)))
  {
    hide HistoryOk, BasesOk, DoneOk, ContentOk, SyncOk;
    NothingIntervened(c, m, q.pc.snap);
    assert Fits(c, m, |q.data|, q.pc.rp, target);
    RingStays(c, m, |q.data|, q.pc.rp, target);
  }

  lemma BoundariesGrow(c: Config, m: Memory, m1: Memory)
    requires |m1.res| == |m.res| + 1 && m1.res == m.res + [m1.res[|m.res|]] && m1.res[|m.res|].pre == m.W()
    ensures forall x :: Boundary(m.res, m.W(), x) ==> Boundary(m1.res, m1.W(), x)
  {
    forall x | Boundary(m.res, m.W(), x) ensures Boundary(m1.res, m1.W(), x) {
      BoundaryGrows(m.res, m.W(), m1.res[|m.res|], m1.W(), x);
    }
  }

  /** A new reservation lies behind all that the reader may look at. */
  lemma SafeStays(m: Memory, m1: Memory, x: nat)
    requires |m1.res| == |m.res| + 1 && m1.res == m.res + [m1.res[|m.res|]] && m1.res[|m.res|].pre == m.W() < m1.W()
    requires |m.res| == |m.pushed| && m1.pushed == m.pushed + [false] && SafeUpTo(m.res, m.pushed, m.W(), x)
    requires Boundary(m1.res, m1.W(), x)
    ensures SafeUpTo(m1.res, m1.pushed, m1.W(), x)
  {
    hide Boundary;
  }

  lemma ScanStays(c: Config, m: Memory, m1: Memory, k: ConsumerPc)
    requires |m1.res| == |m.res| + 1 && m1.res == m.res + [m1.res[|m.res|]] && m1.res[|m.res|].pre == m.W() < m1.W()
    requires |m.res| == |m.pushed| && m1.pushed == m.pushed + [false] && (k.Scan? || k.ScanPos?)
    requires m1.rp == m.rp && m1.rbase == m.rbase && ScanOk(c, m, k.wp, k.i, k.ready, k.snapPos)
    requires forall x :: Boundary(m.res, m.W(), x) ==> Boundary(m1.res, m1.W(), x)
    requires m.wbase == m.rbase + c.cap && !m.wp.locked ==> !m1.wp.locked && m1.wbase == m.wbase
    ensures ScanOk(c, m1, k.wp, k.i, k.ready, k.snapPos)
  {
    hide Boundary;
  }

  lemma ConsumerSeesWin(c: Config, m: Memory, k: ConsumerPc, p: nat, data: seq<Byte>, rp: nat, target: Word)
    requires MemoryOk(c, m) && p < c.producers && Fits(c, m, |data|, rp, target) && ConsumerOk(c, m, k)
    ensures ConsumerOk(c, WonMemory(c, m, p, data, target), k)
  {
    hide HistoryOk, BasesOk, DoneOk, ContentOk, SyncOk, Boundary, SafeUpTo, ScanOk;
    var m1 := WonMemory(c, m, p, data, target);
    WonKeepsRest(c, m, p, data, rp, target);
    RingStays(c, m, |data|, rp, target);
    BoundariesGrow(c, m, m1);
    if k.Scan? || k.ScanPos? {
      ScanStays(c, m, m1, k);
    } else if k.Copy? {
      BoundaryOf(m.res, m.pushed, m.W(), m.R() + k.avail);
      SafeStays(m, m1, m.R() + k.avail);
      StreamPart(m.stream, data, |m.taken|, |m.taken| + |k.got|);
    }
  }

  lemma BoundaryOf(res: seq<Res>, pushed: seq<bool>, w: nat, x: nat)
    requires |res| == |pushed| && SafeUpTo(res, pushed, w, x)
    ensures Boundary(res, w, x)
  {
  }

  lemma StreamPart(stream: seq<Byte>, more: seq<Byte>, a: nat, b: nat)
    requires a <= b <= |stream|
    ensures (stream + more)[a..b] == stream[a..b]
  {
  }

  lemma WinKeepsPending(res: seq<Res>, pushed: seq<bool>, ps: seq<Producer>, r: nat, q: Res, p: nat, pc: ProducerPc)
    requires |res| == |pushed| && PendingOk(res, pushed, ps, r) && p < |ps| && ps[p].pc.Decide?
    requires q.owner == p && q.pre >= r && Holds(pc, |res|)
    ensures PendingOk(res + [q], pushed + [false], ps[p := ps[p].(pc := pc)], r)
  {
  }

  lemma WonKeeps(c: Config, s: State, p: nat)
    requires Inv(c, s) && p < |s.ps| && s.ps[p].pc.Decide? && c.counterMod > 0 && TargetOf(c, s, p).Some?
    requires CasWins(s, p, false) && s.m.lap < s.ps[p].pc.snap.lap + c.counterMod
    ensures Inv(c, Won(c, s, p))
  {
    hide MemoryOk, ConsumerOk, PcOk, TurnOk, PendingOk, Fits;
    var q, target := s.ps[p], TargetOf(c, s, p).value;
    var pc := Clear(|s.m.res|, target, s.m.wp.off);
    var m1 := WonMemory(c, s.m, p, q.data, target);
    Lengths(c, s);
    WonOwn(c, s.m, p, q, target);
    WonKeepsMemory(c, s.m, p, q.data, q.pc.rp, target);
    WonKeepsRest(c, s.m, p, q.data, q.pc.rp, target);
    ResetIsAhead(c, s);
    TurnStays(c, s.m, p, q.data, q.pc.rp, target, s.consumer.Reset?);
    forall p1 | 0 <= p1 < |s.ps| && p1 != p ensures PcOk(c, m1, p1, s.ps[p1]) {
      WonLeavesOthers(c, s.m, p, q.data, q.pc.rp, target, p1, s.ps[p1]);
    }
    ConsumerSeesWin(c, s.m, s.consumer, p, q.data, q.pc.rp, target);
    ReaderIsBehind(c, s.m);
    WinKeepsPending(s.m.res, s.m.pushed, s.ps, s.m.R(), m1.res[|s.m.res|], p, pc);
    Assemble(c, s, m1, p, q.(pc := pc));
  }

  lemma ReaderIsBehind(c: Config, m: Memory)
    requires MemoryOk(c, m)
    ensures m.R() <= m.W() < m.R() + c.cap
  {
  }

  lemma ResetIsAhead(c: Config, s: State)
    requires Inv(c, s)
    ensures s.consumer.Reset? ==> s.m.wbase == s.m.rbase + c.cap
  {
  }
}
