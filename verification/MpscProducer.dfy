/** Every step of a producer, but for the one that wins a reservation, keeps the invariant. */
module MpscProducer {
  import opened Basics
  import opened MpscModel
  import opened MpscInvariant
  import opened MpscHistory

  lemma PcAt(c: Config, s: State, p: nat)
    requires Inv(c, s) && p < |s.ps|
    ensures c.Valid() && Shape(c, s.m) && PcOk(c, s.m, p, s.ps[p])
    ensures RingOk(c.cap, s.m.wbase, s.m.wp.off, s.m.rbase, s.m.rp)
  {
  }

  /** A step that changes only the producer's own fields, and lets go of no reservation. */
  lemma LocalKeeps(c: Config, s: State, p: nat, q: Producer)
    requires Inv(c, s) && p < |s.ps|
    requires PcOk(c, s.m, p, q)
    requires forall i :: Holds(s.ps[p].pc, i) ==> Holds(q.pc, i)
    requires Seen(s.ps[p]) ==> Seen(q)
    ensures Inv(c, s.(ps := s.ps[p := q]))
  {
    hide MemoryOk, TurnOk, PcOk, ConsumerOk;
  }

  lemma RegisterKeeps(c: Config, s: State, p: nat)
    requires Inv(c, s) && p < |s.ps|
    ensures s.ps[p].pc.Out? ==> Inv(c, SetPcReserve(s, p, Registering, Free))
    ensures s.ps[p].pc.Registering? ==> Inv(c, s.(ps := s.ps[p := s.ps[p].(pc := Out, flag := true)]))
    ensures s.ps[p].pc.Out? ==> Inv(c, s.(ps := s.ps[p := s.ps[p].(flag := false)]))
  {
    PcAt(c, s, p);
    hide Inv;
    if s.ps[p].pc.Out? {
      LocalKeeps(c, s, p, s.ps[p].(pc := Registering, reserve := Free));
      LocalKeeps(c, s, p, s.ps[p].(flag := false));
    } else if s.ps[p].pc.Registering? {
      LocalKeeps(c, s, p, s.ps[p].(pc := Out, flag := true));
    }
  }

  lemma BeginKeeps(c: Config, s: State, p: nat, data: seq<Byte>)
    requires Inv(c, s) && p < |s.ps| && s.ps[p].pc.Out? && s.ps[p].flag && 0 < |data| < c.offsetMod
    ensures Inv(c, s.(ps := s.ps[p := s.ps[p].(pc := LoadWp, data := data)]))
  {
    PcAt(c, s, p);
    hide Inv;
    LocalKeeps(c, s, p, s.ps[p].(pc := LoadWp, data := data));
  }

  lemma LoadWpKeeps(c: Config, s: State, p: nat)
    requires Inv(c, s) && p < |s.ps| && s.ps[p].pc.LoadWp? && !s.m.wp.locked
    ensures Inv(c, SetPc(s, p, StoreReserve(Snap(s.m.wp, s.m.lap, s.m.wbase))))
  {
    PcAt(c, s, p);
    hide Inv;
    LocalKeeps(c, s, p, s.ps[p].(pc := StoreReserve(Snap(s.m.wp, s.m.lap, s.m.wbase))));
  }

  lemma StoreReserveKeeps(c: Config, s: State, p: nat)
    requires Inv(c, s) && p < |s.ps| && s.ps[p].pc.StoreReserve?
    ensures Inv(c, SetPcReserve(s, p, LoadRp(s.ps[p].pc.snap), Claiming(s.ps[p].pc.snap.word.off)))
  {
    PcAt(c, s, p);
    hide Inv;
    LocalKeeps(c, s, p, s.ps[p].(pc := LoadRp(s.ps[p].pc.snap), reserve := Claiming(s.ps[p].pc.snap.word.off)));
  }

  lemma LoadRpKeeps(c: Config, s: State, p: nat)
    requires Inv(c, s) && p < |s.ps| && s.ps[p].pc.LoadRp?
    ensures Inv(c, SetPc(s, p, Decide(s.ps[p].pc.snap, s.m.rp, s.m.rbase)))
  {
    PcAt(c, s, p);
    hide Inv;
    LocalKeeps(c, s, p, s.ps[p].(pc := Decide(s.ps[p].pc.snap, s.m.rp, s.m.rbase)));
  }

  lemma GiveUpKeeps(c: Config, s: State, p: nat)
    requires Inv(c, s) && p < |s.ps| && s.ps[p].pc.Decide?
    ensures Inv(c, SetPcReserve(s, p, Out, Free)) && Inv(c, SetPc(s, p, LoadWp))
  {
    PcAt(c, s, p);
    hide Inv;
    LocalKeeps(c, s, p, s.ps[p].(pc := Out, reserve := Free));
    LocalKeeps(c, s, p, s.ps[p].(pc := LoadWp));
  }

  lemma ClearOwn(c: Config, m: Memory, p: nat, q: Producer)
    requires c.Valid() && |m.res| == |m.pushed| == |m.done| && PcOk(c, m, p, q) && q.pc.Clear?
    ensures q.reserve.Claiming?
    ensures PcOk(c, m, p, q.(pc := if q.pc.target.locked then SetWarp(q.pc.r, q.pc.target, q.pc.off)
                                   else Fill(q.pc.r, q.pc.off), reserve := Claimed(q.reserve.off)))
  {
    hide LockOk, ReserveAt, HoldOk;
  }

  lemma ClearKeeps(c: Config, s: State, p: nat)
    requires Inv(c, s) && p < |s.ps| && s.ps[p].pc.Clear? && !s.ps[p].reserve.Free?
    ensures Inv(c, Cleared(s, p))
  {
    hide MemoryOk, ConsumerOk, PcOk, TurnOk, PendingOk;
    Lengths(c, s);
    ClearOwn(c, s.m, p, s.ps[p]);
    LocalKeeps(c, s, p, Cleared(s, p).ps[p]);
  }

  // ----- steps that change memory

  /** The parts of the invariant, put together again after a step of producer `p`. */
  lemma Assemble(c: Config, s: State, m: Memory, p: nat, q: Producer)
    requires Inv(c, s) && p < |s.ps| && MemoryOk(c, m)
    requires PendingOk(m.res, m.pushed, s.ps[p := q], m.R()) && TurnOk(c, m, s.consumer.Reset?)
    requires PcOk(c, m, p, q)
    requires forall p1 :: 0 <= p1 < |s.ps| && p1 != p ==> PcOk(c, m, p1, s.ps[p1])
    requires ConsumerOk(c, m, s.consumer) && (Seen(s.ps[p]) ==> Seen(q))
    ensures Inv(c, s.(m := m, ps := s.ps[p := q]))
  {
    hide MemoryOk, TurnOk, PcOk, ConsumerOk, PendingOk;
  }

  /** The reservations that are not pushed stay in the same hands. */
  lemma PendingStays(res: seq<Res>, pushed: seq<bool>, ps: seq<Producer>, r: nat, p: nat, q: Producer)
    requires |res| == |pushed| && PendingOk(res, pushed, ps, r) && p < |ps|
    requires forall i :: Holds(ps[p].pc, i) ==> Holds(q.pc, i)
    ensures PendingOk(res, pushed, ps[p := q], r)
  {
  }

  // ----- the turn of the ring

  /** Changing the end mark or the lock bit leaves every producer that does not hold the
      lock as it was. */
  lemma TurnLeavesOthers(c: Config, m: Memory, warpEnd: nat, wp: Word, p: nat, q: Producer)
    requires c.Valid() && |m.res| == |m.pushed| == |m.done| && PcOk(c, m, p, q)
    requires wp.off == m.wp.off && !Locking(q.pc)
    ensures PcOk(c, m.(warpEnd := warpEnd, wp := wp), p, q)
  {
  }

  lemma MemoryTurns(c: Config, m: Memory, warpEnd: nat, locked: bool)
    requires MemoryOk(c, m)
    ensures MemoryOk(c, m.(warpEnd := warpEnd, wp := m.wp.(locked := locked)))
  {
    hide HistoryOk, BasesOk, DoneOk, ContentOk, SyncOk, RingOk;
  }

  /** While the ring is locked the consumer is not in its own part of the turn. */
  lemma ConsumerWaits(c: Config, m: Memory, k: ConsumerPc, warpEnd: nat, locked: bool)
    requires |m.res| == |m.pushed| && ConsumerOk(c, m, k) && m.wp.locked
    ensures ConsumerOk(c, m.(warpEnd := warpEnd, wp := m.wp.(locked := locked)), k) && !k.Reset?
  {
    hide Boundary;
  }

  lemma OthersDoNotLock(c: Config, s: State, p: nat, p1: nat)
    requires Inv(c, s) && p < |s.ps| && p1 < |s.ps| && p != p1 && Locking(s.ps[p].pc)
    ensures !Locking(s.ps[p1].pc)
  {
    PcAt(c, s, p);
    PcAt(c, s, p1);
  }

  lemma WarpSetOwn(c: Config, m: Memory, p: nat, q: Producer)
    requires MemoryOk(c, m) && PcOk(c, m, p, q) && q.pc.SetWarp? && TurnOk(c, m, false)
    ensures m.wp.locked
    ensures var m1 := m.(warpEnd := q.pc.off);
      PcOk(c, m1, p, q.(pc := Unlock(q.pc.r, q.pc.target, q.pc.off))) && TurnOk(c, m1, false)
  {
    hide HistoryOk, BasesOk, DoneOk, ContentOk, SyncOk;
  }

  lemma WarpSetKeeps(c: Config, s: State, p: nat)
    requires Inv(c, s) && p < |s.ps| && s.ps[p].pc.SetWarp?
    ensures Inv(c, WarpSet(s, p))
  {
    hide MemoryOk, ConsumerOk, PcOk, TurnOk, PendingOk;
    var m1, q := WarpSet(s, p).m, s.ps[p];
    LockedState(c, s, p);
    WarpSetOwn(c, s.m, p, q);
    forall p1 | 0 <= p1 < |s.ps| && p1 != p ensures PcOk(c, m1, p1, s.ps[p1]) {
      OthersDoNotLock(c, s, p, p1);
      TurnLeavesOthers(c, s.m, q.pc.off, s.m.wp, p1, s.ps[p1]);
    }
    MemoryTurns(c, s.m, q.pc.off, true);
    ConsumerWaits(c, s.m, s.consumer, q.pc.off, true);
    PendingStays(s.m.res, s.m.pushed, s.ps, s.m.R(), p, q.(pc := Unlock(q.pc.r, q.pc.target, q.pc.off)));
    Assemble(c, s, m1, p, q.(pc := Unlock(q.pc.r, q.pc.target, q.pc.off)));
  }

  lemma LockedState(c: Config, s: State, p: nat)
    requires Inv(c, s) && p < |s.ps| && (s.ps[p].pc.SetWarp? || s.ps[p].pc.Unlock?)
    ensures c.Valid() && |s.m.res| == |s.m.pushed| == |s.m.done| && s.m.wp.locked && !s.consumer.Reset?
    ensures Locking(s.ps[p].pc)
  {
    PcAt(c, s, p);
  }

  lemma UnlockedOwn(c: Config, m: Memory, p: nat, q: Producer)
    requires MemoryOk(c, m) && PcOk(c, m, p, q) && q.pc.Unlock? && TurnOk(c, m, false)
    ensures m.wp == q.pc.target
    ensures var m1 := m.(wp := q.pc.target.(locked := false));
      PcOk(c, m1, p, q.(pc := Fill(q.pc.r, 0))) && TurnOk(c, m1, false)
  {
    hide HistoryOk, BasesOk, DoneOk, ContentOk, SyncOk;
  }

  lemma UnlockedKeeps(c: Config, s: State, p: nat)
    requires Inv(c, s) && p < |s.ps| && s.ps[p].pc.Unlock?
    ensures Inv(c, Unlocked(s, p))
  {
    hide MemoryOk, ConsumerOk, PcOk, TurnOk, PendingOk;
    var m1, q := Unlocked(s, p).m, s.ps[p];
    LockedState(c, s, p);
    UnlockedOwn(c, s.m, p, q);
    forall p1 | 0 <= p1 < |s.ps| && p1 != p ensures PcOk(c, m1, p1, s.ps[p1]) {
      OthersDoNotLock(c, s, p, p1);
      TurnLeavesOthers(c, s.m, s.m.warpEnd, m1.wp, p1, s.ps[p1]);
    }
    MemoryTurns(c, s.m, s.m.warpEnd, false);
    ConsumerWaits(c, s.m, s.consumer, s.m.warpEnd, false);
    PendingStays(s.m.res, s.m.pushed, s.ps, s.m.R(), p, q.(pc := Fill(q.pc.r, 0)));
    Assemble(c, s, m1, p, q.(pc := Fill(q.pc.r, 0)));
  }

  // ----- writing

  lemma PushLeavesOthers(c: Config, m: Memory, r: nat, p: nat, q: Producer)
    requires c.Valid() && |m.res| == |m.pushed| == |m.done| && PcOk(c, m, p, q)
    requires r < |m.res| && m.res[r].owner != p
    ensures PcOk(c, m.(pushed := m.pushed[r := true]), p, q)
  {
  }

  lemma ConsumerSeesPush(c: Config, m: Memory, k: ConsumerPc, r: nat)
    requires |m.res| == |m.pushed| && ConsumerOk(c, m, k) && r < |m.res|
    ensures ConsumerOk(c, m.(pushed := m.pushed[r := true]), k)
  {
    hide Boundary;
  }

  lemma PushKeepsMemory(c: Config, m: Memory, p: nat, q: Producer, resetting: bool)
    requires MemoryOk(c, m) && PcOk(c, m, p, q) && q.pc.Fill? && TurnOk(c, m, resetting)
    requires q.pc.r < |m.done| && m.done[q.pc.r] == |q.data|
    ensures q.pc.r < |m.pushed| && m.res[q.pc.r].owner == p
    ensures var m1 := m.(pushed := m.pushed[q.pc.r := true]);
      MemoryOk(c, m1) && TurnOk(c, m1, resetting) && PcOk(c, m1, p, q.(pc := Out, reserve := Free))
  {
    hide HistoryOk, BasesOk, ContentOk, SyncOk, RingOk;
  }

  lemma PushKeepsPending(res: seq<Res>, pushed: seq<bool>, ps: seq<Producer>, w: nat, p: nat)
    requires |res| == |pushed| && PendingOk(res, pushed, ps, w) && p < |ps| && ps[p].pc.Fill? && ps[p].pc.r < |res|
    ensures PendingOk(res, pushed[ps[p].pc.r := true], ps[p := ps[p].(pc := Out, reserve := Free)], w)
  {
  }

  lemma PushedKeeps(c: Config, s: State, p: nat)
    requires Inv(c, s) && CanPush(s, p)
    ensures Inv(c, Pushed(s, p))
  {
    hide MemoryOk, ConsumerOk, PcOk, TurnOk, PendingOk;
    var m1, q, r := Pushed(s, p).m, s.ps[p], s.ps[p].pc.r;
    Lengths(c, s);
    PushKeepsMemory(c, s.m, p, q, s.consumer.Reset?);
    forall p1 | 0 <= p1 < |s.ps| && p1 != p ensures PcOk(c, m1, p1, s.ps[p1]) {
      PushLeavesOthers(c, s.m, r, p1, s.ps[p1]);
    }
    ConsumerSeesPush(c, s.m, s.consumer, r);
    PushKeepsPending(s.m.res, s.m.pushed, s.ps, s.m.R(), p);
    Assemble(c, s, m1, p, q.(pc := Out, reserve := Free));
  }

  lemma Lengths(c: Config, s: State)
    requires Inv(c, s)
    ensures c.Valid() && |s.m.res| == |s.m.pushed| == |s.m.done| && |s.m.buf| == c.cap
  {
  }

  /** Two cells of live reservations are the same only for the same byte. */
  lemma CellsApart(c: Config, m: Memory, i: nat, x: nat, j: nat, y: nat)
    requires MemoryOk(c, m) && i < |m.res| && j < |m.res| && i != j
    requires m.res[i].off <= x < m.res[i].off + m.res[i].size && m.res[i].base + x >= m.R()
    requires m.res[j].off <= y < m.res[j].off + m.res[j].size && m.res[j].base + y >= m.R()
    ensures x != y
  {
    hide ContentOk, SyncOk, DoneOk;
    assert ResOk(c.cap, c.producers, m.res[i]) && ResOk(c.cap, c.producers, m.res[j]);
    InOrder(c.cap, c.producers, m.res, m.W(), |m.stream|, i, j);
    InOrder(c.cap, c.producers, m.res, m.W(), |m.stream|, j, i);
  }

  /** Copying one more byte into a reservation disturbs no byte that is still to be read. */
  lemma CopyKeepsContent(c: Config, m: Memory, r: nat, v: Byte)
    requires MemoryOk(c, m) && r < |m.res| && m.done[r] < m.res[r].size && m.res[r].pre >= m.R()
    requires m.res[r].pos + m.done[r] < |m.stream| && v == m.stream[m.res[r].pos + m.done[r]]
    ensures m.res[r].off + m.done[r] < |m.buf|
    ensures ContentOk(m.buf[m.res[r].off + m.done[r] := v], m.res, m.done[r := m.done[r] + 1], m.stream, m.R())
  {
    var q, y := m.res[r], m.res[r].off + m.done[r];
    assert ResOk(c.cap, c.producers, q);
    forall i | 0 <= i < |m.res| ensures CellsOk(m.buf[y := v], m.res[i], m.done[r := m.done[r] + 1][i], m.stream, m.R()) {
      hide HistoryOk, BasesOk, SyncOk, RingOk;
      assert CellsOk(m.buf, m.res[i], m.done[i], m.stream, m.R());
      if i != r { OtherCells(c, m, i, r, y, v); }
    }
  }

  lemma OtherCells(c: Config, m: Memory, i: nat, r: nat, y: nat, v: Byte)
    requires MemoryOk(c, m) && i < |m.res| && r < |m.res| && i != r && y < |m.buf|
    requires m.res[r].off <= y < m.res[r].off + m.res[r].size && m.res[r].base + y >= m.R()
    ensures CellsOk(m.buf[y := v], m.res[i], m.done[i], m.stream, m.R())
  {
    hide HistoryOk, BasesOk, SyncOk, RingOk;
    var buf, q := m.buf[y := v], m.res[i];
    assert CellsOk(m.buf, q, m.done[i], m.stream, m.R());
    forall x | q.off <= x < q.off + m.done[i] && q.base + x >= m.R() ensures buf[x] == m.stream[q.pos + (x - q.off)] {
      CellsApart(c, m, i, x, r, y);
    }
  }

  lemma CopyKeepsMemory(c: Config, m: Memory, r: nat, v: Byte, resetting: bool)
    requires MemoryOk(c, m) && r < |m.res| && m.done[r] < m.res[r].size && !m.pushed[r] && m.res[r].pre >= m.R()
    requires m.res[r].pos + m.done[r] < |m.stream| && v == m.stream[m.res[r].pos + m.done[r]]
    requires TurnOk(c, m, resetting)
    ensures m.res[r].off + m.done[r] < |m.buf|
    ensures var m1 := m.(buf := m.buf[m.res[r].off + m.done[r] := v], done := m.done[r := m.done[r] + 1]);
      MemoryOk(c, m1) && TurnOk(c, m1, resetting)
  {
    CopyKeepsContent(c, m, r, v);
    CopyKeepsDone(m.res, m.done, m.pushed, r);
    hide ContentOk, DoneOk, MemoryOk;
    CopyAssembles(c, m, m.(buf := m.buf[m.res[r].off + m.done[r] := v], done := m.done[r := m.done[r] + 1]));
  }

  lemma CopyAssembles(c: Config, m: Memory, m1: Memory)
    requires MemoryOk(c, m) && m1 == m.(buf := m1.buf, done := m1.done)
    requires |m1.buf| == |m.buf| && |m1.done| == |m.done| == |m.res| == |m.pushed|
    requires DoneOk(m1.res, m1.done, m1.pushed) && ContentOk(m1.buf, m1.res, m1.done, m1.stream, m1.R())
    ensures MemoryOk(c, m1)
  {
    hide HistoryOk, BasesOk, SyncOk, RingOk, ContentOk, DoneOk;
  }

  lemma CopyKeepsDone(res: seq<Res>, done: seq<nat>, pushed: seq<bool>, r: nat)
    requires |res| == |done| == |pushed| && r < |res| && DoneOk(res, done, pushed) && done[r] < res[r].size && !pushed[r]
    ensures DoneOk(res, done[r := done[r] + 1], pushed)
  {
  }

  lemma CopyLeavesOthers(c: Config, m: Memory, m1: Memory, r: nat, p: nat, q: Producer)
    requires c.Valid() && |m.res| == |m.pushed| == |m.done| && PcOk(c, m, p, q)
    requires r < |m.res| && (m.res[r].owner != p || q.pc.Fill?) && |m1.done| == |m.done|
    requires m1 == m.(buf := m1.buf, done := m.done[r := m.done[r] + 1])
    ensures PcOk(c, m1, p, q)
  {
  }

  lemma ConsumerSeesCopy(c: Config, m: Memory, k: ConsumerPc, buf: seq<Byte>, done: seq<nat>)
    requires |m.res| == |m.pushed| && ConsumerOk(c, m, k)
    ensures ConsumerOk(c, m.(buf := buf, done := done), k)
  {
    hide Boundary;
  }

  /** The copy of a reservation is one piece: the second part of the split copy is never used. */
  lemma CopyTarget(c: Config, m: Memory, p: nat, q: Producer, k: nat)
    requires MemoryOk(c, m) && PcOk(c, m, p, q) && q.pc.Fill? && k < |q.data|
    ensures var r := q.pc.r;
      && r < |m.res| && !m.pushed[r] && |q.data| == m.res[r].size && m.res[r].owner == p
      && m.res[r].pos + k < |m.stream| && q.data[k] == m.stream[m.res[r].pos + k]
      && q.pc.off + |q.data| <= c.cap && Slot(c, q.pc.off, |q.data|, k) == m.res[r].off + k
  {
    hide BasesOk, DoneOk, ContentOk, SyncOk, RingOk;
    assert ResOk(c.cap, c.producers, m.res[q.pc.r]);
  }

  lemma NotReached(c: Config, s: State, i: nat)
    requires Inv(c, s) && i < |s.m.res| && !s.m.pushed[i]
    ensures s.m.res[i].pre >= s.m.R()
  {
  }

  lemma ByteCopiedKeeps(c: Config, s: State, p: nat)
    requires Inv(c, s) && CanCopyByte(c, s, p)
    ensures Inv(c, ByteCopied(c, s, p))
  {
    hide MemoryOk, ConsumerOk, PcOk, TurnOk, PendingOk;
    var m1, q, r := ByteCopied(c, s, p).m, s.ps[p], s.ps[p].pc.r;
    Lengths(c, s);
    CopyTarget(c, s.m, p, q, s.m.done[r]);
    NotReached(c, s, r);
    CopyKeepsMemory(c, s.m, r, q.data[s.m.done[r]], s.consumer.Reset?);
    forall p1 | 0 <= p1 < |s.ps| ensures PcOk(c, m1, p1, s.ps[p1]) {
      CopyLeavesOthers(c, s.m, m1, r, p1, s.ps[p1]);
    }
    ConsumerSeesCopy(c, s.m, s.consumer, m1.buf, m1.done);
    assert s.ps[p := q] == s.ps;
    Assemble(c, s, m1, p, q);
  }
}
