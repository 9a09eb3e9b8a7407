/** Every step of the consumer keeps the invariant. */
module MpscConsumer {
  import opened Basics
  import opened MpscModel
  import opened MpscInvariant
  import opened MpscHistory
  import opened MpscProducer

  // ----- scanning

  /** A step that changes only the consumer's own fields. */
  lemma ConsumerLocal(c: Config, s: State, k: ConsumerPc)
    requires Inv(c, s) && ConsumerOk(c, s.m, k) && !k.Reset? && !s.consumer.Reset?
    requires k.ScanPos? ==> k.i < |s.ps| && Seen(s.ps[k.i])
    ensures Inv(c, s.(consumer := k))
  {
    hide MemoryOk, PcOk, PendingOk, ConsumerOk;
  }

  lemma LoadedOk(c: Config, m: Memory, retried: bool, want: nat)
    requires MemoryOk(c, m) && !m.wp.locked && m.rp != m.wp.off && (retried ==> m.rp == 0)
    ensures ConsumerOk(c, m, Scan(want, retried, m.wp.off, 0, c.maxPos, m.W()))
  {
    hide HistoryOk, BasesOk, DoneOk, ContentOk, SyncOk;
  }

  lemma LoadedKeeps(c: Config, s: State)
    requires Inv(c, s) && s.consumer.CLoadWp? && !s.m.wp.locked
    ensures Inv(c, Loaded(c, s))
  {
    if s.m.rp != s.m.wp.off {
      LoadedOk(c, s.m, s.consumer.retried, s.consumer.want);
    }
    ConsumerLocal(c, s, Loaded(c, s).consumer);
  }

  /** A producer that is not registered has nothing pending. */
  lemma NoFlagNothingPending(c: Config, s: State, i: nat, j: nat)
    requires Inv(c, s) && i < |s.ps| && !s.ps[i].flag && j < |s.m.res| && s.m.res[j].owner == i
    ensures s.m.pushed[j]
  {
    PcAt(c, s, i);
  }

  lemma FlagScannedKeeps(c: Config, s: State)
    requires Inv(c, s) && s.consumer.Scan? && s.consumer.i < |s.ps|
    ensures Inv(c, FlagScanned(s))
  {
    var k := s.consumer;
    PcAt(c, s, k.i);
    forall j | 0 <= j < |s.m.res| && s.m.res[j].owner == k.i && !s.ps[k.i].flag ensures s.m.pushed[j] {
      NoFlagNothingPending(c, s, k.i, j);
    }
    hide MemoryOk;
    ConsumerLocal(c, s, FlagScanned(s).consumer);
  }

  /** What the scan makes of one `reserve_pos`: it is below every reservation that the
      producer still has pending in the reader's lap, and a boundary if it counts. */
  lemma ReserveFacts(c: Config, m: Memory, p: nat, q: Producer)
    requires MemoryOk(c, m) && PcOk(c, m, p, q) && Seen(q) && q.reserve.Claimed?
    requires q.pc.r < |m.res| ==> m.res[q.pc.r].pre >= m.R()
    ensures (q.pc.SetWarp? || q.pc.Unlock? || q.pc.Fill?)
    ensures q.pc.r < |m.res| && m.res[q.pc.r].owner == p
    ensures q.reserve.off >= m.rp ==> q.reserve.off < c.cap && m.res[q.pc.r].pre == m.rbase + q.reserve.off
    ensures m.res[q.pc.r].pre < m.rbase + c.cap ==> q.reserve.off >= m.rp && m.res[q.pc.r].pre == m.rbase + q.reserve.off
  {
    hide DoneOk, ContentOk, SyncOk;
    var r := q.pc.r;
    assert ResOk(c.cap, c.producers, m.res[r]);
    assert m.res[r].End() <= m.W() < m.R() + c.cap;
  }

  /** The scan step on the memory: `k.i` is the producer scanned. */
  lemma ReserveScannedOk(c: Config, m: Memory, k: ConsumerPc, q: Producer, ready: nat)
    requires MemoryOk(c, m) && k.ScanPos? && ConsumerOk(c, m, k) && PcOk(c, m, k.i, q) && Seen(q) && !q.reserve.Claiming?
    requires PendingKnown(m, k.i, q)
    requires var v := match q.reserve { case Claimed(off) => off case _ => c.maxPos };
      ready == if v >= m.rp && v < k.ready then v else k.ready
    ensures ConsumerOk(c, m, Scan(k.want, k.retried, k.wp, k.i + 1, ready, k.snapPos))
  {
    var v := match q.reserve { case Claimed(off) => off case _ => c.maxPos };
    if q.reserve.Claimed? {
      HeldValue(c, m, k.i, q, v);
    } else {
      FreeValue(c, m, k.i, q);
    }
    hide MemoryOk, PcOk, Seen, ScannedValue, PendingKnown, Boundary;
    ScanGoesOn(c, m, k, v, ready);
  }

  /** What one `reserve_pos` tells: a value that counts is a boundary of the reader's lap, and
      whatever producer `p` has pending there is at or behind the value. */
  ghost predicate ScannedValue(c: Config, m: Memory, p: nat, v: nat)
    requires |m.res| == |m.pushed|
  {
    && (v >= m.rp ==> v == c.maxPos || (v < c.cap && Boundary(m.res, m.W(), m.rbase + v)))
    && forall j :: 0 <= j < |m.res| && !m.pushed[j] && m.res[j].owner == p && m.res[j].pre < m.rbase + c.cap ==>
         m.rp <= v && m.rbase + v <= m.res[j].pre
  }

  lemma HeldValue(c: Config, m: Memory, p: nat, q: Producer, v: nat)
    requires MemoryOk(c, m) && PcOk(c, m, p, q) && Seen(q) && q.reserve.Claimed? && v == q.reserve.off
    requires PendingKnown(m, p, q)
    ensures ScannedValue(c, m, p, v)
  {
    ReserveHeld(c, m, p, q);
    ReserveFacts(c, m, p, q);
    assert Boundary(m.res, m.W(), m.res[q.pc.r].pre);
    hide MemoryOk, PcOk, Boundary;
  }

  lemma FreeValue(c: Config, m: Memory, p: nat, q: Producer)
    requires MemoryOk(c, m) && PcOk(c, m, p, q) && q.reserve.Free? && PendingKnown(m, p, q)
    ensures ScannedValue(c, m, p, c.maxPos)
  {
    ReserveFree(c, m, p, q);
    hide MemoryOk, PcOk, Boundary;
  }

  lemma ScanGoesOn(c: Config, m: Memory, k: ConsumerPc, v: nat, ready: nat)
    requires |m.res| == |m.pushed| && k.ScanPos? && ConsumerOk(c, m, k) && ScannedValue(c, m, k.i, v)
    requires ready == if v >= m.rp && v < k.ready then v else k.ready
    ensures ConsumerOk(c, m, Scan(k.want, k.retried, k.wp, k.i + 1, ready, k.snapPos))
  {
    hide Boundary;
  }

  /** What is not pushed is not reached, and `p` holds what it owns of it. */
  ghost predicate PendingKnown(m: Memory, p: nat, q: Producer)
    requires |m.res| == |m.pushed|
  {
    forall j :: 0 <= j < |m.res| && !m.pushed[j] ==> m.res[j].pre >= m.R() && (m.res[j].owner == p ==> Holds(q.pc, j))
  }

  lemma ReserveHeld(c: Config, m: Memory, p: nat, q: Producer)
    requires c.Valid() && |m.res| == |m.pushed| == |m.done| && PcOk(c, m, p, q) && Seen(q) && q.reserve.Claimed?
    requires PendingKnown(m, p, q)
    ensures (q.pc.SetWarp? || q.pc.Unlock? || q.pc.Fill?) && q.pc.r < |m.res| && m.res[q.pc.r].pre >= m.R()
  {
  }

  lemma ReserveFree(c: Config, m: Memory, p: nat, q: Producer)
    requires c.Valid() && |m.res| == |m.pushed| == |m.done| && PcOk(c, m, p, q) && q.reserve.Free?
    ensures forall j :: !Holds(q.pc, j)
  {
  }

  lemma PendingFacts(c: Config, s: State, i: nat)
    requires Inv(c, s) && i < |s.ps|
    ensures |s.m.res| == |s.m.pushed|
    ensures PendingKnown(s.m, i, s.ps[i])
  {
  }

  lemma ReserveScannedKeeps(c: Config, s: State)
    requires Inv(c, s) && s.consumer.ScanPos? && s.consumer.i < |s.ps| && !s.ps[s.consumer.i].reserve.Claiming?
    ensures Inv(c, ReserveScanned(c, s))
  {
    hide MemoryOk, ConsumerOk, PcOk, TurnOk, PendingOk;
    var k := s.consumer;
    PendingFacts(c, s, k.i);
    ReserveScannedOk(c, s.m, k, s.ps[k.i], ReserveScanned(c, s).consumer.ready);
    ConsumerLocal(c, s, ReserveScanned(c, s).consumer);
  }

  // ----- deciding

  /** The consumer knows where the data of its lap ends. */
  lemma WarpEndIsTurn(c: Config, m: Memory)
    requires MemoryOk(c, m) && TurnOk(c, m, false) && m.wbase == m.rbase + c.cap && !m.wp.locked
    ensures m.rbase + (if m.warpEnd == c.maxPos then c.cap else m.warpEnd) == m.turn
    ensures m.R() <= m.turn <= m.wbase && Boundary(m.res, m.W(), m.turn)
    ensures m.turn < m.wbase ==> m.warpEnd != c.maxPos
  {
    if m.turn < m.wbase {
      assert m.res[m.turnRes].pre == m.turn;
    } else {
      EndIsBoundary(c.cap, c.producers, m.res, m.W(), |m.stream|, m.turnRes);
    }
  }

  /** All that is pending lies at or behind the limit that the scan has found; `we` is
      where the data of the reader's lap ends. */
  lemma LimitFacts(c: Config, m: Memory, k: ConsumerPc, we: nat, limit: nat)
    requires c.Valid() && |m.res| == |m.pushed| && m.rp < c.cap
    requires k.Scan? && ScanOk(c, m, k.wp, k.i, k.ready, k.snapPos)
    requires k.wp < m.rp ==> m.rp <= we <= c.cap && m.rbase + we <= m.wbase && Boundary(m.res, m.W(), m.rbase + we)
    requires limit == if k.wp < m.rp then Min(k.ready, we) else Min(k.ready, k.wp)
    requires PendingBeyond(c, m, k)
    ensures m.rp <= limit <= c.cap && SafeUpTo(m.res, m.pushed, m.W(), m.rbase + limit)
    ensures m.rbase + limit <= k.snapPos
  {
    hide Boundary;
  }

  ghost predicate PendingBeyond(c: Config, m: Memory, k: ConsumerPc)
    requires |m.res| == |m.pushed| && k.Scan?
  {
    forall j :: 0 <= j < |m.res| && !m.pushed[j] ==>
      m.rbase + k.ready <= m.res[j].pre || k.snapPos <= m.res[j].pre || m.rbase + c.cap <= m.res[j].pre
  }

  /** After the scan of all producers, whatever is pending lies beyond what was found. */
  lemma ScanComplete(c: Config, s: State)
    requires Inv(c, s) && s.consumer.Scan? && s.consumer.i == |s.ps|
    ensures |s.m.res| == |s.m.pushed| && PendingBeyond(c, s.m, s.consumer)
  {
    hide MemoryOk, TurnOk, PcOk, Boundary, Holds;
    Lengths(c, s);
  }

  lemma ScanHolds(c: Config, s: State)
    requires Inv(c, s) && s.consumer.Scan?
    ensures MemoryOk(c, s.m) && TurnOk(c, s.m, false) && |s.m.res| == |s.m.pushed|
    ensures ScanOk(c, s.m, s.consumer.wp, s.consumer.i, s.consumer.ready, s.consumer.snapPos)
    ensures |s.m.taken| <= |s.m.stream|
  {
  }

  lemma LimitOfScan(c: Config, m: Memory, k: ConsumerPc, we: nat, limit: nat)
    requires MemoryOk(c, m) && TurnOk(c, m, false) && k.Scan? && |m.res| == |m.pushed|
    requires ScanOk(c, m, k.wp, k.i, k.ready, k.snapPos) && PendingBeyond(c, m, k)
    requires we == if m.warpEnd == c.maxPos then c.cap else m.warpEnd
    requires limit == if k.wp < m.rp then Min(k.ready, we) else Min(k.ready, k.wp)
    ensures m.rp <= limit <= c.cap && SafeUpTo(m.res, m.pushed, m.W(), m.rbase + limit)
    ensures m.rbase + limit <= k.snapPos
  {
    hide HistoryOk, BasesOk, DoneOk, ContentOk, SyncOk, PendingBeyond, SafeUpTo, Boundary, TurnOk, RingOk;
    if k.wp < m.rp {
      hide MemoryOk;
      TurnedFacts(c, m, k);
    }
    LimitFacts(c, m, k, we, limit);
  }

  lemma TurnedFacts(c: Config, m: Memory, k: ConsumerPc)
    requires MemoryOk(c, m) && TurnOk(c, m, false) && k.Scan? && |m.res| == |m.pushed|
    requires ScanOk(c, m, k.wp, k.i, k.ready, k.snapPos) && k.wp < m.rp
    ensures var we := if m.warpEnd == c.maxPos then c.cap else m.warpEnd;
      c.Valid() && m.rp < c.cap && m.rp <= we <= c.cap && m.rbase + we <= m.wbase && Boundary(m.res, m.W(), m.rbase + we)
  {
    WarpEndIsTurn(c, m);
    hide HistoryOk, BasesOk, DoneOk, ContentOk, SyncOk, Boundary;
  }

  lemma LimitIsSafe(c: Config, s: State)
    requires Inv(c, s) && s.consumer.Scan? && s.consumer.i == |s.ps|
    ensures s.m.rp <= Limit(c, s) <= c.cap && |s.m.res| == |s.m.pushed|
    ensures SafeUpTo(s.m.res, s.m.pushed, s.m.W(), s.m.rbase + Limit(c, s))
    ensures s.m.rbase + Limit(c, s) <= s.consumer.snapPos
  {
    hide Inv, MemoryOk, TurnOk, ScanOk, PendingBeyond, SafeUpTo;
    ScanComplete(c, s);
    ScanHolds(c, s);
    LimitOfScan(c, s.m, s.consumer, WarpEnd(c, s), Limit(c, s));
  }

  lemma CopyDecided(c: Config, m: Memory, want: nat, limit: nat)
    requires |m.res| == |m.pushed| && |m.taken| <= |m.stream|
    requires m.rp < limit <= c.cap && SafeUpTo(m.res, m.pushed, m.W(), m.rbase + limit)
    ensures ConsumerOk(c, m, Copy(want, limit - m.rp, if limit - m.rp < want then 0 else want, []))
  {
    hide SafeUpTo;
  }

  /** A scan that found nobody at work clears the reader's lap. */
  lemma LapIsPushed(c: Config, m: Memory, k: ConsumerPc)
    requires c.Valid() && |m.res| == |m.pushed| && k.Scan? && ScanOk(c, m, k.wp, k.i, k.ready, k.snapPos)
    requires PendingBeyond(c, m, k) && k.wp < m.rp && k.ready == c.maxPos
    ensures !m.wp.locked && m.wbase == m.rbase + c.cap
    ensures forall j :: 0 <= j < |m.res| && m.res[j].pre < m.wbase ==> m.pushed[j]
  {
    hide Boundary;
  }

  lemma WarpEndKeepsMemory(c: Config, m: Memory, warpEnd: nat)
    requires MemoryOk(c, m)
    ensures c.Valid() && MemoryOk(c, m.(warpEnd := warpEnd)) && m.rp < c.cap && |m.res| == |m.pushed|
  {
    hide HistoryOk, BasesOk, DoneOk, ContentOk, SyncOk, RingOk;
  }

  /** The reader stands at the end of its lap, and nothing of that lap is pending. */
  lemma ResetDecided(c: Config, m: Memory, k: ConsumerPc)
    requires MemoryOk(c, m) && TurnOk(c, m, false) && k.Scan? && ScanOk(c, m, k.wp, k.i, k.ready, k.snapPos) && PendingBeyond(c, m, k)
    requires k.wp < m.rp && k.ready == c.maxPos && m.rp == if m.warpEnd == c.maxPos then c.cap else m.warpEnd
    ensures var m1 := m.(warpEnd := c.maxPos);
      MemoryOk(c, m1) && TurnOk(c, m1, true) && ConsumerOk(c, m1, Reset(k.want)) && !m.wp.locked && m.wbase == m.rbase + c.cap
  {
    hide MemoryOk, ScanOk, PendingBeyond, Boundary, TurnOk;
    WarpEndKeepsMemory(c, m, c.maxPos);
    LapIsPushed(c, m, k);
    TurnReached(c, m);
  }

  /** A reader at the end of its lap stands at the turn, short of the next lap. */
  lemma TurnReached(c: Config, m: Memory)
    requires MemoryOk(c, m) && TurnOk(c, m, false) && m.wbase == m.rbase + c.cap && !m.wp.locked
    requires m.rp == (if m.warpEnd == c.maxPos then c.cap else m.warpEnd) && m.rp < c.cap
    ensures m.R() == m.turn < m.wbase && TurnOk(c, m.(warpEnd := c.maxPos), true)
  {
    hide MemoryOk, Boundary;
    WarpEndIsTurn(c, m);
  }

  lemma DecidedKeeps(c: Config, s: State)
    requires Inv(c, s) && s.consumer.Scan? && s.consumer.i == |s.ps|
    ensures s.m.rp <= Limit(c, s) && Inv(c, Decided(c, s))
  {
    hide Inv, MemoryOk, TurnOk, SafeUpTo, ScanOk, PendingBeyond;
    LimitIsSafe(c, s);
    ScanComplete(c, s);
    ScanHolds(c, s);
    var k, m, s1 := s.consumer, s.m, Decided(c, s);
    if s1.consumer.Reset? {
      hide ConsumerOk;
      ResetDecided(c, m, k);
      ResetAssembles(c, s, k.want);
    } else {
      if s1.consumer.Copy? {
        CopyDecided(c, m, k.want, Limit(c, s));
      }
      ConsumerLocal(c, s, s1.consumer);
    }
  }

  lemma ResetAssembles(c: Config, s: State, want: nat)
    requires Inv(c, s) && !s.m.wp.locked
    requires var m1 := s.m.(warpEnd := c.maxPos); MemoryOk(c, m1) && TurnOk(c, m1, true) && ConsumerOk(c, m1, Reset(want))
    ensures Inv(c, s.(m := s.m.(warpEnd := c.maxPos), consumer := Reset(want)))
  {
    var m1 := s.m.(warpEnd := c.maxPos);
    forall p | 0 <= p < |s.ps| ensures PcOk(c, m1, p, s.ps[p]) {
      PcAt(c, s, p);
      TurnLeavesOthers(c, s.m, c.maxPos, s.m.wp, p, s.ps[p]);
    }
    hide MemoryOk, TurnOk, ConsumerOk, PcOk;
  }

  // ----- the consumer's part of the turn

  /** Moving on over the gap to the next lap skips no byte of the stream. */
  lemma GapIsEmpty(c: Config, m: Memory)
    requires MemoryOk(c, m) && TurnOk(c, m, true) && m.wbase == m.rbase + c.cap && m.R() == m.turn < m.wbase
    ensures SyncOk(m.res, m.wbase, m.W(), |m.taken|, |m.stream|)
  {
    hide BasesOk, DoneOk, ContentOk;
    var t := m.turnRes;
    assert Follows(m.res, t);
    assert ResOk(c.cap, c.producers, m.res[t]);
    forall i | 0 <= i < |m.res|
      ensures m.res[i].End() <= m.wbase ==> m.res[i].pos + m.res[i].size <= |m.taken|
      ensures m.wbase <= m.res[i].pre ==> |m.taken| <= m.res[i].pos
      ensures m.res[i].pre < m.wbase < m.res[i].End() ==> m.res[i].Start() <= m.wbase && |m.taken| == m.res[i].pos + (m.wbase - m.res[i].Start())
    {
      assert ResOk(c.cap, c.producers, m.res[i]);
      InOrder(c.cap, c.producers, m.res, m.W(), |m.stream|, i, t);
      InOrder(c.cap, c.producers, m.res, m.W(), |m.stream|, t, i);
    }
  }

  lemma WasResetMemory(c: Config, m: Memory, want: nat)
    requires MemoryOk(c, m) && TurnOk(c, m, true) && ConsumerOk(c, m, Reset(want))
    ensures var m1 := m.(rp := 0, rbase := m.rbase + c.cap);
      MemoryOk(c, m1) && TurnOk(c, m1, false) && ConsumerOk(c, m1, CLoadWp(want, true)) && m1.R() == m.wbase
  {
    GapIsEmpty(c, m);
    ReadLeavesCells(m.buf, m.res, m.done, m.stream, m.R(), m.wbase);
    hide HistoryOk, DoneOk, ContentOk, SyncOk, Boundary;
  }

  lemma ReadLeavesCells(buf: seq<Byte>, res: seq<Res>, done: seq<nat>, stream: seq<Byte>, r: nat, r': nat)
    requires |res| == |done| && ContentOk(buf, res, done, stream, r) && r <= r'
    ensures ContentOk(buf, res, done, stream, r')
  {
    forall i | 0 <= i < |res| ensures CellsOk(buf, res[i], done[i], stream, r') {
      assert CellsOk(buf, res[i], done[i], stream, r);
    }
  }

  /** Producers do not notice that the reader has moved on, while none holds the lock or
      the reader stays in its lap. */
  lemma ReadLeavesProducers(c: Config, m: Memory, m1: Memory, p: nat, q: Producer)
    requires c.Valid() && |m.res| == |m.pushed| == |m.done| && PcOk(c, m, p, q)
    requires m1 == m.(rp := m1.rp, rbase := m1.rbase, taken := m1.taken) && m.R() <= m1.R()
    requires m1.rbase == m.rbase || !m.wp.locked
    ensures PcOk(c, m1, p, q)
  {
  }

  /** The parts of the invariant, put together again after a step of the consumer. */
  lemma AssembleRead(c: Config, s: State, m1: Memory, k: ConsumerPc)
    requires Inv(c, s) && MemoryOk(c, m1) && TurnOk(c, m1, false) && ConsumerOk(c, m1, k) && !k.Reset? && !k.ScanPos?
    requires m1 == s.m.(rp := m1.rp, rbase := m1.rbase, taken := m1.taken) && s.m.R() <= m1.R()
    requires m1.rbase == s.m.rbase || !s.m.wp.locked
    requires |s.m.res| == |s.m.pushed| && forall j :: 0 <= j < |s.m.res| && !s.m.pushed[j] ==> s.m.res[j].pre >= m1.R()
    ensures Inv(c, s.(m := m1, consumer := k))
  {
    forall p | 0 <= p < |s.ps| ensures PcOk(c, m1, p, s.ps[p]) {
      PcAt(c, s, p);
      ReadLeavesProducers(c, s.m, m1, p, s.ps[p]);
    }
    hide MemoryOk, TurnOk, ConsumerOk, PcOk;
  }

  lemma WasResetKeeps(c: Config, s: State)
    requires Inv(c, s) && s.consumer.Reset?
    ensures Inv(c, WasReset(c, s))
  {
    ResetFacts(c, s);
    hide Inv, MemoryOk, TurnOk, ConsumerOk;
    var m1 := WasReset(c, s).m;
    WasResetMemory(c, s.m, s.consumer.want);
    AssembleRead(c, s, m1, CLoadWp(s.consumer.want, true));
  }

  lemma ResetFacts(c: Config, s: State)
    requires Inv(c, s) && s.consumer.Reset?
    ensures MemoryOk(c, s.m) && TurnOk(c, s.m, true) && ConsumerOk(c, s.m, s.consumer)
    ensures |s.m.res| == |s.m.pushed| && !s.m.wp.locked && s.m.R() <= s.m.wbase
    ensures forall j :: 0 <= j < |s.m.res| && !s.m.pushed[j] ==> s.m.res[j].pre >= s.m.wbase
  {
  }

  // ----- reading

  lemma CopyHolds(c: Config, s: State)
    requires Inv(c, s) && s.consumer.Copy?
    ensures MemoryOk(c, s.m) && TurnOk(c, s.m, false) && ConsumerOk(c, s.m, s.consumer) && |s.m.res| == |s.m.pushed|
  {
  }

  /** The next byte of the buffer is the next byte of the stream; it comes from one piece of
      the buffer: the second part of the split copy is never used. */
  lemma NextByte(c: Config, m: Memory, k: ConsumerPc)
    requires MemoryOk(c, m) && k.Copy? && ConsumerOk(c, m, k) && |k.got| < k.n
    ensures Slot(c, m.rp, k.n, |k.got|) == m.rp + |k.got| < |m.buf|
    ensures |m.taken| + |k.got| < |m.stream| && m.buf[m.rp + |k.got|] == m.stream[|m.taken| + |k.got|]
  {
    hide BasesOk, SyncOk, RingOk, Boundary;
    var x, a := m.R() + k.avail, m.R() + |k.got|;
    var i := Locate(c.cap, c.producers, m.res, m.W(), |m.stream|, a, |m.res|);
    InStep(c.cap, c.producers, m.res, m.W(), |m.stream|, m.rbase, m.rp, |m.taken|, x, i);
    assert m.pushed[i] && m.done[i] == m.res[i].size;
    assert CellsOk(m.buf, m.res[i], m.done[i], m.stream, m.R());
    assert ResOk(c.cap, c.producers, m.res[i]);
  }

  lemma ByteReadOk(c: Config, m: Memory, k: ConsumerPc, v: Byte)
    requires |m.res| == |m.pushed| && k.Copy? && ConsumerOk(c, m, k) && |k.got| < k.n
    requires |m.taken| + |k.got| < |m.stream| && v == m.stream[|m.taken| + |k.got|]
    ensures ConsumerOk(c, m, Copy(k.want, k.avail, k.n, k.got + [v]))
  {
    hide SafeUpTo;
    var t := |m.taken|;
    assert m.stream[t..t + |k.got| + 1] == m.stream[t..t + |k.got|] + [m.stream[t + |k.got|]];
  }

  lemma ByteReadKeeps(c: Config, s: State)
    requires Inv(c, s) && CanReadByte(c, s)
    ensures Inv(c, ByteRead(c, s))
  {
    hide Inv, MemoryOk, TurnOk, ConsumerOk;
    CopyHolds(c, s);
    var k, m := s.consumer, s.m;
    NextByte(c, m, k);
    ByteReadOk(c, m, k, m.buf[m.rp + |k.got|]);
    ConsumerLocal(c, s, ByteRead(c, s).consumer);
  }

  /** In the lap before the writers', no safe limit lies beyond the turn. */
  lemma TurnLimits(c: Config, m: Memory, x: nat)
    requires MemoryOk(c, m) && TurnOk(c, m, false) && m.wbase == m.rbase + c.cap
    requires Boundary(m.res, m.W(), x) && x <= m.rbase + c.cap
    ensures x <= m.turn
  {
    assert ResOk(c.cap, c.producers, m.res[m.turnRes]);
    if m.turn < x {
      BoundaryAfter(c.cap, c.producers, m.res, m.W(), |m.stream|, x, m.turnRes);
    }
  }

  lemma ReleasedRing(c: Config, m: Memory, n: nat, x: nat, taken: seq<Byte>)
    requires MemoryOk(c, m) && TurnOk(c, m, false) && Boundary(m.res, m.W(), x) && x <= m.W()
    requires m.R() + n <= x <= m.rbase + c.cap
    ensures var end := m.rp + n;
      var rp, rbase := if end == c.cap then 0 else end, if end == c.cap then m.rbase + c.cap else m.rbase;
      && rp < c.cap && rbase + rp == m.R() + n
      && RingOk(c.cap, m.wbase, m.wp.off, rbase, rp) && BasesOk(c.cap, m.res, rbase)
      && TurnOk(c, m.(rp := rp, rbase := rbase, taken := taken), false) && (rbase == m.rbase || !m.wp.locked)
  {
    if m.wbase == m.rbase + c.cap { TurnLimits(c, m, x); }
    hide HistoryOk, DoneOk, ContentOk, SyncOk, Boundary;
  }

  lemma ReleasedTaken(c: Config, m: Memory, k: ConsumerPc, x: nat)
    requires MemoryOk(c, m) && k.Copy? && ConsumerOk(c, m, k) && |k.got| == k.n && x == m.R() + k.avail
    ensures SyncOk(m.res, m.R() + k.n, m.W(), |m.taken + k.got|, |m.stream|)
    ensures |m.taken + k.got| <= |m.stream| && m.taken + k.got == m.stream[..|m.taken + k.got|]
    ensures ContentOk(m.buf, m.res, m.done, m.stream, m.R() + k.n)
    ensures Boundary(m.res, m.W(), x) && m.R() + k.n <= x <= m.W() && x <= m.rbase + c.cap
  {
    hide DoneOk, RingOk, HistoryOk, BasesOk, SyncOk, ContentOk;
    ReadOn(c.cap, c.producers, m.res, m.W(), |m.stream|, m.rbase, m.rp, |m.taken|, x, k.n);
    ReadLeavesCells(m.buf, m.res, m.done, m.stream, m.R(), m.R() + k.n);
    hide Boundary;
    PrefixGrows(m.stream, m.taken, k.got);
  }

  lemma PrefixGrows(stream: seq<Byte>, taken: seq<Byte>, got: seq<Byte>)
    requires |taken| + |got| <= |stream| && taken == stream[..|taken|] && got == stream[|taken|..|taken| + |got|]
    ensures taken + got == stream[..|taken + got|]
  {
  }

  lemma ReleasedMemory(c: Config, m: Memory, k: ConsumerPc)
    requires MemoryOk(c, m) && TurnOk(c, m, false) && k.Copy? && ConsumerOk(c, m, k) && |k.got| == k.n
    ensures var end := m.rp + k.n;
      var m1 := m.(rp := if end == c.cap then 0 else end, rbase := if end == c.cap then m.rbase + c.cap else m.rbase,
                   taken := m.taken + k.got);
      && MemoryOk(c, m1) && TurnOk(c, m1, false) && m1.R() == m.R() + k.n && (m1.rbase == m.rbase || !m.wp.locked)
  {
    hide HistoryOk, BasesOk, DoneOk, ContentOk, SyncOk, RingOk, Boundary, ConsumerOk, TurnOk;
    var x := m.R() + k.avail;
    ReleasedTaken(c, m, k, x);
    ReleasedRing(c, m, k.n, x, m.taken + k.got);
  }

  lemma ReleasedKeeps(c: Config, s: State)
    requires Inv(c, s) && s.consumer.Copy? && |s.consumer.got| == s.consumer.n
    ensures Inv(c, Released(c, s))
  {
    hide Inv, MemoryOk, TurnOk, ConsumerOk;
    CopyHolds(c, s);
    CopiedIsPushed(c, s);
    ReleasedMemory(c, s.m, s.consumer);
    var s1 := Released(c, s);
    RestIsOk(c, s1.m, s1.consumer);
    AssembleRead(c, s, s1.m, s1.consumer);
  }

  lemma RestIsOk(c: Config, m: Memory, k: ConsumerPc)
    requires |m.res| == |m.pushed| && k.Rest?
    ensures ConsumerOk(c, m, k)
  {
  }

  lemma CopiedIsPushed(c: Config, s: State)
    requires Inv(c, s) && s.consumer.Copy?
    ensures |s.m.res| == |s.m.pushed|
    ensures forall j :: 0 <= j < |s.m.res| && !s.m.pushed[j] ==> s.m.res[j].pre >= s.m.R() + s.consumer.n
  {
  }
}
