/** How much `mpsc_pop` offers and `mpsc_read` takes: no less than what is there. */
module MpscOffers {
  import opened Basics
  import opened MpscModel
  import opened MpscInvariant
  import opened MpscHistory
  import opened MpscProducer
  import opened MpscConsumer
  import opened MpscTheorems
  import opened MpscDrain

  /** A registered producer is at work at offset `off`. */
  ghost predicate HoldsBack(s: State, p: nat, off: nat) {
    p < |s.ps| && s.ps[p].flag && s.ps[p].reserve == Claimed(off)
  }

  ghost predicate SomeoneAt(s: State, off: nat) {
    exists p :: HoldsBack(s, p, off)
  }

  /** Every reservation of the reader's lap ends within the next `n` bytes. */
  ghost predicate LapEndsWithin(c: Config, m: Memory, n: nat) {
    forall i :: 0 <= i < |m.res| && m.res[i].Start() < m.rbase + c.cap ==> m.res[i].End() <= m.R() + n
  }

  /** `n` bytes are all there is to read in this lap, or the next one is where a producer works. */
  ghost predicate AllThereIs(c: Config, s: State, n: nat) {
    SomeoneAt(s, s.m.rp + n) || LapEndsWithin(c, s.m, n)
  }

  ghost predicate Found(c: Config, s: State, ready: nat) {
    ready == c.maxPos || SomeoneAt(s, ready)
  }

  /** What a pop has found that runs while the producers stand still. */
  ghost predicate Alone(c: Config, s: State) {
    match s.consumer
    case CLoadWp(_, _) => true
    case Scan(_, _, wp, _, ready, _) => wp == s.m.wp.off && Found(c, s, ready)
    case ScanPos(_, _, wp, i, ready, _) => wp == s.m.wp.off && Found(c, s, ready) && i < |s.ps| && s.ps[i].flag
    case Reset(_) => true
    case Rest(_, got) => got == [] && AllThereIs(c, s, 0)
    case Copy(want, avail, n, got) =>
      got == [] && AllThereIs(c, s, avail) && n == if want <= avail then want else 0
  }

  /** The reservations of the reader's lap end at the turn. */
  lemma LapEndsAtTurn(c: Config, m: Memory, i: nat)
    requires MemoryOk(c, m) && TurnOk(c, m, false) && m.wbase == m.rbase + c.cap && i < |m.res|
    ensures m.res[i].Start() < m.wbase ==> m.res[i].End() <= m.turn
  {
    var t := m.turnRes;
    assert ResOk(c.cap, c.producers, m.res[i]) && ResOk(c.cap, c.producers, m.res[t]);
    InOrder(c.cap, c.producers, m.res, m.W(), |m.stream|, i, t);
    InOrder(c.cap, c.producers, m.res, m.W(), |m.stream|, t, i);
    hide BasesOk, DoneOk, ContentOk, SyncOk;
  }

  lemma EndsBeforeWrite(c: Config, m: Memory, i: nat)
    requires MemoryOk(c, m) && i < |m.res|
    ensures m.res[i].End() <= m.W()
  {
    hide BasesOk, DoneOk, ContentOk, SyncOk, RingOk;
  }

  /** With nothing held back, the scan offers the rest of the lap. */
  lemma LimitIsLapEnd(c: Config, m: Memory, k: ConsumerPc, limit: nat)
    requires MemoryOk(c, m) && TurnOk(c, m, false) && |m.res| == |m.pushed| && k.Scan?
    requires ScanOk(c, m, k.wp, k.i, k.ready, k.snapPos) && k.wp == m.wp.off
    requires limit == if k.wp < m.rp then (if m.warpEnd == c.maxPos then c.cap else m.warpEnd) else k.wp
    requires m.rp <= limit
    ensures LapEndsWithin(c, m, limit - m.rp)
  {
    hide HistoryOk, BasesOk, DoneOk, ContentOk, SyncOk, TurnOk, Boundary;
    forall i | 0 <= i < |m.res| && m.res[i].Start() < m.rbase + c.cap ensures m.res[i].End() <= m.R() + (limit - m.rp) {
      if k.wp < m.rp {
        WarpEndIsTurn(c, m);
        LapEndsAtTurn(c, m, i);
      } else {
        EndsBeforeWrite(c, m, i);
      }
    }
  }

  lemma EmptyIsAll(c: Config, m: Memory)
    requires MemoryOk(c, m) && m.rp == m.wp.off
    ensures LapEndsWithin(c, m, 0)
  {
    LevelOffsets(c, m);
    hide HistoryOk, BasesOk, DoneOk, ContentOk, SyncOk, RingOk;
    forall i | 0 <= i < |m.res| ensures m.res[i].End() <= m.R() { EndsBeforeWrite(c, m, i); }
  }

  lemma LoadedAlone(c: Config, s: State)
    requires Inv(c, s) && s.consumer.CLoadWp?
    ensures Alone(c, Loaded(c, s))
  {
    assert MemoryOk(c, s.m);
    hide Inv, MemoryOk, LapEndsWithin;
    if s.m.rp == s.m.wp.off { EmptyIsAll(c, s.m); }
  }

  lemma FlagAlone(c: Config, s: State)
    requires Alone(c, s) && s.consumer.Scan? && s.consumer.i < |s.ps|
    ensures Alone(c, FlagScanned(s))
  {
    hide AllThereIs;
    SameHolders(s, FlagScanned(s));
  }

  lemma SameHolders(s: State, t: State)
    requires s.ps == t.ps
    ensures forall off: nat :: SomeoneAt(s, off) <==> SomeoneAt(t, off)
  {
    forall off: nat ensures SomeoneAt(s, off) <==> SomeoneAt(t, off) {
      forall p: nat ensures HoldsBack(s, p, off) <==> HoldsBack(t, p, off) {}
    }
  }

  lemma ReserveAlone(c: Config, s: State)
    requires Alone(c, s) && s.consumer.ScanPos? && !s.ps[s.consumer.i].reserve.Claiming?
    ensures Alone(c, ReserveScanned(c, s))
  {
    SameHolders(s, ReserveScanned(c, s));
    var r := s.ps[s.consumer.i].reserve;
    assert r.Claimed? ==> HoldsBack(s, s.consumer.i, r.off);
    assert r.Claimed? ==> SomeoneAt(s, r.off);
    hide AllThereIs, SomeoneAt, HoldsBack;
  }

  lemma ScanAlone(c: Config, s: State)
    requires Alone(c, s) && s.consumer.Scan?
    ensures s.consumer.wp == s.m.wp.off && (s.consumer.ready == c.maxPos || SomeoneAt(s, s.consumer.ready))
  {
    hide AllThereIs, SomeoneAt;
  }

  lemma LimitIs(c: Config, s: State)
    requires s.consumer.Scan?
    ensures var k, m := s.consumer, s.m;
      Limit(c, s) == k.ready ||
      Limit(c, s) == if k.wp < m.rp then (if m.warpEnd == c.maxPos then c.cap else m.warpEnd) else k.wp
  {
  }

  lemma LimitAtMost(c: Config, s: State)
    requires c.Valid() && s.consumer.Scan? && s.consumer.ready == c.maxPos && s.consumer.wp < c.cap
    requires s.consumer.wp < s.m.rp ==> s.m.warpEnd <= c.maxPos
    ensures var k, m := s.consumer, s.m;
      Limit(c, s) == if k.wp < m.rp then (if m.warpEnd == c.maxPos then c.cap else m.warpEnd) else k.wp
  {
  }

  lemma ScanWordInRange(c: Config, s: State)
    requires Inv(c, s) && s.consumer.Scan?
    ensures c.Valid() && s.consumer.wp < c.cap && (s.consumer.wp < s.m.rp ==> s.m.warpEnd <= c.maxPos)
  {
    hide HistoryOk, BasesOk, DoneOk, ContentOk, SyncOk, PcOk, PendingOk;
  }

  /** The limit is the end of the lap unless someone is at work at it. */
  lemma LimitIsAll(c: Config, s: State)
    requires Inv(c, s) && Alone(c, s) && s.consumer.Scan? && s.consumer.i == |s.ps|
    ensures s.m.rp <= Limit(c, s) && AllThereIs(c, s, Limit(c, s) - s.m.rp)
  {
    hide Inv, Alone, Limit, MemoryOk, TurnOk, ScanOk, SafeUpTo, LapEndsWithin, SomeoneAt;
    LimitIsSafe(c, s);
    ScanHolds(c, s);
    ScanAlone(c, s);
    LimitIs(c, s);
    ScanWordInRange(c, s);
    if !SomeoneAt(s, Limit(c, s)) {
      if s.consumer.ready == c.maxPos { LimitAtMost(c, s); }
      LimitIsLapEnd(c, s.m, s.consumer, Limit(c, s));
    }
  }

  lemma DecidedAlone(c: Config, s: State)
    requires c.Valid() && Inv(c, s) && Alone(c, s) && s.consumer.Scan? && s.consumer.i == |s.ps|
    ensures s.m.rp <= Limit(c, s) && Alone(c, Decided(c, s))
  {
    hide Inv, Alone, Limit, SomeoneAt, LapEndsWithin;
    LimitIsAll(c, s);
    OfferedAlone(c, s, Limit(c, s));
  }

  lemma OfferedAlone(c: Config, s: State, limit: nat)
    requires s.consumer.Scan? && s.m.rp <= limit == Limit(c, s) && AllThereIs(c, s, limit - s.m.rp)
    ensures Alone(c, Decided(c, s))
  {
    hide Limit, SomeoneAt, LapEndsWithin;
    SameHolders(s, Decided(c, s));
  }

  lemma PopStepAlone(c: Config, s: State, a: Action)
    requires c.Valid() && Inv(c, s) && Alone(c, s) && IsPopStep(a) && Enabled(c, s, a)
    ensures Alone(c, Apply(c, s, a))
  {
    hide Inv, Limit, Decided, Loaded, FlagScanned, ReserveScanned;
    match a {
      case CLoad => LoadedAlone(c, s);
      case CScanFlag => FlagAlone(c, s);
      case CScanReserve => ReserveAlone(c, s);
      case CDecide => DecidedAlone(c, s);
      case CReset =>
    }
  }

  lemma {:induction false} PopRunAlone(c: Config, s: State, run: seq<Action>)
    requires c.Valid() && Inv(c, s) && Alone(c, s)
    requires IsRun(c, s, run) && forall i :: 0 <= i < |run| ==> IsPopStep(run[i])
    ensures Alone(c, Final(c, s, run))
    decreases |run|
  {
    hide Inv, Alone, Enabled, Apply;
    if run != [] {
      PopStepAlone(c, s, run[0]);
      StepKeepsInv(c, s, run[0]);
      PopRunAlone(c, Apply(c, s, run[0]), run[1..]);
    }
  }

  /** A pop that runs while the producers stand still, at whatever step, offers all there is to
      read up to the end of the lap, or up to where a producer is at work, and finds nothing
      only if that is at the read position; a read takes all it wants of it, or nothing. */
  lemma PopOffersAll(c: Config, s: State, run: seq<Action>)
    requires c.Valid() && Reachable(c, s) && s.consumer.CLoadWp?
    requires IsRun(c, s, run) && forall i :: 0 <= i < |run| ==> IsPopStep(run[i])
    ensures var t := Final(c, s, run);
      (t.consumer.Copy? ==>
        AllThereIs(c, t, t.consumer.avail) && t.consumer.n == if t.consumer.want <= t.consumer.avail then t.consumer.want else 0) &&
      (t.consumer.Rest? ==> AllThereIs(c, t, 0))
  {
    ReachableInv(c, s);
    hide Inv, Reachable, IsRun, Final, AllThereIs;
    PopRunAlone(c, s, run);
  }
}
