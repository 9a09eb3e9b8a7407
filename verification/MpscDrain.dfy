/** A reader that works while no producer does gets everything that was written. */
module MpscDrain {
  import opened MpscModel
  import opened MpscInvariant
  import opened MpscProducer
  import opened MpscConsumer
  import opened MpscTheorems

  /** No producer is in a call. */
  ghost predicate Quiet(s: State) {
    forall p :: 0 <= p < |s.ps| ==> s.ps[p].pc.Out? || s.ps[p].pc.Registering?
  }

  /** The steps of `mpsc_pop`. */
  predicate IsPopStep(a: Action) {
    a.CLoad? || a.CScanFlag? || a.CScanReserve? || a.CDecide? || a.CReset?
  }

  /** A call of `mpsc_pop` under way that has met nothing pending, on a ring with bytes to read. */
  ghost predicate Draining(c: Config, s: State) {
    && s.m.R() != s.m.W()
    && match s.consumer
       case CLoadWp(_, _) => true
       case Scan(_, _, _, _, ready, _) => ready == c.maxPos
       case ScanPos(_, _, _, _, ready, _) => ready == c.maxPos
       case Reset(_) => true
       case _ => false
  }

  lemma SeenIsFree(c: Config, s: State)
    requires Inv(c, s) && Quiet(s) && s.consumer.ScanPos?
    ensures s.consumer.i < |s.ps| && s.ps[s.consumer.i].reserve.Free?
  {
    PcAt(c, s, s.consumer.i);
  }

  lemma LevelOffsets(c: Config, m: Memory)
    requires MemoryOk(c, m)
    ensures m.rp == m.wp.off <==> m.R() == m.W()
  {
  }

  lemma AfterReset(c: Config, s: State)
    requires Inv(c, s) && s.consumer.Reset?
    ensures s.m.wbase < s.m.W()
  {
    assert ResOk(c.cap, c.producers, s.m.res[s.m.turnRes]);
  }

  /** With nothing pending the scan ends in a turn of the ring or with bytes to read. */
  lemma DecideFindsBytes(c: Config, s: State)
    requires Inv(c, s) && s.consumer.Scan? && s.consumer.i == |s.ps| && s.consumer.ready == c.maxPos
    ensures s.m.rp <= Limit(c, s) && (Decided(c, s).consumer.Reset? || Decided(c, s).consumer.Copy?)
    ensures Decided(c, s).m.R() == s.m.R() && Decided(c, s).m.W() == s.m.W()
  {
    LimitIsSafe(c, s);
    ScanHolds(c, s);
    hide Inv, MemoryOk, TurnOk, SafeUpTo;
  }

  lemma DrainLoad(c: Config, s: State)
    requires Inv(c, s) && Draining(c, s) && s.consumer.CLoadWp?
    ensures Draining(c, Loaded(c, s)) && Loaded(c, s).consumer.Scan?
  {
    assert MemoryOk(c, s.m);
    hide Inv, MemoryOk;
    LevelOffsets(c, s.m);
  }

  lemma DrainReserve(c: Config, s: State)
    requires Inv(c, s) && Quiet(s) && Draining(c, s) && s.consumer.ScanPos?
    ensures s.consumer.i < |s.ps| && s.ps[s.consumer.i].reserve.Free? && Draining(c, ReserveScanned(c, s))
  {
    SeenIsFree(c, s);
    hide Inv, Quiet;
  }

  lemma DrainReset(c: Config, s: State)
    requires Inv(c, s) && Draining(c, s) && s.consumer.Reset?
    ensures Draining(c, WasReset(c, s))
  {
    AfterReset(c, s);
    hide Inv;
    assert WasReset(c, s).m.R() == s.m.rbase + c.cap;
    TurnIsLap(c, s);
  }

  lemma TurnIsLap(c: Config, s: State)
    requires Inv(c, s) && s.consumer.Reset?
    ensures s.m.wbase == s.m.rbase + c.cap
  {
  }

  // ----- the lock is held by somebody

  /** A locked word belongs to a producer on its way to unlock it. */
  ghost predicate LockHeld(s: State) {
    s.m.wp.locked ==> exists p :: 0 <= p < |s.ps| && Locking(s.ps[p].pc)
  }

  lemma LockStays(s: State, s1: State, q: nat)
    requires LockHeld(s) && |s1.ps| == |s.ps| && q < |s.ps|
    requires forall p :: 0 <= p < |s.ps| && p != q ==> s1.ps[p].pc == s.ps[p].pc
    requires s1.m.wp.locked ==> Locking(s1.ps[q].pc) || (s.m.wp.locked && !Locking(s.ps[q].pc))
    ensures LockHeld(s1)
  {
    if s1.m.wp.locked && !Locking(s1.ps[q].pc) {
      var p :| 0 <= p < |s.ps| && Locking(s.ps[p].pc);
      assert Locking(s1.ps[p].pc);
    }
  }

  predicate OnTheWay(a: Action) {
    a.PCas? || a.PClear? || a.PSetWarp? || a.PUnlock?
  }

  lemma LockerKeepsLock(c: Config, s: State, a: Action)
    requires c.Valid() && LockHeld(s) && Enabled(c, s, a) && OnTheWay(a)
    ensures LockHeld(Apply(c, s, a))
  {
    hide LockHeld, TargetOf;
    LockStays(s, Apply(c, s, a), a.p);
  }

  lemma OtherKeepsLock(c: Config, s: State, a: Action)
    requires c.Valid() && LockHeld(s) && Enabled(c, s, a) && !OnTheWay(a) && IsProducerStep(a)
    ensures LockHeld(Apply(c, s, a))
  {
    hide LockHeld, TargetOf, Slot;
    LockStays(s, Apply(c, s, a), a.p);
  }

  predicate IsProducerStep(a: Action) {
    a.PReserveFree? || a.PFlagOn? || a.PFlagOff? || a.PBegin? || a.PLoadWp? || a.PStoreReserve? || a.PLoadRp? ||
    a.PGiveUp? || OnTheWay(a) || a.PCopyByte? || a.PPush?
  }

  lemma StepKeepsLock(c: Config, s: State, a: Action)
    requires c.Valid() && LockHeld(s) && Enabled(c, s, a)
    ensures LockHeld(Apply(c, s, a))
  {
    hide LockHeld, Apply, Enabled;
    if OnTheWay(a) {
      LockerKeepsLock(c, s, a);
    } else if IsProducerStep(a) {
      OtherKeepsLock(c, s, a);
    } else {
      ConsumerKeepsLock(c, s, a);
    }
  }

  lemma ConsumerKeepsLock(c: Config, s: State, a: Action)
    requires c.Valid() && LockHeld(s) && Enabled(c, s, a)
    requires IsPopStep(a) || a.CBegin? || a.CCopyByte? || a.CFinish?
    ensures LockHeld(Apply(c, s, a))
  {
    assert Apply(c, s, a).ps == s.ps && Apply(c, s, a).m.wp == s.m.wp;
  }

  lemma {:induction false} RunKeepsLock(c: Config, s: State, run: seq<Action>)
    requires c.Valid() && LockHeld(s) && IsRun(c, s, run)
    ensures LockHeld(Final(c, s, run))
    decreases |run|
  {
    hide LockHeld;
    if run != [] {
      StepKeepsLock(c, s, run[0]);
      RunKeepsLock(c, Apply(c, s, run[0]), run[1..]);
    }
  }

  lemma ReachableLock(c: Config, s: State)
    requires c.Valid() && Reachable(c, s)
    ensures LockHeld(s)
  {
    var s0, run :| Init(c, s0) && IsRun(c, s0, run) && Final(c, s0, run) == s;
    RunKeepsLock(c, s0, run);
  }

  // ----- a pop that drains comes to an end

  /** The step the pop takes next. */
  function NextStep(s: State): Action {
    match s.consumer
    case CLoadWp(_, _) => CLoad
    case Scan(_, _, _, i, _, _) => if i < |s.ps| then CScanFlag else CDecide
    case ScanPos(_, _, _, _, _, _) => CScanReserve
    case _ => CReset
  }

  /** How many steps are left at most: the retry not yet used, and the producers left to scan. */
  ghost function StepsLeft(s: State): nat {
    var n := |s.ps|;
    match s.consumer
    case CLoadWp(_, retried) => (if retried then 0 else 2 * n + 4) + 2 * n + 2
    case Scan(_, retried, _, i, _, _) => (if retried then 0 else 2 * n + 4) + 1 + if i <= n then 2 * (n - i) else 0
    case ScanPos(_, retried, _, i, _, _) => (if retried then 0 else 2 * n + 4) + if i <= n then 2 * (n - i) else 0
    case Reset(_) => 2 * n + 3
    case _ => 0
  }

  lemma NobodyLocks(s: State)
    requires LockHeld(s) && Quiet(s)
    ensures !s.m.wp.locked
  {
  }

  lemma ScanInRange(c: Config, s: State)
    requires Inv(c, s) && s.consumer.Scan?
    ensures s.consumer.i <= |s.ps|
  {
  }

  /** In a draining pop, while no producer is in a call, the next step can happen, and no other. */
  lemma NextIsEnabled(c: Config, s: State)
    requires c.Valid() && Inv(c, s) && LockHeld(s) && Quiet(s) && Draining(c, s)
    ensures Enabled(c, s, NextStep(s))
    ensures forall a :: IsPopStep(a) && Enabled(c, s, a) ==> a == NextStep(s)
  {
    hide Inv, Quiet, LockHeld, Limit;
    NobodyLocks(s);
    if s.consumer.Scan? {
      ScanInRange(c, s);
      if s.consumer.i == |s.ps| { hide Decided; DecideFindsBytes(c, s); }
    }
    if s.consumer.ScanPos? { hide ReserveScanned; DrainReserve(c, s); }
    OnlyNext(c, s);
  }

  lemma OnlyNext(c: Config, s: State)
    requires c.Valid() && Draining(c, s)
    ensures forall a :: IsPopStep(a) && Enabled(c, s, a) ==> a == NextStep(s)
  {
    hide Limit;
  }

  lemma DrainFlag(c: Config, s: State)
    requires Draining(c, s) && s.consumer.Scan? && s.consumer.i < |s.ps|
    ensures Draining(c, FlagScanned(s)) && StepsLeft(FlagScanned(s)) < StepsLeft(s)
  {
  }

  lemma DrainDecide(c: Config, s: State)
    requires Inv(c, s) && Draining(c, s) && s.consumer.Scan? && s.consumer.i == |s.ps|
    ensures s.m.rp <= Limit(c, s) && StepsLeft(Decided(c, s)) < StepsLeft(s)
    ensures Draining(c, Decided(c, s)) || Decided(c, s).consumer.Copy?
  {
    hide Inv, Limit;
    DecideFindsBytes(c, s);
    if s.consumer.retried { NoSecondReset(c, s); }
    assert Decided(c, s).ps == s.ps;
  }

  /** The next step leaves the pop draining, with fewer steps to go, or with bytes to copy. */
  lemma NextStepDrains(c: Config, s: State)
    requires c.Valid() && Inv(c, s) && Quiet(s) && Draining(c, s) && Enabled(c, s, NextStep(s))
    ensures var s1 := Apply(c, s, NextStep(s));
      Quiet(s1) && StepsLeft(s1) < StepsLeft(s) && (Draining(c, s1) || s1.consumer.Copy?)
  {
    hide Inv, Quiet, Limit, Decided;
    ConsumerLeavesProducers(c, s, NextStep(s));
    SameIdle(s, Apply(c, s, NextStep(s)));
    match s.consumer {
      case CLoadWp(_, _) =>
        DrainLoad(c, s);
      case Scan(_, _, _, i, _, _) =>
        if i == |s.ps| { DrainDecide(c, s); } else { DrainFlag(c, s); }
      case ScanPos(_, _, _, _, _, _) =>
        DrainReserve(c, s);
      case _ =>
        DrainReset(c, s);
    }
  }

  lemma ConsumerLeavesProducers(c: Config, s: State, a: Action)
    requires c.Valid() && IsPopStep(a) && Enabled(c, s, a)
    ensures Apply(c, s, a).ps == s.ps
  {
    hide Limit;
  }

  lemma SameIdle(s: State, s1: State)
    requires Quiet(s) && s1.ps == s.ps
    ensures Quiet(s1)
  {
  }

  lemma CopyHasBytes(c: Config, s: State)
    requires Inv(c, s) && s.consumer.Copy?
    ensures s.consumer.avail > 0
  {
  }

  lemma NoPopStep(c: Config, s: State, a: Action)
    requires c.Valid() && s.consumer.Copy? && IsPopStep(a)
    ensures !Enabled(c, s, a)
  {
  }

  ghost predicate PopDone(c: Config, s: State) {
    s.consumer.Copy? && s.consumer.avail > 0
  }

  lemma {:induction false} DrainEnds(c: Config, s: State, run: seq<Action>)
    requires c.Valid() && Inv(c, s) && LockHeld(s) && Quiet(s) && Draining(c, s)
    requires IsRun(c, s, run) && forall i :: 0 <= i < |run| ==> IsPopStep(run[i])
    ensures |run| <= StepsLeft(s)
    ensures PopDone(c, Final(c, s, run)) || exists a :: IsPopStep(a) && Enabled(c, Final(c, s, run), a)
    decreases |run|
  {
    hide Inv, Quiet, Draining, LockHeld, Enabled, StepsLeft, Apply;
    NextIsEnabled(c, s);
    NextIsPopStep(s);
    if run != [] {
      var s1 := Apply(c, s, run[0]);
      NextStepDrains(c, s);
      StepKeepsInv(c, s, run[0]);
      StepKeepsLock(c, s, run[0]);
      if s1.consumer.Copy? {
        CopyHasBytes(c, s1);
        if run[1..] != [] { NoPopStep(c, s1, run[1]); }
      } else {
        DrainEnds(c, s1, run[1..]);
      }
    }
  }

  lemma NextIsPopStep(s: State)
    ensures IsPopStep(NextStep(s))
  {
  }

  /** While no producer is in a call, a pop that has found bytes in the ring ends within a
      number of steps that grows with the number of producers, whatever it does; and where
      it cannot go on, it has bytes to copy. */
  lemma IdleRingDrains(c: Config, s: State, run: seq<Action>)
    requires c.Valid() && Reachable(c, s) && Quiet(s) && Draining(c, s)
    requires IsRun(c, s, run) && forall i :: 0 <= i < |run| ==> IsPopStep(run[i])
    ensures |run| <= 4 * |s.ps| + 6
    ensures (forall a :: IsPopStep(a) ==> !Enabled(c, Final(c, s, run), a)) <==> PopDone(c, Final(c, s, run))
  {
    ReachableInv(c, s);
    ReachableLock(c, s);
    DrainEnds(c, s, run);
    FewSteps(s);
    hide Inv, Quiet, Draining, LockHeld, Enabled, StepsLeft, IsRun, Final;
    var s1 := Final(c, s, run);
    if PopDone(c, s1) {
      forall a | IsPopStep(a) ensures !Enabled(c, s1, a) {
        NoPopStep(c, s1, a);
      }
    }
  }

  lemma FewSteps(s: State)
    ensures StepsLeft(s) <= 4 * |s.ps| + 6
  {
  }

  /** Such a pop does get there. */
  lemma {:induction false} PopReachesBytes(c: Config, s: State) returns (run: seq<Action>)
    requires c.Valid() && Inv(c, s) && LockHeld(s) && Quiet(s) && Draining(c, s)
    ensures IsRun(c, s, run) && (forall i :: 0 <= i < |run| ==> IsPopStep(run[i])) && PopDone(c, Final(c, s, run))
    decreases StepsLeft(s)
  {
    hide Inv, Quiet, Draining, LockHeld, Enabled, StepsLeft, Apply;
    var a := NextStep(s);
    NextIsEnabled(c, s);
    NextIsPopStep(s);
    NextStepDrains(c, s);
    StepKeepsInv(c, s, a);
    StepKeepsLock(c, s, a);
    var s1 := Apply(c, s, a);
    if s1.consumer.Copy? {
      CopyHasBytes(c, s1);
      run := [a];
    } else {
      var rest := PopReachesBytes(c, s1);
      run := [a] + rest;
      assert run[1..] == rest;
    }
  }
}
