/** That `log_flush_bin` hands records out, and what `busy` holds back. */
module LogProgress {
  import opened Basics
  import opened MpscModel
  import opened MpscInvariant
  import opened MpscHistory
  import opened MpscConsumer
  import opened MpscTheorems
  import opened MpscDrain
  import opened LogModel
  import opened LogProofs
  import opened LogTheorems

  // ----- while the output is busy

  /** The flush does not run while the output is busy. */
  ghost predicate BusyWaits(l: LogState) {
    !l.flush.Idle? ==> !l.busy
  }

  lemma StepBusyWaits(c: Config, w: Widths, async: bool, l: LogState, a: LogAction)
    requires c.Valid() && BusyWaits(l) && LogEnabled(c, w, l, a)
    ensures BusyWaits(LogApply(c, w, async, l, a))
    ensures a.BodyDone? ==> !l.busy && LogApply(c, w, async, l, a).busy == async
    ensures !a.BodyDone? ==> LogApply(c, w, async, l, a).out == l.out
    ensures !a.BodyDone? && !a.NotBusy? ==> LogApply(c, w, async, l, a).busy == l.busy
  {
    hide Enabled, Apply;
  }

  lemma {:induction false} RunBusyWaits(c: Config, w: Widths, async: bool, l: LogState, run: seq<LogAction>)
    requires c.Valid() && BusyWaits(l) && IsLogRun(c, w, async, l, run)
    ensures BusyWaits(LogFinal(c, w, async, l, run))
    decreases |run|
  {
    hide LogApply, LogEnabled, BusyWaits;
    if run != [] {
      StepBusyWaits(c, w, async, l, run[0]);
      RunBusyWaits(c, w, async, LogApply(c, w, async, l, run[0]), run[1..]);
    }
  }

  /** In every run from a start that is not busy, the flush runs only while nothing is busy. */
  lemma FlushIsNotBusy(c: Config, w: Widths, async: bool, l: LogState, run: seq<LogAction>)
    requires c.Valid() && LogInit(c, l) && !l.busy && IsLogRun(c, w, async, l, run)
    ensures !LogFinal(c, w, async, l, run).flush.Idle? ==> !LogFinal(c, w, async, l, run).busy
  {
    RunBusyWaits(c, w, async, l, run);
  }

  function Count(run: seq<LogAction>, a: LogAction): nat {
    if run == [] then 0 else (if run[0] == a then 1 else 0) + Count(run[1..], a)
  }

  /** From any state a run meets, at most one record goes out in asynchronous mode, none if
      the output is busy, and one more for every time it is said to be complete. */
  lemma {:induction false} OneRecordATime(c: Config, w: Widths, l: LogState, run: seq<LogAction>)
    requires c.Valid() && BusyWaits(l) && IsLogRun(c, w, true, l, run)
    ensures |LogFinal(c, w, true, l, run).out| <= |l.out| + Count(run, NotBusy) + (if l.busy then 0 else 1)
    decreases |run|
  {
    hide LogApply, LogEnabled, BusyWaits;
    if run != [] {
      var l1 := LogApply(c, w, true, l, run[0]);
      StepBusyWaits(c, w, true, l, run[0]);
      RecordByRecord(c, w, true, l, run[0]);
      OneRecordATime(c, w, l1, run[1..]);
    }
  }

  lemma RecordByRecord(c: Config, w: Widths, async: bool, l: LogState, a: LogAction)
    requires c.Valid() && LogEnabled(c, w, l, a)
    ensures |LogApply(c, w, async, l, a).out| <= |l.out| + (if a.BodyDone? then 1 else 0)
    ensures a.NotBusy? ==> LogApply(c, w, async, l, a) == l.(busy := false)
  {
    hide Enabled, Apply;
  }

  // ----- what is ready at the start of a record

  /** Whatever is ready at the start of a record reaches to its end. */
  lemma RecordIsWhole(c: Config, m: Memory, n: nat, x: nat)
    requires MemoryOk(c, m) && n < |m.res| && |m.taken| == m.res[n].pos
    requires Boundary(m.res, m.W(), x) && m.R() < x <= m.rbase + c.cap
    ensures m.R() + m.res[n].size <= x
  {
    hide MemoryOk, Boundary;
    StandsAtRecord(c, m, n);
    ResIsOk(c, m, n);
    LapOf(c, m, n);
    EndsPast(c, m, n, x);
  }

  lemma LapOf(c: Config, m: Memory, n: nat)
    requires MemoryOk(c, m) && n < |m.res|
    ensures m.res[n].base + c.cap <= m.rbase || m.res[n].base == m.rbase || m.res[n].base == m.rbase + c.cap
    ensures m.rp < c.cap
  {
    hide HistoryOk, DoneOk, ContentOk, SyncOk, RingOk;
  }

  lemma ResIsOk(c: Config, m: Memory, n: nat)
    requires MemoryOk(c, m) && n < |m.res|
    ensures ResOk(c.cap, c.producers, m.res[n])
  {
  }

  /** A reader that has taken all before a record stands at it, or where it was put in line. */
  lemma StandsAtRecord(c: Config, m: Memory, n: nat)
    requires MemoryOk(c, m) && n < |m.res| && |m.taken| == m.res[n].pos
    ensures m.R() == m.res[n].Start() || m.R() == m.res[n].pre
    ensures m.R() < m.res[n].End()
  {
    hide BasesOk, DoneOk, ContentOk, RingOk;
    ResIsOk(c, m, n);
    assert Follows(m.res, n);
    if n > 0 {
      ResIsOk(c, m, n - 1);
      assert m.res[n].pre == m.res[n - 1].End() && m.res[n].pos == m.res[n - 1].pos + m.res[n - 1].size;
    }
  }

  lemma EndsPast(c: Config, m: Memory, n: nat, x: nat)
    requires MemoryOk(c, m) && n < |m.res| && Boundary(m.res, m.W(), x) && m.res[n].pre < x
    ensures m.res[n].End() <= x
  {
    hide BasesOk, DoneOk, ContentOk, RingOk, SyncOk;
    if x != m.W() {
      var j :| 0 <= j < |m.res| && m.res[j].pre == x;
      PreAscends(c, m, j, n);
    }
  }

  lemma PreAscends(c: Config, m: Memory, j: nat, n: nat)
    requires MemoryOk(c, m) && j < |m.res| && n < |m.res|
    ensures j <= n ==> m.res[j].pre <= m.res[n].pre
  {
    hide BasesOk, DoneOk, ContentOk, RingOk, SyncOk;
    ResIsOk(c, m, j);
  }

  // ----- a read goes on while no writer is at work

  predicate IsFlushStep(a: LogAction) {
    a.HeaderDone? || a.BodyDone? || (a.Ring? && IsReadStep(a.a))
  }

  /** The step the flush takes next. */
  function NextFlush(l: LogState): LogAction {
    var s := l.ring;
    if s.consumer.Rest? then (if l.flush.Header? then HeaderDone else BodyDone)
    else if s.consumer.Copy? then Ring(if |s.consumer.got| < s.consumer.n then CCopyByte else CFinish)
    else Ring(NextStep(s))
  }

  /** Steps left of one `mpsc_read`, at most. */
  ghost function ReadLeft(s: State): nat {
    match s.consumer
    case Rest(_, _) => 0
    case Copy(_, _, n, got) => 1 + if |got| <= n then n - |got| else 0
    case k => StepsLeft(s) + k.want + 2
  }

  /** A read that is to return `want` bytes is on its way. */
  ghost predicate OnItsWay(c: Config, s: State, want: nat) {
    match s.consumer
    case Rest(_, got) => |got| == want
    case Copy(w, _, n, _) => w == want && n == want
    case CLoadWp(w, _) => w == want && (want == 0 || Draining(c, s))
    case k => k.want == want && Draining(c, s)
  }

  /** What the reader is about to read reaches `want` bytes at least. */
  ghost predicate HasBytes(m: Memory, n: nat, want: nat) {
    n < |m.res| &&
    ((|m.taken| == m.res[n].pos && want <= m.res[n].size) ||
     (m.res[n].pos < |m.taken| && |m.taken| + want == m.res[n].pos + m.res[n].size))
  }

  /** Bytes enough are ready where any are. */
  lemma EnoughIsReady(c: Config, s: State, n: nat, want: nat)
    requires Inv(c, s) && s.consumer.Scan? && s.consumer.i == |s.ps| && HasBytes(s.m, n, want)
    ensures s.m.rp <= Limit(c, s) && (s.m.rp < Limit(c, s) ==> want <= Limit(c, s) - s.m.rp)
  {
    LimitIsSafe(c, s);
    MemoryHolds(c, s);
    hide Inv, MemoryOk, TurnOk, Limit;
    var x := s.m.rbase + Limit(c, s);
    BoundaryHolds(s.m, x);
    hide SafeUpTo, Boundary;
    if s.m.rp < Limit(c, s) {
      if |s.m.taken| == s.m.res[n].pos {
        RecordIsWhole(c, s.m, n, x);
      } else if want > 0 {
        InsideRecord(c, s.m, n, x);
      }
    }
  }

  lemma BoundaryHolds(m: Memory, x: nat)
    requires |m.res| == |m.pushed| && SafeUpTo(m.res, m.pushed, m.W(), x)
    ensures Boundary(m.res, m.W(), x)
  {
  }

  lemma DecideHasBytes(c: Config, s: State, n: nat, want: nat)
    requires Inv(c, s) && s.consumer.Scan? && s.consumer.i == |s.ps| && OnItsWay(c, s, want) && HasBytes(s.m, n, want)
    ensures s.m.rp <= Limit(c, s) && OnItsWay(c, Decided(c, s), want)
    ensures ReadLeft(Decided(c, s)) < ReadLeft(s)
  {
    hide Inv, Limit, HasBytes;
    DrainDecide(c, s);
    EnoughIsReady(c, s, n, want);
  }

  lemma FlagGoesOn(c: Config, s: State, want: nat)
    requires s.consumer.Scan? && s.consumer.i < |s.ps| && OnItsWay(c, s, want)
    ensures OnItsWay(c, FlagScanned(s), want) && ReadLeft(FlagScanned(s)) < ReadLeft(s)
  {
    DrainFlag(c, s);
  }

  lemma ReserveGoesOn(c: Config, s: State, want: nat)
    requires c.Valid() && Inv(c, s) && Quiet(s) && s.consumer.ScanPos? && OnItsWay(c, s, want)
    ensures Enabled(c, s, CScanReserve)
    ensures OnItsWay(c, ReserveScanned(c, s), want) && ReadLeft(ReserveScanned(c, s)) < ReadLeft(s)
  {
    hide Inv, Quiet;
    DrainReserve(c, s);
  }

  lemma ResetGoesOn(c: Config, s: State, want: nat)
    requires Inv(c, s) && s.consumer.Reset? && OnItsWay(c, s, want)
    ensures OnItsWay(c, WasReset(c, s), want) && ReadLeft(WasReset(c, s)) < ReadLeft(s)
  {
    hide Inv;
    DrainReset(c, s);
  }

  /** A read that has bytes before it takes its next step, and stays on its way. */
  lemma ReadGoesOn(c: Config, s: State, n: nat, want: nat)
    requires c.Valid() && Inv(c, s) && LockHeld(s) && Quiet(s) && OnItsWay(c, s, want) && HasBytes(s.m, n, want)
    requires !s.consumer.Rest? && !s.consumer.Copy?
    ensures Enabled(c, s, NextStep(s))
    ensures OnItsWay(c, Apply(c, s, NextStep(s)), want) && ReadLeft(Apply(c, s, NextStep(s))) < ReadLeft(s)
  {
    hide Inv, LockHeld, Quiet, OnItsWay, HasBytes, ReadLeft, Limit, Loaded, FlagScanned, ReserveScanned, Decided, WasReset;
    NobodyLocks(s);
    match s.consumer {
      case CLoadWp(_, _) =>
        LoadGoesOn(c, s, want);
      case Scan(_, _, _, _, _, _) =>
        ScanInRange(c, s);
        if s.consumer.i == |s.ps| { DecideHasBytes(c, s, n, want); } else { FlagGoesOn(c, s, want); }
      case ScanPos(_, _, _, _, _, _) =>
        ReserveGoesOn(c, s, want);
      case _ =>
        ResetGoesOn(c, s, want);
    }
  }

  lemma LoadGoesOn(c: Config, s: State, want: nat)
    requires c.Valid() && Inv(c, s) && !s.m.wp.locked && s.consumer.CLoadWp? && OnItsWay(c, s, want)
    ensures Enabled(c, s, CLoad) && OnItsWay(c, Loaded(c, s), want) && ReadLeft(Loaded(c, s)) < ReadLeft(s)
  {
    MemoryHolds(c, s);
    LevelOffsets(c, s.m);
    hide Inv, MemoryOk;
  }

  lemma ByteGoesOn(c: Config, s: State, want: nat)
    requires c.Valid() && Inv(c, s) && s.consumer.Copy? && OnItsWay(c, s, want) && |s.consumer.got| < s.consumer.n
    ensures Enabled(c, s, CCopyByte) && OnItsWay(c, ByteRead(c, s), want) && ReadLeft(ByteRead(c, s)) < ReadLeft(s)
  {
    hide Inv, Slot, Draining, StepsLeft;
    ReaderGoesOn(c, s);
  }

  lemma FinishGoesOn(c: Config, s: State, want: nat)
    requires c.Valid() && Inv(c, s) && s.consumer.Copy? && OnItsWay(c, s, want) && |s.consumer.got| >= s.consumer.n
    ensures Enabled(c, s, CFinish) && OnItsWay(c, Released(c, s), want) && ReadLeft(Released(c, s)) < ReadLeft(s)
  {
    hide Inv, Draining, StepsLeft;
    GotIsWithin(c, s);
  }

  lemma GotIsWithin(c: Config, s: State)
    requires Inv(c, s) && s.consumer.Copy?
    ensures |s.consumer.got| <= s.consumer.n
  {
  }

  // ----- a flush that has records before it

  ghost function Wanted(w: Widths, l: LogState): nat {
    if l.flush.Body? then l.flush.entry.size else w.Header()
  }

  /** No writer is in a call, the flush runs, and there are records it has not handed out. */
  ghost predicate GoingOn(c: Config, w: Widths, l: LogState) {
    LogInv(c, w, l) && LockHeld(l.ring) && Quiet(l.ring) &&
    !l.flush.Idle? && |l.out| < |l.ring.m.res| && OnItsWay(c, l.ring, Wanted(w, l))
  }

  /** Fewer parts of the record left, or fewer steps of the read. */
  ghost predicate Less(l1: LogState, l: LogState) {
    (l.flush.Header? && l1.flush.Body?) || (l.flush.Header? == l1.flush.Header? && ReadLeft(l1.ring) < ReadLeft(l.ring))
  }

  lemma HasRecord(c: Config, w: Widths, l: LogState)
    requires LogInv(c, w, l) && !l.flush.Idle? && !l.ring.consumer.Rest? && |l.out| < |l.ring.m.res|
    ensures Inv(c, l.ring) && HasBytes(l.ring.m, |l.out|, Wanted(w, l))
  {
    LogParts(c, w, l);
    NotIdleReads(w, l.ring.m, l.ring.consumer, l.flush, |l.out|);
    RecordAt(c, w, l.ring.m, |l.out|);
    hide LogInv, Inv, MemoryOk, AllRecords, IsRecord, DataOf, OutOk, FlushOk, WritersOk, Decode, PosBefore;
  }

  lemma RingGoesOn(c: Config, w: Widths, l: LogState)
    requires c.Valid() && GoingOn(c, w, l) && !l.ring.consumer.Rest?
    ensures NextFlush(l).Ring? && IsReadStep(NextFlush(l).a) && Enabled(c, l.ring, NextFlush(l).a)
    ensures var s1 := Apply(c, l.ring, NextFlush(l).a);
      s1.ps == l.ring.ps && s1.m.res == l.ring.m.res && s1.m.wp == l.ring.m.wp &&
      OnItsWay(c, s1, Wanted(w, l)) && ReadLeft(s1) < ReadLeft(l.ring)
  {
    hide LogInv, Inv, OnItsWay, ReadLeft, HasBytes, LockHeld, Quiet, Limit, Slot, Wanted,
      Loaded, FlagScanned, ReserveScanned, Decided, WasReset, ByteRead, Released, IsReadStep;
    HasRecord(c, w, l);
    if l.ring.consumer.Copy? {
      if |l.ring.consumer.got| < l.ring.consumer.n {
        ByteGoesOn(c, l.ring, Wanted(w, l));
      } else {
        FinishGoesOn(c, l.ring, Wanted(w, l));
      }
      CopiesAreReads();
    } else {
      ReadGoesOn(c, l.ring, |l.out|, Wanted(w, l));
      NextIsRead(l.ring);
    }
    ReadLeavesWord(c, l.ring, NextFlush(l).a);
  }

  lemma CopiesAreReads()
    ensures IsReadStep(CCopyByte) && IsReadStep(CFinish)
  {
  }

  lemma NextIsRead(s: State)
    ensures IsReadStep(NextStep(s))
  {
  }

  lemma ReadLeavesWord(c: Config, s: State, a: Action)
    requires c.Valid() && Enabled(c, s, a) && IsReadStep(a)
    ensures var s1 := Apply(c, s, a); s1.ps == s.ps && s1.m.res == s.m.res && s1.m.wp == s.m.wp
  {
    hide Limit, Slot;
  }

  lemma SameProducers(s: State, s1: State)
    requires LockHeld(s) && Quiet(s) && s1.ps == s.ps && s1.m.wp == s.m.wp
    ensures LockHeld(s1) && Quiet(s1)
  {
  }

  /** After a header, the body is on its way. */
  lemma BodyIsNext(c: Config, w: Widths, async: bool, l: LogState)
    requires c.Valid() && GoingOn(c, w, l) && l.flush.Header? && l.ring.consumer.Rest?
    ensures LogEnabled(c, w, l, HeaderDone)
    ensures var l1 := LogApply(c, w, async, l, HeaderDone);
      l1.flush.Body? && l1.out == l.out && l1.ring.ps == l.ring.ps && l1.ring.m == l.ring.m &&
      LogInv(c, w, l1) && OnItsWay(c, l1.ring, Wanted(w, l1))
  {
    hide LogInv, Inv, Decode, LockHeld, Quiet, Draining, MemoryOk;
    HeaderPositive(c, w, l);
    HeaderDoneKeeps(c, w, async, l);
    var l1 := LogApply(c, w, async, l, HeaderDone);
    if l1.flush.entry.size > 0 {
      BodyIsUnread(c, w, l1);
      Undrained(c, l1.ring);
    }
  }

  lemma Undrained(c: Config, s: State)
    requires s.consumer.CLoadWp? && s.m.R() != s.m.W()
    ensures Draining(c, s)
  {
  }

  lemma HeaderPositive(c: Config, w: Widths, l: LogState)
    requires LogInv(c, w, l)
    ensures w.Header() > 0
  {
  }

  lemma BodyIsUnread(c: Config, w: Widths, l: LogState)
    requires LogInv(c, w, l) && l.flush.Body? && l.ring.consumer.CLoadWp? && l.flush.entry.size > 0
    ensures l.ring.m.R() != l.ring.m.W()
  {
    LogParts(c, w, l);
    NotIdleReads(w, l.ring.m, l.ring.consumer, l.flush, |l.out|);
    hide LogInv, Inv, MemoryOk, AllRecords, IsRecord, OutOk, FlushOk, WritersOk;
    InsideRecord(c, l.ring.m, |l.out|, 0);
  }

  /** The flush takes its next step, nearer to the end of the record, or hands it out. */
  lemma FlushGoesOn(c: Config, w: Widths, async: bool, l: LogState)
    requires c.Valid() && GoingOn(c, w, l)
    ensures LogEnabled(c, w, l, NextFlush(l)) && IsFlushStep(NextFlush(l))
    ensures var l1 := LogApply(c, w, async, l, NextFlush(l));
      LogInv(c, w, l1) && LockHeld(l1.ring) && Quiet(l1.ring) && l1.ring.m.res == l.ring.m.res &&
      if NextFlush(l).BodyDone? then |l1.out| == |l.out| + 1
      else l1.out == l.out && GoingOn(c, w, l1) && Less(l1, l)
  {
    hide LogInv, LockHeld, Quiet, OnItsWay, ReadLeft, Enabled, Apply, IsReadStep, Decode;
    var l1;
    if !l.ring.consumer.Rest? {
      RingGoesOn(c, w, l);
      ReadIsNoCall(NextFlush(l).a);
      l1 := LogApply(c, w, async, l, NextFlush(l));
      LogStepKeeps(c, w, async, l, NextFlush(l));
    } else if l.flush.Header? {
      BodyIsNext(c, w, async, l);
      l1 := LogApply(c, w, async, l, HeaderDone);
    } else {
      l1 := LogApply(c, w, async, l, BodyDone);
      LogStepKeeps(c, w, async, l, BodyDone);
    }
    SameProducers(l.ring, l1.ring);
  }

  lemma ReadIsNoCall(a: Action)
    requires IsReadStep(a)
    ensures !a.PBegin? && !a.CBegin?
  {
  }

  // ----- what a call of the flush comes to

  /** A call that finds records begins the read of the next. */
  lemma CallBegins(c: Config, w: Widths, async: bool, l: LogState)
    requires c.Valid() && LogInv(c, w, l) && LockHeld(l.ring) && Quiet(l.ring)
    requires l.flush.Idle? && !l.busy && |l.out| < |l.ring.m.res|
    ensures LogEnabled(c, w, l, FlushCall) && GoingOn(c, w, LogApply(c, w, async, l, FlushCall))
    ensures LogApply(c, w, async, l, FlushCall).out == l.out && LogApply(c, w, async, l, FlushCall).ring.m == l.ring.m
  {
    hide LogInv, LockHeld, Quiet, Inv, Draining;
    IdleRests(c, w, l);
    var l1 := LogApply(c, w, async, l, FlushCall);
    LogStepKeeps(c, w, async, l, FlushCall);
    SameProducers(l.ring, l1.ring);
    RecordsUnread(c, w, l1);
    Undrained(c, l1.ring);
  }

  lemma IdleRests(c: Config, w: Widths, l: LogState)
    requires LogInv(c, w, l) && l.flush.Idle?
    ensures l.ring.consumer.Rest?
  {
    hide Inv, IsRecord, AllRecords;
  }

  lemma RecordsUnread(c: Config, w: Widths, l: LogState)
    requires LogInv(c, w, l) && l.flush.Header? && l.ring.consumer.CLoadWp? && |l.out| < |l.ring.m.res|
    ensures l.ring.m.R() != l.ring.m.W()
  {
    LogParts(c, w, l);
    NotIdleReads(w, l.ring.m, l.ring.consumer, l.flush, |l.out|);
    RecordAt(c, w, l.ring.m, |l.out|);
    hide LogInv, Inv, AllRecords, IsRecord, OutOk, FlushOk, WritersOk, DataOf, Decode;
    StandsAtRecord(c, l.ring.m, |l.out|);
    EndWithin(c, l.ring.m, |l.out|);
  }

  lemma EndWithin(c: Config, m: Memory, n: nat)
    requires MemoryOk(c, m) && n < |m.res|
    ensures m.res[n].End() <= m.W()
  {
  }

  /** One record more is out, and the loop goes on or is left as the mode has it. */
  ghost predicate OneMoreOut(c: Config, w: Widths, async: bool, l: LogState, l1: LogState) {
    LogInv(c, w, l1) && LockHeld(l1.ring) && Quiet(l1.ring) && l1.ring.m.res == l.ring.m.res &&
    |l1.out| == |l.out| + 1 && l1.busy == async && l1.flush == (if async then FlushPc.Idle else Header) &&
    (!async ==> l1.ring.consumer == CLoadWp(w.Header(), false))
  }

  lemma BodyIsOut(c: Config, w: Widths, async: bool, l: LogState)
    requires c.Valid() && GoingOn(c, w, l) && NextFlush(l).BodyDone?
    ensures LogEnabled(c, w, l, BodyDone) && OneMoreOut(c, w, async, l, LogApply(c, w, async, l, BodyDone))
  {
    hide LogInv, LockHeld, Quiet, OnItsWay;
    FlushGoesOn(c, w, async, l);
  }

  lemma RunFrom(c: Config, w: Widths, async: bool, l: LogState, a: LogAction, rest: seq<LogAction>)
    requires c.Valid() && LogEnabled(c, w, l, a) && IsLogRun(c, w, async, LogApply(c, w, async, l, a), rest)
    ensures IsLogRun(c, w, async, l, [a] + rest)
    ensures LogFinal(c, w, async, l, [a] + rest) == LogFinal(c, w, async, LogApply(c, w, async, l, a), rest)
  {
    hide LogEnabled, LogApply;
    assert ([a] + rest)[1..] == rest;
  }

  lemma {:induction false} HandsOutOne(c: Config, w: Widths, async: bool, l: LogState) returns (run: seq<LogAction>)
    requires c.Valid() && GoingOn(c, w, l)
    ensures IsLogRun(c, w, async, l, run) && forall i :: 0 <= i < |run| ==> IsFlushStep(run[i])
    ensures OneMoreOut(c, w, async, l, LogFinal(c, w, async, l, run))
    decreases if l.flush.Header? then 1 else 0, ReadLeft(l.ring)
  {
    hide GoingOn, IsFlushStep, ReadLeft, LogEnabled, LogApply, NextFlush, Less, OneMoreOut, LogInv, LockHeld, Quiet;
    FlushGoesOn(c, w, async, l);
    var a := NextFlush(l);
    var l1 := LogApply(c, w, async, l, a);
    var rest := [];
    if a.BodyDone? {
      BodyIsOut(c, w, async, l);
    } else {
      Runs(c, w, l);
      Runs(c, w, l1);
      LessIs(l1, l);
      rest := HandsOutOne(c, w, async, l1);
      OutCarries(c, w, async, l, l1, LogFinal(c, w, async, l1, rest));
    }
    RunFrom(c, w, async, l, a, rest);
    run := [a] + rest;
  }

  lemma Runs(c: Config, w: Widths, l: LogState)
    requires GoingOn(c, w, l)
    ensures !l.flush.Idle?
  {
    hide LogInv;
  }

  lemma OutCarries(c: Config, w: Widths, async: bool, l: LogState, l1: LogState, l2: LogState)
    requires OneMoreOut(c, w, async, l1, l2) && l1.out == l.out && l1.ring.m.res == l.ring.m.res
    ensures OneMoreOut(c, w, async, l, l2)
  {
    hide LogInv, LockHeld, Quiet;
  }

  lemma LessIs(l1: LogState, l: LogState)
    requires Less(l1, l) && !l.flush.Idle? && !l1.flush.Idle?
    ensures (l.flush.Header? && !l1.flush.Header?) || (l.flush.Header? == l1.flush.Header? && ReadLeft(l1.ring) < ReadLeft(l.ring))
  {
  }

  lemma StepKeepsLogLock(c: Config, w: Widths, async: bool, l: LogState, a: LogAction)
    requires c.Valid() && LockHeld(l.ring) && LogEnabled(c, w, l, a)
    ensures LockHeld(LogApply(c, w, async, l, a).ring)
  {
    hide Apply, Enabled, LockHeld;
    match a
    case Write(p, e, body) => StepKeepsLock(c, l.ring, PBegin(p, Encode(w, e) + body));
    case Ring(b) => StepKeepsLock(c, l.ring, b);
    case _ => SameLock(l.ring, LogApply(c, w, async, l, a).ring);
  }

  lemma SameLock(s: State, s1: State)
    requires LockHeld(s) && s1.ps == s.ps && s1.m.wp == s.m.wp
    ensures LockHeld(s1)
  {
  }

  lemma {:induction false} RunKeepsLogLock(c: Config, w: Widths, async: bool, l: LogState, run: seq<LogAction>)
    requires c.Valid() && LockHeld(l.ring) && IsLogRun(c, w, async, l, run)
    ensures LockHeld(LogFinal(c, w, async, l, run).ring)
    decreases |run|
  {
    hide LockHeld, LogApply, LogEnabled;
    if run != [] {
      StepKeepsLogLock(c, w, async, l, run[0]);
      RunKeepsLogLock(c, w, async, LogApply(c, w, async, l, run[0]), run[1..]);
    }
  }

  /** After any run from the start: while no writer is in a call and the output is not busy, a
      call of the flush that finds a record hands the next one out, and in synchronous mode
      goes on to the one after. */
  lemma FlushHandsOut(c: Config, w: Widths, async: bool, l0: LogState, before: seq<LogAction>) returns (run: seq<LogAction>)
    requires c.Valid() && w.Header() > 0 && LogInit(c, l0) && IsLogRun(c, w, async, l0, before)
    requires var l := LogFinal(c, w, async, l0, before);
      Quiet(l.ring) && l.flush.Idle? && !l.busy && |l.out| < |l.ring.m.res|
    ensures var l := LogFinal(c, w, async, l0, before);
      IsLogRun(c, w, async, l, [FlushCall] + run) && (forall i :: 0 <= i < |run| ==> IsFlushStep(run[i])) &&
      OneMoreOut(c, w, async, l, LogFinal(c, w, async, l, [FlushCall] + run))
  {
    LogReachable(c, w, async, l0, before);
    hide LogInv, LockHeld, Quiet, IsLogRun, LogFinal, LogInit, OneMoreOut, GoingOn, LogEnabled, LogApply;
    var l := LogFinal(c, w, async, l0, before);
    CallBegins(c, w, async, l);
    var l1 := LogApply(c, w, async, l, FlushCall);
    run := HandsOutOne(c, w, async, l1);
    RunFrom(c, w, async, l, FlushCall, run);
    OutCarries(c, w, async, l, l1, LogFinal(c, w, async, l1, run));
  }

  // ----- the flush ends only where nothing is left

  /** While the flush runs, no other of its steps can happen than the next one; and while it
      does not, none. */
  lemma OnlyNextFlush(c: Config, w: Widths, l: LogState, a: LogAction)
    requires c.Valid() && LogEnabled(c, w, l, a) && IsFlushStep(a)
    ensures a == NextFlush(l)
    ensures l.flush.Idle? ==> !l.ring.consumer.Rest?
  {
    hide Limit, Slot;
  }

  /** In synchronous mode: a flush that runs while no writer does, with records before it or
      none left. */
  ghost predicate Settled(c: Config, w: Widths, l: LogState) {
    LogInv(c, w, l) && LockHeld(l.ring) && Quiet(l.ring) && (|l.out| < |l.ring.m.res| ==> GoingOn(c, w, l))
  }

  lemma TurnGoesOn(c: Config, w: Widths, l: LogState, l1: LogState)
    requires OneMoreOut(c, w, false, l, l1) && |l1.out| < |l1.ring.m.res|
    ensures GoingOn(c, w, l1)
  {
    hide LogInv, LockHeld, Quiet, Draining;
    RecordsUnread(c, w, l1);
    Undrained(c, l1.ring);
  }

  lemma FlushLeavesHistory(c: Config, w: Widths, async: bool, l: LogState, a: LogAction)
    requires c.Valid() && LogEnabled(c, w, l, a) && IsFlushStep(a)
    ensures var l1 := LogApply(c, w, async, l, a);
      l1.ring.ps == l.ring.ps && l1.ring.m.res == l.ring.m.res && l1.ring.m.wp == l.ring.m.wp && |l1.out| >= |l.out|
  {
    hide Apply, Enabled, IsReadStep;
    if a.Ring? { ReadLeavesWord(c, l.ring, a.a); }
  }

  lemma StepSettled(c: Config, w: Widths, l: LogState, a: LogAction)
    requires c.Valid() && Settled(c, w, l) && LogEnabled(c, w, l, a) && IsFlushStep(a)
    ensures Settled(c, w, LogApply(c, w, false, l, a))
  {
    hide LogInv, LockHeld, Quiet, LogEnabled, LogApply, NextFlush, GoingOn, OneMoreOut, Less, IsFlushStep;
    var l1 := LogApply(c, w, false, l, a);
    FlushLeavesHistory(c, w, false, l, a);
    SameProducers(l.ring, l1.ring);
    LogStepKeeps(c, w, false, l, a);
    if |l.out| < |l.ring.m.res| {
      OnlyNextFlush(c, w, l, a);
      FlushGoesOn(c, w, false, l);
      if a.BodyDone? {
        BodyIsOut(c, w, false, l);
        if |l1.out| < |l1.ring.m.res| { TurnGoesOn(c, w, l, l1); }
      }
    } else {
      OutWithin(c, w, l1);
    }
  }

  lemma OutWithin(c: Config, w: Widths, l: LogState)
    requires LogInv(c, w, l)
    ensures |l.out| <= |l.ring.m.res|
  {
    LogParts(c, w, l);
  }

  lemma {:induction false} RunSettled(c: Config, w: Widths, l: LogState, run: seq<LogAction>)
    requires c.Valid() && Settled(c, w, l) && IsLogRun(c, w, false, l, run)
    requires forall i :: 0 <= i < |run| ==> IsFlushStep(run[i])
    ensures Settled(c, w, LogFinal(c, w, false, l, run))
    decreases |run|
  {
    hide Settled, LogEnabled, LogApply, IsFlushStep;
    if run != [] {
      StepSettled(c, w, l, run[0]);
      RunSettled(c, w, LogApply(c, w, false, l, run[0]), run[1..]);
    }
  }

  /** In synchronous mode, while no writer is in a call, a call of the flush that is not busy
      has ended only when every record is out. */
  lemma SyncFlushEndsEmpty(c: Config, w: Widths, l0: LogState, before: seq<LogAction>, run: seq<LogAction>)
    requires c.Valid() && w.Header() > 0 && LogInit(c, l0) && IsLogRun(c, w, false, l0, before)
    requires var l := LogFinal(c, w, false, l0, before);
      Quiet(l.ring) && l.flush.Idle? && !l.busy && |l.out| < |l.ring.m.res| &&
      IsLogRun(c, w, false, l, [FlushCall] + run) && forall i :: 0 <= i < |run| ==> IsFlushStep(run[i])
    ensures var l1 := LogFinal(c, w, false, LogFinal(c, w, false, l0, before), [FlushCall] + run);
      l1.flush.Idle? ==> |l1.out| == |l1.ring.m.res|
  {
    hide LogInv, LockHeld, Quiet, LogInit, LogEnabled, LogApply, GoingOn, IsLogRun, LogFinal, IsFlushStep, Settled;
    LogReachable(c, w, false, l0, before);
    var l := LogFinal(c, w, false, l0, before);
    CallBegins(c, w, false, l);
    var l1 := LogApply(c, w, false, l, FlushCall);
    RunSplits(c, w, false, l, FlushCall, run);
    Started(c, w, l1);
    RunSettled(c, w, l1, run);
    var l2 := LogFinal(c, w, false, l1, run);
    if l2.flush.Idle? { AtTheEnd(c, w, l2); }
  }

  lemma LogReachable(c: Config, w: Widths, async: bool, l0: LogState, before: seq<LogAction>)
    requires c.Valid() && w.Header() > 0 && LogInit(c, l0) && IsLogRun(c, w, async, l0, before)
    ensures LogInv(c, w, LogFinal(c, w, async, l0, before)) && LockHeld(LogFinal(c, w, async, l0, before).ring)
  {
    InitLogInv(c, w, l0);
    LogRunKeeps(c, w, async, l0, before);
    RunKeepsLogLock(c, w, async, l0, before);
    hide LogInv;
  }

  lemma RunSplits(c: Config, w: Widths, async: bool, l: LogState, a: LogAction, rest: seq<LogAction>)
    requires c.Valid() && IsLogRun(c, w, async, l, [a] + rest)
    ensures LogEnabled(c, w, l, a) && IsLogRun(c, w, async, LogApply(c, w, async, l, a), rest)
    ensures LogFinal(c, w, async, l, [a] + rest) == LogFinal(c, w, async, LogApply(c, w, async, l, a), rest)
  {
    hide LogEnabled, LogApply;
    assert ([a] + rest)[1..] == rest;
  }

  lemma Started(c: Config, w: Widths, l: LogState)
    requires GoingOn(c, w, l)
    ensures Settled(c, w, l)
  {
    hide LogInv, LockHeld, Quiet, OnItsWay;
  }

  lemma AtTheEnd(c: Config, w: Widths, l: LogState)
    requires Settled(c, w, l) && l.flush.Idle?
    ensures |l.out| == |l.ring.m.res|
  {
    OutWithin(c, w, l);
    hide LogInv, LockHeld, Quiet, OnItsWay;
  }

  /** With every record out, the flush finds nothing and is left. */
  lemma EmptyTurn(c: Config, w: Widths, async: bool, l: LogState)
    requires c.Valid() && LogInv(c, w, l) && LockHeld(l.ring) && Quiet(l.ring) && |l.out| == |l.ring.m.res|
    requires l.flush.Header? && l.ring.consumer == CLoadWp(w.Header(), false)
    ensures var run := [Ring(CLoad), HeaderDone];
      IsLogRun(c, w, async, l, run) && LogFinal(c, w, async, l, run).flush.Idle? &&
      LogFinal(c, w, async, l, run).out == l.out && LogFinal(c, w, async, l, run).ring.m == l.ring.m
  {
    NobodyLocks(l.ring);
    NothingUnread(c, w, l);
    var l1 := LogApply(c, w, async, l, Ring(CLoad));
    assert l1.ring.consumer == Rest(w.Header(), []);
    hide LogInv, LockHeld, Quiet;
    var run := [Ring(CLoad), HeaderDone];
    assert run[1..] == [HeaderDone] && run[1..][1..] == [];
  }

  lemma NothingUnread(c: Config, w: Widths, l: LogState)
    requires LogInv(c, w, l) && l.flush.Header? && l.ring.consumer.CLoadWp? && |l.out| == |l.ring.m.res|
    ensures l.ring.m.rp == l.ring.m.wp.off
  {
    LogParts(c, w, l);
    NotIdleReads(w, l.ring.m, l.ring.consumer, l.flush, |l.out|);
    TotalIsLast(c, l.ring.m);
    LevelOffsets(c, l.ring.m);
    hide LogInv, Inv, AllRecords, IsRecord, OutOk, FlushOk, WritersOk;
    AllTaken(c, l.ring.m);
  }

  lemma TotalIsLast(c: Config, m: Memory)
    requires MemoryOk(c, m)
    ensures PosBefore(m.res, |m.res|) == |m.stream|
  {
  }

  lemma AllTaken(c: Config, m: Memory)
    requires MemoryOk(c, m) && |m.taken| == |m.stream|
    ensures m.R() == m.W()
  {
    var n := |m.res|;
    if n > 0 { ResIsOk(c, m, n - 1); }
    hide BasesOk, DoneOk, ContentOk, RingOk;
  }

  lemma {:induction false} RunsJoin(c: Config, w: Widths, async: bool, l: LogState, a: seq<LogAction>, b: seq<LogAction>)
    requires c.Valid() && IsLogRun(c, w, async, l, a) && IsLogRun(c, w, async, LogFinal(c, w, async, l, a), b)
    ensures IsLogRun(c, w, async, l, a + b)
    ensures LogFinal(c, w, async, l, a + b) == LogFinal(c, w, async, LogFinal(c, w, async, l, a), b)
    decreases |a|
  {
    hide LogEnabled, LogApply;
    if a == [] {
      assert a + b == b;
    } else {
      RunsJoin(c, w, async, LogApply(c, w, async, l, a[0]), a[1..], b);
      assert (a + b)[1..] == a[1..] + b;
    }
  }

  /** In synchronous mode the flush does get there: it hands out all there is, and is left. */
  lemma {:induction false} EmptiesAll(c: Config, w: Widths, l: LogState) returns (run: seq<LogAction>)
    requires c.Valid() && GoingOn(c, w, l)
    ensures IsLogRun(c, w, false, l, run) && forall i :: 0 <= i < |run| ==> IsFlushStep(run[i])
    ensures var l1 := LogFinal(c, w, false, l, run);
      l1.flush.Idle? && |l1.out| == |l1.ring.m.res| && l1.ring.m.res == l.ring.m.res
    decreases |l.ring.m.res| - |l.out|
  {
    hide LogInv, LockHeld, Quiet, LogEnabled, LogApply, GoingOn, IsLogRun, LogFinal, IsFlushStep, OneMoreOut;
    var first := HandsOutOne(c, w, false, l);
    var l1 := LogFinal(c, w, false, l, first);
    OneMoreParts(c, w, l, l1);
    var rest;
    if |l1.out| < |l1.ring.m.res| {
      TurnGoesOn(c, w, l, l1);
      rest := EmptiesAll(c, w, l1);
    } else {
      EmptyTurn(c, w, false, l1);
      rest := [Ring(CLoad), HeaderDone];
      LastSteps();
    }
    RunsJoin(c, w, false, l, first, rest);
    run := first + rest;
  }

  lemma OneMoreParts(c: Config, w: Widths, l: LogState, l1: LogState)
    requires OneMoreOut(c, w, false, l, l1)
    ensures LogInv(c, w, l1) && LockHeld(l1.ring) && Quiet(l1.ring) && l1.ring.m.res == l.ring.m.res
    ensures |l.out| < |l1.out| <= |l1.ring.m.res| && l1.flush.Header? && l1.ring.consumer == CLoadWp(w.Header(), false)
  {
    OutWithin(c, w, l1);
    hide LogInv, LockHeld, Quiet;
  }

  lemma LastSteps()
    ensures IsFlushStep(Ring(CLoad)) && IsFlushStep(HeaderDone)
  {
  }

  /** So a call in synchronous mode, while no writer is in one, can always hand out all. */
  lemma SyncFlushEmpties(c: Config, w: Widths, l0: LogState, before: seq<LogAction>) returns (run: seq<LogAction>)
    requires c.Valid() && w.Header() > 0 && LogInit(c, l0) && IsLogRun(c, w, false, l0, before)
    requires var l := LogFinal(c, w, false, l0, before);
      Quiet(l.ring) && l.flush.Idle? && !l.busy && |l.out| < |l.ring.m.res|
    ensures var l := LogFinal(c, w, false, l0, before);
      IsLogRun(c, w, false, l, [FlushCall] + run) && (forall i :: 0 <= i < |run| ==> IsFlushStep(run[i])) &&
      var l1 := LogFinal(c, w, false, l, [FlushCall] + run);
      l1.flush.Idle? && |l1.out| == |l1.ring.m.res| == |l.ring.m.res|
  {
    hide LogInv, LockHeld, Quiet, LogInit, LogEnabled, LogApply, GoingOn, IsLogRun, LogFinal, IsFlushStep;
    LogReachable(c, w, false, l0, before);
    var l := LogFinal(c, w, false, l0, before);
    CallBegins(c, w, false, l);
    run := EmptiesAll(c, w, LogApply(c, w, false, l, FlushCall));
    RunFrom(c, w, false, l, FlushCall, run);
  }
}
