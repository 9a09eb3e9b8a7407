/** What comes out of `log_flush_bin`, in every interleaving of writers with the flush. */
module LogTheorems {
  import opened Basics
  import opened MpscModel
  import opened MpscInvariant
  import opened MpscProducer
  import opened MpscConsumer
  import opened MpscTheorems
  import opened LogModel
  import opened LogProofs

  predicate IsWriteStep(a: Action) {
    !IsReadStep(a) && !a.PBegin? && !a.CBegin?
  }

  /** The parts of the invariant, taken apart and put together. */
  lemma LogParts(c: Config, w: Widths, l: LogState)
    requires LogInv(c, w, l)
    ensures w.Header() > 0 && Inv(c, l.ring) && MemoryOk(c, l.ring.m) && WritersOk(w, l.ring.ps) && AllRecords(w, l.ring.m)
    ensures |l.out| <= |l.ring.m.res| && OutOk(w, l.ring.m, l.out) && FlushOk(w, l.ring.m, l.ring.consumer, l.flush, |l.out|)
  {
    hide AllRecords, IsRecord, FlushOk, WritersOk;
  }

  lemma LogAssembles(c: Config, w: Widths, l: LogState)
    requires w.Header() > 0 && Inv(c, l.ring) && WritersOk(w, l.ring.ps) && AllRecords(w, l.ring.m) && |l.out| <= |l.ring.m.res|
    requires OutOk(w, l.ring.m, l.out) && FlushOk(w, l.ring.m, l.ring.consumer, l.flush, |l.out|)
    ensures LogInv(c, w, l)
  {
    hide Inv, AllRecords, IsRecord, FlushOk, WritersOk, OutOk;
  }

  lemma WritersStay(w: Widths, ps: seq<Producer>, ps1: seq<Producer>, p: nat)
    requires WritersOk(w, ps) && |ps1| == |ps| && p < |ps| && ps1[p].data == ps[p].data
    requires forall i :: 0 <= i < |ps| && i != p ==> ps1[i] == ps[i]
    requires !ps1[p].pc.Out? && !ps1[p].pc.Registering? ==> !ps[p].pc.Out? && !ps[p].pc.Registering?
    ensures WritersOk(w, ps1)
  {
    hide IsRecord;
  }

  lemma WriterHasRecord(w: Widths, ps: seq<Producer>, p: nat)
    requires WritersOk(w, ps) && p < |ps| && ps[p].pc.Decide?
    ensures IsRecord(w, ps[p].data)
  {
    hide IsRecord;
  }

  /** A writer's step adds at most one reservation, which holds what the writer was given. */
  lemma WriteStepFrame(c: Config, s: State, a: Action)
    requires c.Valid() && Enabled(c, s, a) && IsWriteStep(a)
    ensures var s1 := Apply(c, s, a);
      && s1.consumer == s.consumer && a.p < |s.ps| == |s1.ps| && s1.ps[a.p].data == s.ps[a.p].data
      && (forall p :: 0 <= p < |s.ps| && p != a.p ==> s1.ps[p] == s.ps[p])
      && (!s1.ps[a.p].pc.Out? && !s1.ps[a.p].pc.Registering? ==> !s.ps[a.p].pc.Out? && !s.ps[a.p].pc.Registering?)
      && s1.m.taken == s.m.taken
      && (if a.PCas? && CasWins(s, a.p, a.spurious) then !s.ps[a.p].pc.Out? && s1 == Won(c, s, a.p)
          else s1.m.res == s.m.res && s1.m.stream == s.m.stream)
  {
  }

  lemma WinnerFrame(c: Config, s: State, p: nat)
    requires c.Valid() && p < |s.ps| && s.ps[p].pc.Decide? && TargetOf(c, s, p).Some?
    ensures var m1 := Won(c, s, p).m;
      && |m1.res| == |s.m.res| + 1 && s.m.res <= m1.res && m1.stream == s.m.stream + s.ps[p].data
      && m1.res[|s.m.res|].pos == |s.m.stream| && m1.res[|s.m.res|].size == |s.ps[p].data|
  {
  }

  lemma NewRecord(c: Config, w: Widths, m: Memory, m1: Memory, data: seq<Byte>)
    requires MemoryOk(c, m) && AllRecords(w, m) && IsRecord(w, data) && m1.taken == m.taken
    requires |m1.res| == |m.res| + 1 && m.res <= m1.res && m1.stream == m.stream + data
    requires m1.res[|m.res|].pos == |m.stream| && m1.res[|m.res|].size == |data|
    ensures AllRecords(w, m1) && Grows(m, m1)
  {
    forall i | 0 <= i < |m1.res| ensures IsRecord(w, DataOf(m1, i)) {
      if i < |m.res| {
        GrowthKeepsRecords(c, w, m, m1, i);
        assert IsRecord(w, DataOf(m, i));
      } else {
        assert DataOf(m1, i) == data;
      }
    }
  }

  lemma SameRecords(w: Widths, m: Memory, m1: Memory)
    requires AllRecords(w, m) && m1.res == m.res && m1.stream == m.stream
    ensures AllRecords(w, m1)
    ensures forall i :: 0 <= i < |m.res| ==> DataOf(m1, i) == DataOf(m, i)
  {
    assert forall i :: 0 <= i < |m.res| ==> DataOf(m1, i) == DataOf(m, i);
  }

  lemma WriteStepKeeps(c: Config, w: Widths, l: LogState, a: Action)
    requires LogInv(c, w, l) && c.Valid() && Enabled(c, l.ring, a) && IsWriteStep(a)
    ensures LogInv(c, w, l.(ring := Apply(c, l.ring, a)))
  {
    var s, s1 := l.ring, Apply(c, l.ring, a);
    hide LogInv, Inv, MemoryOk, IsRecord, OutOk, FlushOk, Apply, AllRecords, IsWriteStep, WritersOk, Grows;
    LogParts(c, w, l);
    StepKeepsInv(c, s, a);
    WriteStepFrame(c, s, a);
    WritersStay(w, s.ps, s1.ps, a.p);
    StoredRecords(c, w, s, s1, a);
    GrowthKeepsOut(c, w, s.m, s1.m, l.out);
    OutIsWithin(w, s1.m, l.out);
    GrowthKeepsFlush(c, w, s.m, s1.m, l.ring.consumer, l.flush, |l.out|);
    LogAssembles(c, w, l.(ring := s1));
  }

  lemma StoredRecords(c: Config, w: Widths, s: State, s1: State, a: Action)
    requires c.Valid() && MemoryOk(c, s.m) && AllRecords(w, s.m) && WritersOk(w, s.ps) && s1.m.taken == s.m.taken
    requires IsWriteStep(a) && Enabled(c, s, a)
    requires if a.PCas? && CasWins(s, a.p, a.spurious) then s1 == Won(c, s, a.p)
      else s1.m.res == s.m.res && s1.m.stream == s.m.stream
    ensures AllRecords(w, s1.m) && Grows(s.m, s1.m)
  {
    hide MemoryOk, AllRecords, WritersOk, IsRecord;
    if a.PCas? && CasWins(s, a.p, a.spurious) {
      WriterHasRecord(w, s.ps, a.p);
      WinnerFrame(c, s, a.p);
      hide Won;
      NewRecord(c, w, s.m, s1.m, s.ps[a.p].data);
    } else {
      SameRecords(w, s.m, s1.m);
    }
  }

  lemma OutIsWithin(w: Widths, m: Memory, out: seq<Record>)
    requires AllRecords(w, m) && OutOk(w, m, out)
    ensures |out| <= |m.res|
  {
  }

  lemma BeginWriteKeeps(c: Config, w: Widths, l: LogState, p: nat, data: seq<Byte>)
    requires LogInv(c, w, l) && c.Valid() && Enabled(c, l.ring, PBegin(p, data)) && IsRecord(w, data)
    ensures LogInv(c, w, l.(ring := Apply(c, l.ring, PBegin(p, data))))
  {
    BeginKeeps(c, l.ring, p, data);
    hide Inv, IsRecord, OutOk, FlushOk, AllRecords;
  }

  // ----- the consumer

  lemma SameOut(w: Widths, m: Memory, m1: Memory, out: seq<Record>)
    requires AllRecords(w, m) && OutOk(w, m, out) && m1.res == m.res && m1.stream == m.stream && AllRecords(w, m1)
    ensures OutOk(w, m1, out)
  {
    forall k | 0 <= k < |out| ensures out[k] == RecordOf(w, m1, k) {
      assert DataOf(m1, k) == DataOf(m, k);
      assert out[k] == RecordOf(w, m, k);
    }
  }

  lemma NotIdleReads(w: Widths, m: Memory, k: ConsumerPc, flush: FlushPc, n: nat)
    requires AllRecords(w, m) && n <= |m.res| && FlushOk(w, m, k, flush, n) && !k.Rest?
    ensures flush.Header? ==> Reading(m, k, w.Header(), PosBefore(m.res, n))
    ensures flush.Body? ==> n < |m.res| && flush.entry == RecordOf(w, m, n).entry && flush.entry.size + w.Header() == m.res[n].size
    ensures flush.Body? ==> Reading(m, k, flush.entry.size, m.res[n].pos + w.Header()) && (k.Copy? ==> k.n == flush.entry.size)
    ensures !flush.Idle?
  {
  }

  /** A read step during the flush of a body leads to the end of the whole body. */
  lemma BodyStep(c: Config, w: Widths, s: State, a: Action, n: nat, e: Entry)
    requires Inv(c, s) && c.Valid() && Enabled(c, s, a) && IsReadStep(a) && AllRecords(w, s.m) && n < |s.m.res| && w.Header() > 0
    requires e == RecordOf(w, s.m, n).entry && e.size + w.Header() == s.m.res[n].size
    requires Reading(s.m, s.consumer, e.size, s.m.res[n].pos + w.Header()) && (s.consumer.Copy? ==> s.consumer.n == e.size)
    ensures var s1 := Apply(c, s, a);
      AllRecords(w, s1.m) && |s1.m.res| == |s.m.res| && FlushOk(w, s1.m, s1.consumer, Body(e), n)
  {
    hide Inv, MemoryOk, AllRecords, Apply, Enabled, IsReadStep, FlushOk, IsRecord, Decode, Reading;
    var s1, at := Apply(c, s, a), s.m.res[n].pos + w.Header();
    InvMemory(c, s);
    StepKeepsInv(c, s, a);
    InvMemory(c, s1);
    ReadStep(c, s, a, e.size, at);
    SameRecords(w, s.m, s1.m);
    SameRecord(w, s.m, s1.m, n);
    ReadingAt(s.m, s.consumer, e.size, at);
    if e.size > 0 { RestOfRecord(c, s, a, n, e.size); }
    EmptyRead(s1.m, s1.consumer, e.size, at);
    BodyEnds(c, w, s1.m, s1.consumer, n, e);
  }

  lemma InvMemory(c: Config, s: State)
    requires Inv(c, s)
    ensures MemoryOk(c, s.m)
  {
  }

  lemma ReadingAt(m: Memory, k: ConsumerPc, want: nat, at: nat)
    requires Reading(m, k, want, at)
    ensures |m.taken| == at
  {
  }

  lemma SameRecord(w: Widths, m: Memory, m1: Memory, n: nat)
    requires AllRecords(w, m) && AllRecords(w, m1) && m1.res == m.res && m1.stream == m.stream && n < |m.res|
    ensures IsRecord(w, DataOf(m, n)) && IsRecord(w, DataOf(m1, n)) && RecordOf(w, m1, n) == RecordOf(w, m, n)
  {
    assert DataOf(m1, n) == DataOf(m, n);
    assert IsRecord(w, DataOf(m, n));
  }

  lemma EmptyRead(m: Memory, k: ConsumerPc, want: nat, at: nat)
    requires Reading(m, k, want, at) || ReadEnded(m, k, want, at)
    ensures want == 0 ==> (k.Copy? ==> k.n == 0) && (k.Rest? ==> k.got == [])
  {
  }

  lemma HeaderStep(c: Config, w: Widths, s: State, a: Action, n: nat)
    requires Inv(c, s) && c.Valid() && Enabled(c, s, a) && IsReadStep(a) && AllRecords(w, s.m) && n <= |s.m.res| && w.Header() > 0
    requires Reading(s.m, s.consumer, w.Header(), PosBefore(s.m.res, n))
    ensures var s1 := Apply(c, s, a);
      s1.m.res == s.m.res && AllRecords(w, s1.m) && FlushOk(w, s1.m, s1.consumer, Header, n)
  {
    var s1 := Apply(c, s, a);
    StepKeepsInv(c, s, a);
    InvMemory(c, s1);
    hide Inv, MemoryOk, IsRecord, FlushOk, Apply, AllRecords, IsReadStep, Reading, Enabled, ReadEnded, PosBefore;
    ReadStep(c, s, a, w.Header(), PosBefore(s.m.res, n));
    SameRecords(w, s.m, s1.m);
    SamePlace(s.m, s1.m, n);
    HeaderEnds(c, w, s1.m, s1.consumer, n);
  }

  lemma SamePlace(m: Memory, m1: Memory, n: nat)
    requires n <= |m.res| && m1.res == m.res
    ensures PosBefore(m1.res, n) == PosBefore(m.res, n)
  {
  }

  lemma ReadStepKeeps(c: Config, w: Widths, l: LogState, a: Action)
    requires LogInv(c, w, l) && c.Valid() && Enabled(c, l.ring, a) && IsReadStep(a)
    ensures LogInv(c, w, l.(ring := Apply(c, l.ring, a)))
  {
    var s, s1, n := l.ring, Apply(c, l.ring, a), |l.out|;
    assert MemoryOk(c, s.m) && n <= |s.m.res|;
    ReadsAreNotRest(c, s, a);
    StepKeepsInv(c, s, a);
    assert MemoryOk(c, s1.m);
    NotIdleReads(w, s.m, s.consumer, l.flush, n);
    hide Inv, MemoryOk, IsRecord, OutOk, FlushOk, Apply, AllRecords, IsReadStep, Reading, Enabled, ReadEnded, PosBefore;
    if l.flush.Header? {
      HeaderStep(c, w, s, a, n);
      ReadStep(c, s, a, w.Header(), PosBefore(s.m.res, n));
    } else {
      ReadStep(c, s, a, l.flush.entry.size, s.m.res[n].pos + w.Header());
      BodyStep(c, w, s, a, n, l.flush.entry);
    }
    SameOut(w, s.m, s1.m, l.out);
  }

  lemma ReadsAreNotRest(c: Config, s: State, a: Action)
    requires c.Valid() && Enabled(c, s, a) && IsReadStep(a)
    ensures !s.consumer.Rest?
  {
  }

  // ----- the loop of the flush

  lemma BeginReadKeeps(c: Config, s: State, want: nat)
    requires Inv(c, s) && s.consumer.Rest?
    ensures Inv(c, s.(consumer := CLoadWp(want, false)))
  {
    ConsumerLocal(c, s, CLoadWp(want, false));
  }

  /** A turn of the loop starts with everything before the next record read. */
  lemma TurnKeeps(c: Config, w: Widths, l: LogState)
    requires w.Header() > 0 && Inv(c, l.ring) && WritersOk(w, l.ring.ps) && AllRecords(w, l.ring.m)
    requires OutOk(w, l.ring.m, l.out) && l.ring.consumer.Rest? && |l.ring.m.taken| == PosBefore(l.ring.m.res, |l.out|)
    ensures LogInv(c, w, Turn(w, l))
  {
    BeginReadKeeps(c, l.ring, w.Header());
    hide Inv, AllRecords, IsRecord, WritersOk;
  }

  lemma FlushCallKeeps(c: Config, w: Widths, l: LogState)
    requires LogInv(c, w, l) && l.flush.Idle? && l.ring.consumer.Rest?
    ensures LogInv(c, w, Turn(w, l))
  {
    TurnKeeps(c, w, l);
  }

  /** A header that is read announces the next record; the read of its body begins. */
  lemma HeaderDoneKeeps(c: Config, w: Widths, async: bool, l: LogState)
    requires LogInv(c, w, l) && c.Valid() && l.flush.Header? && l.ring.consumer.Rest?
    ensures |l.ring.consumer.got| == 0 || |l.ring.consumer.got| == w.Header()
    ensures LogEnabled(c, w, l, HeaderDone) && LogInv(c, w, LogApply(c, w, async, l, HeaderDone))
  {
    hide LogInv, Inv, MemoryOk, AllRecords, IsRecord, WritersOk, Decode, DataOf, OutOk;
    var n, m, got := |l.out|, l.ring.m, l.ring.consumer.got;
    LogParts(c, w, l);
    if got != [] {
      RecordAt(c, w, m, n);
      BeginReadKeeps(c, l.ring, Decode(w, got).size);
    }
    LogAssembles(c, w, LogApply(c, w, async, l, HeaderDone));
  }

  /** The record that has been read is the next one, whole. */
  lemma BodyDoneKeeps(c: Config, w: Widths, async: bool, l: LogState)
    requires LogInv(c, w, l) && c.Valid() && l.flush.Body? && l.ring.consumer.Rest?
    ensures |l.ring.consumer.got| == l.flush.entry.size
    ensures LogEnabled(c, w, l, BodyDone) && LogInv(c, w, LogApply(c, w, async, l, BodyDone))
  {
    hide LogInv, Inv, MemoryOk, AllRecords, IsRecord, WritersOk, RecordOf, OutOk, PosBefore, Turn;
    LogParts(c, w, l);
    var n, m := |l.out|, l.ring.m;
    RecordAt(c, w, m, n);
    var r := Record(l.flush.entry, l.ring.consumer.got);
    assert r == RecordOf(w, m, n);
    hide FlushOk;
    OutGrows(w, m, l.out);
    TurnKeeps(c, w, l.(out := l.out + [r], busy := async));
  }

  lemma OutGrows(w: Widths, m: Memory, out: seq<Record>)
    requires AllRecords(w, m) && OutOk(w, m, out) && |out| < |m.res|
    ensures OutOk(w, m, out + [RecordOf(w, m, |out|)])
  {
  }

  lemma LogStepKeeps(c: Config, w: Widths, async: bool, l: LogState, a: LogAction)
    requires LogInv(c, w, l) && c.Valid() && LogEnabled(c, w, l, a)
    ensures LogInv(c, w, LogApply(c, w, async, l, a))
  {
    hide LogInv, Enabled, Apply, Turn, IsRecord;
    match a
    case Write(p, e, body) =>
      WrittenIsRecord(w, e, body);
      BeginWriteKeeps(c, w, l, p, Encode(w, e) + body);
    case Ring(b) => if IsReadStep(b) { ReadStepKeeps(c, w, l, b); } else { WriteStepKeeps(c, w, l, b); }
    case FlushCall => FlushCallKeeps(c, w, l);
    case HeaderDone => HeaderDoneKeeps(c, w, async, l);
    case BodyDone => BodyDoneKeeps(c, w, async, l);
    case NotBusy => BusyIsFree(c, w, l);
  }

  lemma BusyIsFree(c: Config, w: Widths, l: LogState)
    requires LogInv(c, w, l)
    ensures LogInv(c, w, l.(busy := false))
  {
  }

  // ----- runs of the log

  ghost predicate IsLogRun(c: Config, w: Widths, async: bool, l: LogState, run: seq<LogAction>)
    requires c.Valid()
    decreases |run|
  {
    run == [] || (LogEnabled(c, w, l, run[0]) && IsLogRun(c, w, async, LogApply(c, w, async, l, run[0]), run[1..]))
  }

  ghost function LogFinal(c: Config, w: Widths, async: bool, l: LogState, run: seq<LogAction>): LogState
    requires c.Valid() && IsLogRun(c, w, async, l, run)
    decreases |run|
  {
    if run == [] then l else LogFinal(c, w, async, LogApply(c, w, async, l, run[0]), run[1..])
  }

  lemma {:induction false} LogRunKeeps(c: Config, w: Widths, async: bool, l: LogState, run: seq<LogAction>)
    requires c.Valid() && LogInv(c, w, l) && IsLogRun(c, w, async, l, run)
    ensures LogInv(c, w, LogFinal(c, w, async, l, run))
    decreases |run|
  {
    hide LogInv, LogEnabled, LogApply;
    if run != [] {
      LogStepKeeps(c, w, async, l, run[0]);
      LogRunKeeps(c, w, async, LogApply(c, w, async, l, run[0]), run[1..]);
    }
  }

  lemma InitLogInv(c: Config, w: Widths, l: LogState)
    requires c.Valid() && w.Header() > 0 && LogInit(c, l)
    ensures LogInv(c, w, l)
  {
    InitInv(c, l.ring);
    hide Inv;
  }

  /** In every run, what has been flushed is the records of the first reservations, in the
      order of the reservations, each once and whole. */
  lemma FlushedInOrder(c: Config, w: Widths, async: bool, l: LogState, run: seq<LogAction>)
    requires c.Valid() && w.Header() > 0 && LogInit(c, l) && IsLogRun(c, w, async, l, run)
    ensures var l1 := LogFinal(c, w, async, l, run);
      && |l1.out| <= |l1.ring.m.res|
      && forall k :: 0 <= k < |l1.out| ==>
           IsRecord(w, DataOf(l1.ring.m, k)) && l1.out[k] == RecordOf(w, l1.ring.m, k) && |l1.out[k].body| == l1.out[k].entry.size
  {
    InitLogInv(c, w, l);
    LogRunKeeps(c, w, async, l, run);
    hide Inv, LogFinal, IsLogRun;
  }

  /** Once the header of a record has been read, the next read returns all of its body,
      byte for byte what the writer copied in. */
  lemma BodyFollowsHeader(c: Config, w: Widths, async: bool, l: LogState, run: seq<LogAction>)
    requires c.Valid() && w.Header() > 0 && LogInit(c, l) && IsLogRun(c, w, async, l, run)
    ensures var l1 := LogFinal(c, w, async, l, run);
      l1.flush.Body? && l1.ring.consumer.Rest? ==>
        && |l1.ring.consumer.got| == l1.flush.entry.size
        && |l1.out| < |l1.ring.m.res| && IsRecord(w, DataOf(l1.ring.m, |l1.out|))
        && Record(l1.flush.entry, l1.ring.consumer.got) == RecordOf(w, l1.ring.m, |l1.out|)
  {
    InitLogInv(c, w, l);
    LogRunKeeps(c, w, async, l, run);
    var l1 := LogFinal(c, w, async, l, run);
    if l1.flush.Body? && l1.ring.consumer.Rest? { BodyDoneKeeps(c, w, async, l1); }
    hide Inv, LogFinal, IsLogRun;
  }
}
