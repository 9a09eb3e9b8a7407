/** The log loses, doubles, reorders and tears no record. */
module LogProofs {
  import opened Basics
  import opened MpscModel
  import opened MpscInvariant
  import opened MpscHistory
  import opened MpscConsumer
  import opened LogModel
  import opened MpscDrain

  ghost function DataOf(m: Memory, i: nat): seq<Byte>
    requires i < |m.res|
  {
    var r := m.res[i];
    if r.pos + r.size <= |m.stream| then m.stream[r.pos..r.pos + r.size] else []
  }

  /** The record in reservation `i`. */
  ghost function RecordOf(w: Widths, m: Memory, i: nat): Record
    requires i < |m.res| && IsRecord(w, DataOf(m, i))
  {
    Record(Decode(w, DataOf(m, i)[..w.Header()]), DataOf(m, i)[w.Header()..])
  }

  ghost predicate AllRecords(w: Widths, m: Memory) {
    forall i :: 0 <= i < |m.res| ==> IsRecord(w, DataOf(m, i))
  }

  ghost predicate WritersOk(w: Widths, ps: seq<Producer>) {
    forall p :: 0 <= p < |ps| && !ps[p].pc.Out? && !ps[p].pc.Registering? ==> IsRecord(w, ps[p].data)
  }

  /** What has been flushed is the first records, in the order of their reservations. */
  ghost predicate OutOk(w: Widths, m: Memory, out: seq<Record>)
    requires AllRecords(w, m)
  {
    |out| <= |m.res| && forall k :: 0 <= k < |out| ==> out[k] == RecordOf(w, m, k)
  }

  /** A read of `want` bytes that has begun at place `at` of the stream and not ended. */
  ghost predicate Reading(m: Memory, k: ConsumerPc, want: nat, at: nat) {
    && |m.taken| == at
    && match k
       case Rest(_, _) => false
       case CLoadWp(w, _) => w == want
       case Scan(w, _, _, _, _, _) => w == want
       case ScanPos(w, _, _, _, _, _) => w == want
       case Reset(w) => w == want
       case Copy(w, _, n, _) => w == want && (n == 0 || n == want)
  }

  ghost predicate FlushOk(w: Widths, m: Memory, k: ConsumerPc, flush: FlushPc, n: nat)
    requires AllRecords(w, m) && n <= |m.res|
  {
    match flush
    case Idle => k.Rest? && |m.taken| == PosBefore(m.res, n)
    case Header =>
      Reading(m, k, w.Header(), PosBefore(m.res, n)) ||
      (k.Rest? && k.got == [] && |m.taken| == PosBefore(m.res, n)) ||
      (k.Rest? && n < |m.res| && |k.got| == w.Header() && k.got == DataOf(m, n)[..w.Header()] &&
        |m.taken| == m.res[n].pos + w.Header())
    case Body(e) =>
      n < |m.res| && e == RecordOf(w, m, n).entry && e.size + w.Header() == m.res[n].size &&
      (if k.Rest? then k.got == RecordOf(w, m, n).body && |m.taken| == m.res[n].pos + m.res[n].size
       else Reading(m, k, e.size, m.res[n].pos + w.Header()) && (k.Copy? ==> k.n == e.size))
  }

  ghost predicate LogInv(c: Config, w: Widths, l: LogState) {
    && w.Header() > 0 && Inv(c, l.ring)
    && WritersOk(w, l.ring.ps) && AllRecords(w, l.ring.m)
    && OutOk(w, l.ring.m, l.out)
    && FlushOk(w, l.ring.m, l.ring.consumer, l.flush, |l.out|)
  }

  // ----- steps of producers

  /** Reservations are only added, and what is in them stays. */
  ghost predicate Grows(m: Memory, m1: Memory) {
    m.res <= m1.res && m.stream <= m1.stream && m.taken == m1.taken
  }

  lemma GrowthKeepsRecords(c: Config, w: Widths, m: Memory, m1: Memory, i: nat)
    requires MemoryOk(c, m) && Grows(m, m1) && i < |m.res|
    ensures i < |m1.res| && DataOf(m1, i) == DataOf(m, i) && m1.res[i] == m.res[i] && PosBefore(m1.res, i) == PosBefore(m.res, i)
  {
    assert m1.res[i] == m.res[i];
    assert i > 0 ==> m1.res[i - 1] == m.res[i - 1];
    hide BasesOk, DoneOk, ContentOk, SyncOk, RingOk;
    var a, b := m.res[i].pos, m.res[i].pos + m.res[i].size;
    assert m1.stream[a..b] == m.stream[a..b];
  }

  lemma GrowthKeepsOut(c: Config, w: Widths, m: Memory, m1: Memory, out: seq<Record>)
    requires MemoryOk(c, m) && Grows(m, m1) && AllRecords(w, m) && AllRecords(w, m1) && OutOk(w, m, out)
    ensures OutOk(w, m1, out)
  {
    forall k | 0 <= k < |out| ensures out[k] == RecordOf(w, m1, k) {
      assert out[k] == RecordOf(w, m, k);
      GrowthKeepsRecords(c, w, m, m1, k);
    }
  }

  lemma GrowthKeepsFlush(c: Config, w: Widths, m: Memory, m1: Memory, k: ConsumerPc, flush: FlushPc, n: nat)
    requires MemoryOk(c, m) && Grows(m, m1) && AllRecords(w, m) && AllRecords(w, m1)
    requires n <= |m.res| && FlushOk(w, m, k, flush, n)
    ensures FlushOk(w, m1, k, flush, n)
  {
    if n < |m.res| { GrowthKeepsRecords(c, w, m, m1, n); }
    assert PosBefore(m1.res, n) == PosBefore(m.res, n);
    hide MemoryOk, IsRecord, AllRecords, DataOf, PosBefore, Decode;
  }

  // ----- reads

  /** Inside a record the reader is not at a boundary, and what is ready reaches at least to
      the end of the record. */
  lemma InsideRecord(c: Config, m: Memory, i: nat, x: nat)
    requires MemoryOk(c, m) && i < |m.res| && m.res[i].pos < |m.taken| < m.res[i].pos + m.res[i].size
    ensures m.R() != m.W()
    ensures Boundary(m.res, m.W(), x) && m.R() <= x ==> m.R() + (m.res[i].pos + m.res[i].size - |m.taken|) <= x && m.R() < x
  {
    hide BasesOk, DoneOk, ContentOk, RingOk;
    assert ResOk(c.cap, c.producers, m.res[i]);
    if Boundary(m.res, m.W(), x) && m.R() <= x {
      BoundaryAfter(c.cap, c.producers, m.res, m.W(), |m.stream|, x, i);
    }
  }

  predicate IsReadStep(a: Action) {
    a.CLoad? || a.CScanFlag? || a.CScanReserve? || a.CDecide? || a.CReset? || a.CCopyByte? || a.CFinish?
  }

  /** A read that has come to an end: with nothing, or with the next `want` bytes of the stream. */
  ghost predicate ReadEnded(m: Memory, k: ConsumerPc, want: nat, at: nat) {
    k.Rest? && ((k.got == [] && |m.taken| == at) ||
      (at + want <= |m.stream| && k.got == m.stream[at..at + want] && |m.taken| == at + want))
  }

  lemma FinishStep(c: Config, m: Memory, k: ConsumerPc, m1: Memory, want: nat, at: nat)
    requires MemoryOk(c, m) && ConsumerOk(c, m, k) && Reading(m, k, want, at) && k.Copy? && |k.got| == k.n
    requires m1.taken == m.taken + k.got && m1.stream == m.stream
    ensures ReadEnded(m1, Rest(k.want, k.got), want, at)
  {
    hide SafeUpTo, HistoryOk, BasesOk, DoneOk, ContentOk, SyncOk, RingOk;
  }

  /** A step of the consumer touches neither the history nor the producers, and takes bytes
      only when the read ends. */
  lemma ReadStep(c: Config, s: State, a: Action, want: nat, at: nat)
    requires Inv(c, s) && c.Valid() && Enabled(c, s, a) && IsReadStep(a) && Reading(s.m, s.consumer, want, at)
    ensures var s1 := Apply(c, s, a);
      && s1.ps == s.ps && s1.m.res == s.m.res && s1.m.stream == s.m.stream
      && (Reading(s1.m, s1.consumer, want, at) || ReadEnded(s1.m, s1.consumer, want, at))
  {
    if s.consumer.Copy? { CopyHolds(c, s); }
    hide Inv, MemoryOk, ConsumerOk, TurnOk, Reading, ReadEnded;
    ReadStepFrame(c, s, a);
    if a.CFinish? {
      FinishStep(c, s.m, s.consumer, Released(c, s).m, want, at);
    } else {
      hide Loaded, FlagScanned, ReserveScanned, Decided, WasReset, ByteRead, CanReadByte, Limit;
      SameReading(c, s, a, want, at);
    }
  }

  lemma SameReading(c: Config, s: State, a: Action, want: nat, at: nat)
    requires c.Valid() && Enabled(c, s, a) && IsReadStep(a) && !a.CFinish? && Reading(s.m, s.consumer, want, at)
    ensures Reading(Apply(c, s, a).m, Apply(c, s, a).consumer, want, at) ||
            ReadEnded(Apply(c, s, a).m, Apply(c, s, a).consumer, want, at)
  {
    hide Limit, Slot;
  }

  lemma ReadStepFrame(c: Config, s: State, a: Action)
    requires c.Valid() && Enabled(c, s, a) && IsReadStep(a)
    ensures var s1 := Apply(c, s, a); s1.ps == s.ps && s1.m.res == s.m.res && s1.m.stream == s.m.stream
    ensures a.CDecide? ==> Apply(c, s, a).m.taken == s.m.taken
    ensures !a.CReset? && !a.CFinish? && !a.CDecide? ==> Apply(c, s, a).m == s.m
    ensures a.CDecide? ==> Apply(c, s, a) == Decided(c, s)
  {
  }

  lemma RestAtLoad(c: Config, s: State, i: nat, want: nat)
    requires MemoryOk(c, s.m) && s.consumer.CLoadWp? && s.consumer.want == want && want > 0 && i < |s.m.res|
    requires s.m.res[i].pos < |s.m.taken| && |s.m.taken| + want == s.m.res[i].pos + s.m.res[i].size
    ensures Loaded(c, s).consumer.Scan?
  {
    InsideRecord(c, s.m, i, s.m.R());
    LevelOffsets(c, s.m);
    hide MemoryOk;
  }

  lemma RestAtDecide(c: Config, s: State, i: nat, want: nat)
    requires Inv(c, s) && s.consumer.Scan? && s.consumer.i == |s.ps| && s.consumer.want == want && want > 0 && i < |s.m.res|
    requires s.m.res[i].pos < |s.m.taken| && |s.m.taken| + want == s.m.res[i].pos + s.m.res[i].size
    ensures s.m.rp <= Limit(c, s) && !Decided(c, s).consumer.Rest?
    ensures Decided(c, s).consumer.Copy? ==> Decided(c, s).consumer.n == want
  {
    ScanHolds(c, s);
    LimitIsSafe(c, s);
    InsideRecord(c, s.m, i, s.m.rbase + Limit(c, s));
    hide Inv, MemoryOk, TurnOk, ScanOk;
  }

  /** In the middle of a record the read cannot come back with less than the rest of it. */
  lemma RestOfRecord(c: Config, s: State, a: Action, i: nat, want: nat)
    requires Inv(c, s) && c.Valid() && Enabled(c, s, a) && IsReadStep(a) && want > 0
    requires i < |s.m.res| && s.m.res[i].pos < |s.m.taken| && |s.m.taken| + want == s.m.res[i].pos + s.m.res[i].size
    requires Reading(s.m, s.consumer, want, |s.m.taken|) && (s.consumer.Copy? ==> s.consumer.n == want)
    ensures var k := Apply(c, s, a).consumer;
      (k.Copy? ==> k.n == want) && (k.Rest? ==> |k.got| == want)
  {
    assert MemoryOk(c, s.m);
    hide Inv, MemoryOk, Loaded, Decided, Limit, Slot;
    if a.CLoad? { RestAtLoad(c, s, i, want); }
    if a.CDecide? { RestAtDecide(c, s, i, want); }
  }

  // ----- the flush

  lemma RecordAt(c: Config, w: Widths, m: Memory, i: nat)
    requires MemoryOk(c, m) && AllRecords(w, m) && i < |m.res|
    ensures m.res[i].pos == PosBefore(m.res, i) && m.res[i].pos + m.res[i].size == PosBefore(m.res, i + 1) <= |m.stream|
    ensures |DataOf(m, i)| == m.res[i].size >= w.Header() && IsRecord(w, DataOf(m, i))
    ensures DataOf(m, i)[..w.Header()] == m.stream[m.res[i].pos..m.res[i].pos + w.Header()]
    ensures RecordOf(w, m, i).body == m.stream[m.res[i].pos + w.Header()..m.res[i].pos + m.res[i].size]
    ensures RecordOf(w, m, i).entry.size + w.Header() == m.res[i].size
    ensures RecordOf(w, m, i).entry == Decode(w, DataOf(m, i)[..w.Header()])
  {
    hide BasesOk, DoneOk, ContentOk, SyncOk, RingOk;
    assert Follows(m.res, i);
    assert IsRecord(w, DataOf(m, i));
    hide Decode;
  }

  lemma NextRecordExists(c: Config, m: Memory, n: nat)
    requires MemoryOk(c, m) && n <= |m.res| && PosBefore(m.res, n) < |m.stream|
    ensures n < |m.res|
  {
  }

  /** The read of a header ends with nothing, or with the header of the next record. */
  lemma HeaderEnds(c: Config, w: Widths, m: Memory, k: ConsumerPc, n: nat)
    requires MemoryOk(c, m) && AllRecords(w, m) && n <= |m.res| && w.Header() > 0
    requires Reading(m, k, w.Header(), PosBefore(m.res, n)) || ReadEnded(m, k, w.Header(), PosBefore(m.res, n))
    ensures FlushOk(w, m, k, Header, n)
  {
    if ReadEnded(m, k, w.Header(), PosBefore(m.res, n)) && |m.taken| != PosBefore(m.res, n) {
      NextRecordExists(c, m, n);
      RecordAt(c, w, m, n);
    }
    hide MemoryOk, AllRecords, DataOf, PosBefore, RecordOf;
  }

  /** The read of a body ends with the whole body. */
  lemma BodyEnds(c: Config, w: Widths, m: Memory, k: ConsumerPc, n: nat, e: Entry)
    requires MemoryOk(c, m) && AllRecords(w, m) && n < |m.res| && e == RecordOf(w, m, n).entry
    requires var at := m.res[n].pos + w.Header(); Reading(m, k, e.size, at) || ReadEnded(m, k, e.size, at)
    requires (k.Copy? ==> k.n == e.size) && (k.Rest? ==> |k.got| == e.size)
    ensures FlushOk(w, m, k, Body(e), n)
  {
    RecordAt(c, w, m, n);
    hide MemoryOk, AllRecords, DataOf, PosBefore, RecordOf;
  }
}
