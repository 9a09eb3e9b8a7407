/** What the MPSC ring guarantees in every interleaving of any number of producers with
    the one consumer. */
module MpscTheorems {
  import opened Basics
  import opened MpscModel
  import opened MpscInvariant
  import opened MpscProducer
  import opened MpscWinner
  import opened MpscConsumer

  lemma StepKeepsInv(c: Config, s: State, a: Action)
    requires Inv(c, s) && c.Valid() && Enabled(c, s, a)
    ensures Inv(c, Apply(c, s, a))
  {
    hide Inv;
    match a
    case PReserveFree(p) => RegisterKeeps(c, s, p);
    case PFlagOn(p) => RegisterKeeps(c, s, p);
    case PFlagOff(p) => RegisterKeeps(c, s, p);
    case PBegin(p, data) => BeginKeeps(c, s, p, data);
    case PLoadWp(p) => LoadWpKeeps(c, s, p);
    case PStoreReserve(p) => StoreReserveKeeps(c, s, p);
    case PLoadRp(p) => LoadRpKeeps(c, s, p);
    case PGiveUp(p) => GiveUpKeeps(c, s, p);
    case PCas(p, spurious) => if CasWins(s, p, spurious) { WonKeeps(c, s, p); } else { GiveUpKeeps(c, s, p); }
    case PClear(p) => ClearKeeps(c, s, p);
    case PSetWarp(p) => WarpSetKeeps(c, s, p);
    case PUnlock(p) => UnlockedKeeps(c, s, p);
    case PCopyByte(p) => ByteCopiedKeeps(c, s, p);
    case PPush(p) => PushedKeeps(c, s, p);
    case CBegin(want) => ConsumerBegins(c, s, want);
    case CLoad => LoadedKeeps(c, s);
    case CScanFlag => FlagScannedKeeps(c, s);
    case CScanReserve => ReserveScannedKeeps(c, s);
    case CDecide => DecidedKeeps(c, s);
    case CReset => WasResetKeeps(c, s);
    case CCopyByte => ByteReadKeeps(c, s);
    case CFinish => ReleasedKeeps(c, s);
  }

  lemma ConsumerBegins(c: Config, s: State, want: nat)
    requires Inv(c, s) && s.consumer.Rest?
    ensures Inv(c, s.(consumer := CLoadWp(want, false)))
  {
    ConsumerLocal(c, s, CLoadWp(want, false));
  }

  // ----- runs

  ghost predicate IsRun(c: Config, s: State, run: seq<Action>)
    requires c.Valid()
    decreases |run|
  {
    run == [] || (Enabled(c, s, run[0]) && IsRun(c, Apply(c, s, run[0]), run[1..]))
  }

  ghost function Final(c: Config, s: State, run: seq<Action>): (s1: State)
    requires c.Valid() && IsRun(c, s, run)
    decreases |run|
  {
    if run == [] then s else Final(c, Apply(c, s, run[0]), run[1..])
  }

  ghost predicate Reachable(c: Config, s: State)
    requires c.Valid()
  {
    exists s0, run :: Init(c, s0) && IsRun(c, s0, run) && Final(c, s0, run) == s
  }

  lemma {:induction false} RunKeepsInv(c: Config, s: State, run: seq<Action>)
    requires Inv(c, s) && c.Valid() && IsRun(c, s, run)
    ensures Inv(c, Final(c, s, run))
    decreases |run|
  {
    hide Inv;
    if run != [] {
      StepKeepsInv(c, s, run[0]);
      RunKeepsInv(c, Apply(c, s, run[0]), run[1..]);
    }
  }

  lemma ReachableInv(c: Config, s: State)
    requires c.Valid() && Reachable(c, s)
    ensures Inv(c, s)
  {
    var s0, run :| Init(c, s0) && IsRun(c, s0, run) && Final(c, s0, run) == s;
    InitInv(c, s0);
    RunKeepsInv(c, s0, run);
  }

  // ----- safety of the consumer

  /** The range that `mpsc_pop` returns holds only bytes of reservations that are pushed:
      every reservation that has a cell in it and is still to be read is complete. */
  lemma PopIsSafe(c: Config, s: State, i: nat, x: nat)
    requires c.Valid() && Reachable(c, s) && s.consumer.Copy? && i < |s.m.res| == |s.m.pushed|
    requires s.m.rp <= x < s.m.rp + s.consumer.avail
    requires s.m.res[i].off <= x < s.m.res[i].off + s.m.res[i].size && s.m.R() < s.m.res[i].End()
    ensures s.m.pushed[i] && x < c.cap
  {
    ReachableInv(c, s);
    hide DoneOk, ContentOk, SyncOk, PcOk, TurnOk, PendingOk, Boundary;
    assert ResOk(c.cap, c.producers, s.m.res[i]);
    assert s.m.res[i].End() <= s.m.W();
  }

  /** What the consumer has been given is a prefix of all payloads in the order in which
      their space was reserved: nothing is lost, doubled, reordered or torn. */
  lemma ConsumerReadsStream(c: Config, s: State)
    requires c.Valid() && Reachable(c, s)
    ensures s.m.taken <= s.m.stream && s.m.stream == Payloads(s.m.res, s.m.stream, |s.m.res|)
    ensures s.consumer.Copy? ==> s.m.taken + s.consumer.got <= s.m.stream
  {
    ReachableInv(c, s);
    PayloadsAreStream(c, s.m, |s.m.res|);
    hide HistoryOk, BasesOk, DoneOk, ContentOk, SyncOk, RingOk, PcOk, TurnOk, PendingOk;
    if s.consumer.Copy? { PrefixGrows(s.m.stream, s.m.taken, s.consumer.got); }
  }

  /** The payloads of the first `n` reservations, one after the other. */
  ghost function Payloads(res: seq<Res>, stream: seq<Byte>, n: nat): seq<Byte>
    requires n <= |res|
  {
    if n == 0 then []
    else
      var r := res[n - 1];
      Payloads(res, stream, n - 1) +
      if r.pos + r.size <= |stream| then stream[r.pos..r.pos + r.size] else []
  }

  lemma {:induction false} PayloadsAreStream(c: Config, m: Memory, n: nat)
    requires MemoryOk(c, m) && n <= |m.res|
    ensures PosBefore(m.res, n) <= |m.stream| && Payloads(m.res, m.stream, n) == m.stream[..PosBefore(m.res, n)]
  {
    hide BasesOk, DoneOk, ContentOk, SyncOk, RingOk;
    if n > 0 {
      PayloadsAreStream(c, m, n - 1);
      assert Follows(m.res, n - 1);
      var r := m.res[n - 1];
      assert m.stream[..r.pos] + m.stream[r.pos..r.pos + r.size] == m.stream[..r.pos + r.size];
    }
  }

  // ----- what the producers were given

  predicate Wins(s: State, a: Action) {
    a.PCas? && a.p < |s.ps| && s.ps[a.p].pc.Decide? && CasWins(s, a.p, a.spurious)
  }

  /** The payloads of the reservations granted in a run, in the order of the winning
      compare-and-swaps: what each winner was called with. */
  ghost function Granted(c: Config, s: State, run: seq<Action>): seq<seq<Byte>>
    requires c.Valid() && IsRun(c, s, run)
    decreases |run|
  {
    if run == [] then []
    else
      (if Wins(s, run[0]) then [s.ps[run[0].p].data] else []) +
      Granted(c, Apply(c, s, run[0]), run[1..])
  }

  ghost function Joined(parts: seq<seq<Byte>>): seq<Byte> {
    if parts == [] then [] else parts[0] + Joined(parts[1..])
  }

  ghost function Sizes(parts: seq<seq<Byte>>): seq<nat> {
    seq(|parts|, i requires 0 <= i < |parts| => |parts[i]|)
  }

  ghost function ResSizes(res: seq<Res>): seq<nat> {
    seq(|res|, i requires 0 <= i < |res| => res[i].size)
  }

  lemma StepGrants(c: Config, s: State, a: Action)
    requires c.Valid() && Enabled(c, s, a)
    ensures var s1 := Apply(c, s, a);
      if Wins(s, a)
      then s1.m.stream == s.m.stream + s.ps[a.p].data && ResSizes(s1.m.res) == ResSizes(s.m.res) + [|s.ps[a.p].data|]
      else s1.m.stream == s.m.stream && s1.m.res == s.m.res
  {
    hide Slot, Limit, Target;
  }

  /** The stream of a run is what its winners were given, joined in the order of winning, and
      the reservations have their sizes. */
  lemma {:induction false} StreamIsGranted(c: Config, s: State, run: seq<Action>)
    requires c.Valid() && IsRun(c, s, run)
    ensures var s1 := Final(c, s, run);
      s1.m.stream == s.m.stream + Joined(Granted(c, s, run)) &&
      ResSizes(s1.m.res) == ResSizes(s.m.res) + Sizes(Granted(c, s, run))
    decreases |run|
  {
    hide Apply, Enabled;
    if run != [] {
      StepGrants(c, s, run[0]);
      StreamIsGranted(c, Apply(c, s, run[0]), run[1..]);
      var rest := Granted(c, Apply(c, s, run[0]), run[1..]);
      assert [] + rest == rest;
      if Wins(s, run[0]) { GrantedFirst(s.m.stream, s.ps[run[0].p].data, rest, ResSizes(s.m.res)); }
    } else {
      assert Granted(c, s, run) == [] && s.m.stream + [] == s.m.stream && ResSizes(s.m.res) + [] == ResSizes(s.m.res);
    }
  }

  lemma GrantedFirst(stream: seq<Byte>, data: seq<Byte>, rest: seq<seq<Byte>>, sizes: seq<nat>)
    ensures stream + data + Joined(rest) == stream + Joined([data] + rest)
    ensures sizes + [|data|] + Sizes(rest) == sizes + Sizes([data] + rest)
  {
    assert ([data] + rest)[1..] == rest;
  }

  /** In every run from the start, what the consumer has read is a front part of the payloads
      the producers wrote, in the order in which their space was reserved. */
  lemma ConsumerReadsPayloads(c: Config, s0: State, run: seq<Action>)
    requires c.Valid() && Init(c, s0) && IsRun(c, s0, run)
    ensures var s := Final(c, s0, run);
      s.m.taken <= Joined(Granted(c, s0, run)) == s.m.stream && ResSizes(s.m.res) == Sizes(Granted(c, s0, run))
  {
    StreamIsGranted(c, s0, run);
    assert ResSizes(s0.m.res) == [];
    ConsumerReadsStream(c, Final(c, s0, run));
  }

  // ----- reservations

  /** Each reservation is one piece of the buffer, so that the split copy of `mpsc_write`
      is never used; and no cell belongs to two reservations that both still have to be read
      there, whether the reader has come to them or is inside one. */
  lemma ReservationsAreDisjoint(c: Config, s: State, i: nat, x: nat, j: nat, y: nat)
    requires c.Valid() && Reachable(c, s) && i < |s.m.res| && j < |s.m.res| && i != j
    requires s.m.res[i].off <= x < s.m.res[i].off + s.m.res[i].size && s.m.res[i].base + x >= s.m.R()
    requires s.m.res[j].off <= y < s.m.res[j].off + s.m.res[j].size && s.m.res[j].base + y >= s.m.R()
    ensures x != y && s.m.res[i].off + s.m.res[i].size <= c.cap
  {
    ReachableInv(c, s);
    MemoryHolds(c, s);
    OnePiece(c, s.m, i);
    hide Inv, MemoryOk;
    CellsApart(c, s.m, i, x, j, y);
  }

  lemma OnePiece(c: Config, m: Memory, i: nat)
    requires MemoryOk(c, m) && i < |m.res|
    ensures m.res[i].off + m.res[i].size <= c.cap
  {
    assert ResOk(c.cap, c.producers, m.res[i]);
  }

  /** What is not pushed is unread as a whole. */
  lemma PendingIsUnread(c: Config, s: State, i: nat)
    requires c.Valid() && Reachable(c, s) && i < |s.m.res| == |s.m.pushed| && !s.m.pushed[i]
    ensures s.m.res[i].Start() >= s.m.R()
  {
    ReachableInv(c, s);
    hide HistoryOk, BasesOk, DoneOk, ContentOk, SyncOk, PcOk, TurnOk, ConsumerOk;
    assert s.m.res[i].pre >= s.m.R();
    StartsNotBefore(c, s.m, i);
  }

  lemma StartsNotBefore(c: Config, m: Memory, i: nat)
    requires MemoryOk(c, m) && i < |m.res|
    ensures m.res[i].Start() >= m.res[i].pre
  {
    assert ResOk(c.cap, c.producers, m.res[i]);
  }

  /** The offsets are level exactly when nothing is left to read: a reservation never
      brings the write position level with the read position from behind. */
  lemma LevelMeansEmpty(c: Config, s: State)
    requires c.Valid() && Reachable(c, s)
    ensures s.m.wp.off == s.m.rp <==> |s.m.taken| == |s.m.stream|
  {
    ReachableInv(c, s);
    var m := s.m;
    if m.R() < m.W() {
      var l := |m.res| - 1;
      assert ResOk(c.cap, c.producers, m.res[l]);
      hide DoneOk, ContentOk, BasesOk, PcOk, PendingOk, ConsumerOk, TurnOk;
      assert |m.taken| < |m.stream|;
    }
  }

  /** Bytes granted are bytes released plus bytes pending, and less than a full buffer is pending. */
  lemma Conservation(c: Config, s: State)
    requires c.Valid() && Reachable(c, s)
    ensures |s.m.taken| <= |s.m.stream| < |s.m.taken| + c.cap
  {
    ReachableInv(c, s);
    ReaderIsBehind(c, s.m);
    if |s.m.res| > 0 && s.m.R() < s.m.W() {
      PendingFits(c, s.m, |s.m.res| - 1);
    }
    hide DoneOk, ContentOk, BasesOk, RingOk, PcOk, PendingOk, ConsumerOk, TurnOk;
  }

  lemma {:induction false} PendingFits(c: Config, m: Memory, i: nat)
    requires MemoryOk(c, m) && i < |m.res| && m.R() < m.res[i].End()
    ensures m.res[i].pos + m.res[i].size + m.R() <= |m.taken| + m.res[i].End()
  {
    hide DoneOk, ContentOk, BasesOk, RingOk;
    assert Follows(m.res, i);
    assert ResOk(c.cap, c.producers, m.res[i]);
    if i > 0 && m.R() < m.res[i].pre {
      PendingFits(c, m, i - 1);
    }
  }

  // ----- no step goes wrong

  /** Where a step computes a length or an index, it is in range: the subtraction in
      `mpsc_pop` does not wrap, both copies stay inside the buffer, and each is one piece. */
  lemma NoStepFails(c: Config, s: State)
    requires c.Valid() && Reachable(c, s)
    ensures s.consumer.Scan? && s.consumer.i == |s.ps| ==> s.m.rp <= Limit(c, s) <= c.cap
    ensures s.consumer.Copy? && |s.consumer.got| < s.consumer.n ==> CanReadByte(c, s) && s.m.rp + s.consumer.n <= c.cap
    ensures forall p :: 0 <= p < |s.ps| && s.ps[p].pc.Fill? ==> CanPush(s, p) || CanCopyByte(c, s, p)
    ensures forall p :: 0 <= p < |s.ps| && s.ps[p].pc.Clear? ==> s.ps[p].reserve.Claiming?
  {
    ReachableInv(c, s);
    hide Inv;
    if s.consumer.Scan? && s.consumer.i == |s.ps| { LimitIsSafe(c, s); }
    if s.consumer.Copy? && |s.consumer.got| < s.consumer.n { ReaderGoesOn(c, s); }
    hide Slot, Limit;
    forall p | 0 <= p < |s.ps|
      ensures s.ps[p].pc.Fill? ==> CanPush(s, p) || CanCopyByte(c, s, p)
      ensures s.ps[p].pc.Clear? ==> s.ps[p].reserve.Claiming?
    {
      ProducerGoesOn(c, s, p);
    }
  }

  lemma ReaderGoesOn(c: Config, s: State)
    requires Inv(c, s) && s.consumer.Copy? && |s.consumer.got| < s.consumer.n
    ensures CanReadByte(c, s) && s.m.rp + s.consumer.n <= c.cap
  {
    CopyHolds(c, s);
    hide Inv, MemoryOk, ConsumerOk, TurnOk, SafeUpTo;
    NextByte(c, s.m, s.consumer);
    CopyFits(c, s.m, s.consumer);
  }

  lemma ProducerGoesOn(c: Config, s: State, p: nat)
    requires Inv(c, s) && c.Valid() && p < |s.ps|
    ensures s.ps[p].pc.Fill? ==> CanPush(s, p) || CanCopyByte(c, s, p)
    ensures s.ps[p].pc.Clear? ==> s.ps[p].reserve.Claiming?
  {
    MemoryHolds(c, s);
    Lengths(c, s);
    PcAt(c, s, p);
    hide Inv, MemoryOk, PcOk;
    if s.ps[p].pc.Clear? { ClearIsClaiming(c, s.m, p, s.ps[p]); }
    if s.ps[p].pc.Fill? { FillIsFine(c, s.m, p, s.ps[p]); }
  }

  lemma MemoryHolds(c: Config, s: State)
    requires Inv(c, s)
    ensures MemoryOk(c, s.m)
  {
  }

  lemma CopyFits(c: Config, m: Memory, k: ConsumerPc)
    requires |m.res| == |m.pushed| && k.Copy? && ConsumerOk(c, m, k)
    ensures m.rp + k.n <= c.cap
  {
  }

  lemma ClearIsClaiming(c: Config, m: Memory, p: nat, q: Producer)
    requires c.Valid() && |m.res| == |m.pushed| == |m.done| && PcOk(c, m, p, q) && q.pc.Clear?
    ensures q.reserve.Claiming?
  {
  }

  lemma FillIsFine(c: Config, m: Memory, p: nat, q: Producer)
    requires MemoryOk(c, m) && PcOk(c, m, p, q) && q.pc.Fill?
    ensures q.pc.r < |m.done| == |m.pushed| && m.done[q.pc.r] <= |q.data| && q.pc.off + |q.data| <= c.cap == |m.buf|
    ensures q.pc.off < c.cap
  {
    hide BasesOk, ContentOk, SyncOk, RingOk;
    assert ResOk(c.cap, c.producers, m.res[q.pc.r]);
  }

  /** The consumer turns the ring at most once in a call. */
  lemma RetryOnce(c: Config, s: State)
    requires c.Valid() && Reachable(c, s) && s.consumer.Scan? && s.consumer.retried && s.consumer.i == |s.ps|
    ensures s.m.rp <= Limit(c, s) && !Decided(c, s).consumer.Reset?
  {
    ReachableInv(c, s);
    NoSecondReset(c, s);
  }

  lemma NoSecondReset(c: Config, s: State)
    requires Inv(c, s) && s.consumer.Scan? && s.consumer.retried && s.consumer.i == |s.ps|
    ensures s.m.rp <= Limit(c, s) && !Decided(c, s).consumer.Reset?
  {
    LimitIsSafe(c, s);
  }
}
