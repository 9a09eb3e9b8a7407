/** When `mpsc_acquire` grants a request, and where: said in positions of the run, without the
    arithmetic on offsets that decides it. */
module MpscGrants {
  import opened Basics
  import opened MpscModel
  import opened MpscInvariant
  import opened MpscProducer
  import opened MpscWinner
  import opened MpscTheorems
  import MpscWord

  /** A request of `size` bytes has its place at `x`: at the write position if it ends within
      the lap, else at the start of the next lap; and it ends short of what a reader at `r`
      still has to read there. */
  ghost predicate PlaceFor(cap: nat, wbase: nat, w: nat, r: nat, size: nat, x: nat) {
    (if w + size <= wbase + cap then x == w else x == wbase + cap) && x + size < r + cap
  }

  ghost predicate HasPlace(cap: nat, wbase: nat, w: nat, r: nat, size: nat) {
    exists x :: PlaceFor(cap, wbase, w, r, size, x)
  }

  /** The decision on a word and a value of `rp` that fits it. */
  lemma DecisionIsPlace(c: Config, w: Word, wbase: nat, rbase: nat, size: nat, rp: nat)
    requires c.Valid() && w.off < c.cap && rp < c.cap && RingOk(c.cap, wbase, w.off, rbase, rp) && size > 0
    ensures Target(c, w, size, rp).Some? <==> HasPlace(c.cap, wbase, wbase + w.off, rbase + rp, size)
  {
    var x := if w.off + size <= c.cap then wbase + w.off else wbase + c.cap;
    assert PlaceFor(c.cap, wbase, wbase + w.off, rbase + rp, size, x) <==> x + size < rbase + rp + c.cap;
  }

  /** The same of the packed word, as the masks and the arithmetic of `usz` decide it. */
  lemma PackedDecisionIsPlace(b: MpscWord.Build, cap: nat, w: Word, wbase: nat, rbase: nat, size: nat, rp: nat)
    requires 0 < cap < MpscWord.OffsetMod(b) && 0 < size < MpscWord.Modulus(b) && MpscWord.Decidable(b, cap, size)
    requires MpscWord.At(b, cap, w, rp) && RingOk(cap, wbase, w.off, rbase, rp)
    ensures MpscWord.PackedTarget(b, cap, MpscWord.Pack(b, w), size, rp).Some? <==>
            HasPlace(cap, wbase, wbase + w.off, rbase + rp, size)
  {
    MpscWord.PackedTargetIsTarget(b, cap, w, size, rp);
    hide MpscWord.PackedTarget, MpscWord.Pack, MpscWord.Decidable, Target, HasPlace, MpscWord.OffsetMod, MpscWord.CounterMod, MpscWord.Modulus;
    DecisionIsPlace(MpscWord.ConfigOf(b, cap, 0), w, wbase, rbase, size, rp);
  }

  /** A producer that has read the reader's position and now finds the word as it was. */
  ghost predicate UpToDate(c: Config, s: State, p: nat) {
    p < |s.ps| && s.ps[p].pc.Decide? && s.m.wp == s.ps[p].pc.snap.word && s.m.lap < s.ps[p].pc.snap.lap + c.counterMod
  }

  lemma DecideFacts(c: Config, s: State, p: nat)
    requires c.Valid() && Inv(c, s) && UpToDate(c, s, p)
    ensures var q := s.ps[p];
      |q.data| > 0 && s.m.wp.off < c.cap && q.pc.rp < c.cap && q.pc.rbase + q.pc.rp <= s.m.R() &&
      RingOk(c.cap, s.m.wbase, s.m.wp.off, q.pc.rbase, q.pc.rp) && s.m.W() == s.m.wbase + s.m.wp.off
  {
    MemoryHolds(c, s);
    PcAt(c, s, p);
    hide Inv;
    DecideSnap(c, s.m, p, s.ps[p]);
    NothingIntervened(c, s.m, s.ps[p].pc.snap);
  }

  lemma DecideSnap(c: Config, m: Memory, p: nat, q: Producer)
    requires MemoryOk(c, m) && |m.res| == |m.pushed| == |m.done| && PcOk(c, m, p, q) && q.pc.Decide?
    ensures Shape(c, m) && SnapOk(c, q.pc.snap, m.wp, m.lap, m.wbase) && |q.data| > 0
    ensures RpOk(c, q.pc.snap, q.pc.rp, q.pc.rbase, m.W(), m.R())
  {
    hide HistoryOk, BasesOk, DoneOk, ContentOk, SyncOk, RingOk;
  }

  /** It can give up, or try to swap, by what it decides on the present word. */
  lemma GivingUpIsDecision(c: Config, s: State, p: nat)
    requires c.Valid() && UpToDate(c, s, p)
    ensures Enabled(c, s, PGiveUp(p)) <==> Target(c, s.m.wp, |s.ps[p].data|, s.ps[p].pc.rp).None?
  {
    hide Target;
  }

  /** In every reachable state, a producer that finds the word unchanged gives up exactly if
      there was no place for its request when it read the reader's position. */
  lemma GivesUpWithoutPlace(c: Config, s: State, p: nat)
    requires c.Valid() && Reachable(c, s) && UpToDate(c, s, p)
    ensures var q := s.ps[p];
      Enabled(c, s, PGiveUp(p)) <==> !HasPlace(c.cap, s.m.wbase, s.m.W(), q.pc.rbase + q.pc.rp, |q.data|)
  {
    hide Inv, HasPlace, Enabled, Target, Reachable;
    ReachableInv(c, s);
    GivingUpIsDecision(c, s, p);
    DecideFacts(c, s, p);
    DecisionIsPlace(c, s.m.wp, s.m.wbase, s.ps[p].pc.rbase, |s.ps[p].data|, s.ps[p].pc.rp);
  }

  /** With the reader where it was: it gives up exactly if there is no place now. */
  lemma GivesUpExactlyWhenFull(c: Config, s: State, p: nat)
    requires c.Valid() && Reachable(c, s) && UpToDate(c, s, p) && s.ps[p].pc.rp == s.m.rp
    ensures Enabled(c, s, PGiveUp(p)) <==> !HasPlace(c.cap, s.m.wbase, s.m.W(), s.m.R(), |s.ps[p].data|)
  {
    GivesUpWithoutPlace(c, s, p);
    ReachableInv(c, s);
    MemoryHolds(c, s);
    hide Inv, HasPlace;
    DecideFacts(c, s, p);
    SameLap(c, s.m, s.ps[p].pc.rbase, s.ps[p].pc.rp);
  }

  lemma SameLap(c: Config, m: Memory, rbase: nat, rp: nat)
    requires MemoryOk(c, m) && rp == m.rp && RingOk(c.cap, m.wbase, m.wp.off, rbase, rp)
    ensures rbase == m.rbase
  {
    hide HistoryOk, BasesOk, DoneOk, ContentOk, SyncOk;
  }

  /** What is granted lies at that place: at the write position, or at the start of the next lap. */
  lemma GrantedAtPlace(c: Config, s: State, p: nat)
    requires c.Valid() && Reachable(c, s) && UpToDate(c, s, p) && Enabled(c, s, PCas(p, false))
    ensures var s1 := Apply(c, s, PCas(p, false));
      |s1.m.res| == |s.m.res| + 1 &&
      s1.m.res[|s.m.res|].size == |s.ps[p].data| && s1.m.res[|s.m.res|].owner == p &&
      PlaceFor(c.cap, s.m.wbase, s.m.W(), s.m.R(), |s.ps[p].data|, s1.m.res[|s.m.res|].Start())
  {
    ReachableInv(c, s);
    hide Inv;
    DecideFacts(c, s, p);
  }

  /** The buffer of eight bytes: six written and read, two written to its end; two more fit. */
  lemma FitsBehindTheEnd()
    ensures HasPlace(8, 8, 8, 6, 2)
  {
    assert PlaceFor(8, 8, 8, 6, 2, 8);
  }
}
