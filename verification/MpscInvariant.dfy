/** What every step of the MPSC ring keeps.  Each group of conditions mentions only the
    parts of the state it is about. */
module MpscInvariant {
  import opened Basics
  import opened MpscModel

  ghost predicate Shape(c: Config, m: Memory)
    requires c.Valid()
  {
    && |m.buf| == c.cap && m.wp.off < c.cap && m.rp < c.cap
    && m.wp.counter == m.lap % c.counterMod
    && |m.res| == |m.done| == |m.pushed|
    && |m.taken| <= |m.stream| && m.taken == m.stream[..|m.taken|]
  }

  /** The read position follows the write position in the same lap, or the lap before at
      a greater offset: level offsets mean an empty ring. */
  ghost predicate RingOk(cap: nat, wbase: nat, woff: nat, rbase: nat, rp: nat) {
    (wbase == rbase && rp <= woff) || (wbase == rbase + cap && woff < rp)
  }

  // ----- the history of reservations

  /** A reservation lies in one lap, and starts where the one before it ended or, where
      that is not at its lap, at offset 0 of the next lap. */
  ghost predicate ResOk(cap: nat, producers: nat, r: Res) {
    && r.owner < producers && 0 < r.size && r.off + r.size <= cap
    && (r.Start() == r.pre || (r.off == 0 && r.pre < r.base < r.pre + cap))
  }

  ghost function EndBefore(res: seq<Res>, i: nat): nat
    requires i <= |res|
  {
    if i == 0 then 0 else res[i - 1].End()
  }

  ghost function PosBefore(res: seq<Res>, i: nat): nat
    requires i <= |res|
  {
    if i == 0 then 0 else res[i - 1].pos + res[i - 1].size
  }

  ghost predicate Follows(res: seq<Res>, i: nat)
    requires i < |res|
  {
    res[i].pre == EndBefore(res, i) && res[i].pos == PosBefore(res, i)
  }

  ghost predicate HistoryOk(cap: nat, producers: nat, res: seq<Res>, w: nat, total: nat) {
    && (forall i :: 0 <= i < |res| ==> ResOk(cap, producers, res[i]))
    && (forall i :: 0 <= i < |res| ==> Follows(res, i))
    && w == EndBefore(res, |res|) && total == PosBefore(res, |res|)
    && (forall i, j :: 0 <= i < j < |res| ==> res[i].End() <= res[j].pre && res[i].pos + res[i].size <= res[j].pos)
    && (forall i :: 0 <= i < |res| ==> res[i].End() <= w && res[i].pos + res[i].size <= total)
  }

  /** Laps start a whole number of laps apart: seen from the reader's lap, a reservation
      lies in an earlier lap, in this one, or in the next. */
  ghost predicate BasesOk(cap: nat, res: seq<Res>, rbase: nat) {
    forall i :: 0 <= i < |res| ==>
      res[i].base + cap <= rbase || res[i].base == rbase || res[i].base == rbase + cap
  }

  /** A position between reservations: no reservation ever straddles it. */
  ghost predicate Boundary(res: seq<Res>, w: nat, x: nat) {
    x == w || exists i :: 0 <= i < |res| && res[i].pre == x
  }

  // ----- what is pending, written, and read

  ghost predicate Holds(pc: ProducerPc, i: nat) {
    (pc.Clear? || pc.SetWarp? || pc.Unlock? || pc.Fill?) && pc.r == i
  }

  /** A reservation that is not pushed is in the hands of its owner, and the reader has not
      reached it. */
  ghost predicate PendingOk(res: seq<Res>, pushed: seq<bool>, ps: seq<Producer>, r: nat)
    requires |res| == |pushed|
  {
    forall i :: 0 <= i < |res| && !pushed[i] ==>
      res[i].pre >= r && res[i].owner < |ps| && Holds(ps[res[i].owner].pc, i)
  }

  ghost predicate DoneOk(res: seq<Res>, done: seq<nat>, pushed: seq<bool>)
    requires |res| == |done| == |pushed|
  {
    forall i :: 0 <= i < |res| ==> done[i] <= res[i].size && (pushed[i] ==> done[i] == res[i].size)
  }

  /** The cells that `done` bytes of a reservation have been copied to, as far as the
      reader has not passed them, hold its bytes of the stream. */
  ghost predicate CellsOk(buf: seq<Byte>, q: Res, done: nat, stream: seq<Byte>, r: nat) {
    q.off + done <= |buf| && q.pos + done <= |stream| &&
    forall x :: q.off <= x < q.off + done && q.base + x >= r ==> buf[x] == stream[q.pos + (x - q.off)]
  }

  ghost predicate ContentOk(buf: seq<Byte>, res: seq<Res>, done: seq<nat>, stream: seq<Byte>, r: nat)
    requires |res| == |done|
  {
    forall i :: 0 <= i < |res| ==> CellsOk(buf, res[i], done[i], stream, r)
  }

  /** The reader has taken exactly the bytes of the stream that lie before its position,
      which is never inside a gap. */
  ghost predicate SyncOk(res: seq<Res>, r: nat, w: nat, taken: nat, total: nat) {
    && r <= w && (r == w ==> taken == total)
    && (forall i :: 0 <= i < |res| && res[i].End() <= r ==> res[i].pos + res[i].size <= taken)
    && (forall i :: 0 <= i < |res| && r <= res[i].pre ==> taken <= res[i].pos)
    && (forall i :: 0 <= i < |res| && res[i].pre < r < res[i].End() ==>
          res[i].Start() <= r && taken == res[i].pos + (r - res[i].Start()))
  }

  // ----- the turn of the ring

  ghost predicate Locking(pc: ProducerPc) {
    (pc.Clear? || pc.SetWarp? || pc.Unlock?) && pc.target.locked
  }

  /** While the writers are a lap ahead, `turn` is where the data of the reader's lap ends;
      `warp_end` says so unless the turn is at the end of the buffer. */
  ghost predicate TurnOk(c: Config, m: Memory, resetting: bool) {
    && (m.wbase == m.rbase ==> m.warpEnd == c.maxPos && !m.wp.locked)
    && (m.wbase == m.rbase + c.cap ==>
        && m.R() <= m.turn <= m.wbase && m.rbase < m.turn
        && m.turnRes < |m.res|
        && (m.turn < m.wbase ==> m.res[m.turnRes].pre == m.turn && m.res[m.turnRes].base == m.wbase && m.res[m.turnRes].off == 0)
        && (m.turn == m.wbase ==> m.res[m.turnRes].End() == m.turn && !m.wp.locked)
        && (!m.wp.locked && !resetting ==> m.warpEnd == if m.turn == m.wbase then c.maxPos else m.turn - m.rbase))
  }

  // ----- producers

  ghost predicate SnapOk(c: Config, snap: Snap, wp: Word, lap: nat, wbase: nat)
    requires c.Valid()
  {
    && !snap.word.locked && snap.word.off < c.cap && snap.word.counter == snap.lap % c.counterMod
    && snap.lap <= lap && snap.Pos() <= wbase + wp.off
    && (if snap.lap == lap then snap.base == wbase else snap.base + c.cap <= wbase)
  }

  /** What the producer read of `rp` was right when it read it: it still fits the write
      position if that has not moved since the snapshot. */
  ghost predicate RpOk(c: Config, snap: Snap, rp: nat, rbase: nat, w: nat, r: nat) {
    && rp < c.cap && rbase + rp <= r
    && (snap.Pos() == w ==> RingOk(c.cap, snap.base, snap.word.off, rbase, rp))
  }

  ghost predicate HoldOk(m: Memory, p: nat, data: seq<Byte>, r: nat)
    requires |m.res| == |m.pushed|
  {
    && r < |m.res| && m.res[r].owner == p && !m.pushed[r]
    && m.res[r].pos + m.res[r].size <= |m.stream|
    && data == m.stream[m.res[r].pos..m.res[r].pos + m.res[r].size]
  }

  /** The offset in `reserve_pos` is that of the write position before the reservation. */
  ghost predicate ReserveAt(cap: nat, r: Res, off: nat) {
    off < cap && r.pre == (if r.Start() == r.pre then r.base else r.base - cap) + off
  }

  ghost predicate PcOk(c: Config, m: Memory, p: nat, q: Producer)
    requires c.Valid() && |m.res| == |m.pushed| && |m.res| == |m.done|
  {
    match q.pc
    case Out => q.flag ==> q.reserve.Free?
    case Registering => q.reserve.Free?
    case LoadWp => q.flag && !q.reserve.Claimed? && 0 < |q.data| < c.offsetMod
    case StoreReserve(snap) =>
      q.flag && !q.reserve.Claimed? && 0 < |q.data| < c.offsetMod && SnapOk(c, snap, m.wp, m.lap, m.wbase)
    case LoadRp(snap) =>
      q.flag && q.reserve == Claiming(snap.word.off) && 0 < |q.data| < c.offsetMod && SnapOk(c, snap, m.wp, m.lap, m.wbase)
    case Decide(snap, rp, rbase) =>
      q.flag && q.reserve == Claiming(snap.word.off) && 0 < |q.data| < c.offsetMod &&
      SnapOk(c, snap, m.wp, m.lap, m.wbase) && RpOk(c, snap, rp, rbase, m.W(), m.R())
    case Clear(r, target, off) =>
      q.flag && q.reserve == Claiming(off) && HoldOk(m, p, q.data, r) && m.done[r] == 0 && ReserveAt(c.cap, m.res[r], off) &&
      (if target.locked then LockOk(c, m, r, target, off) else m.res[r].off == off)
    case SetWarp(r, target, off) =>
      q.flag && q.reserve == Claimed(off) && HoldOk(m, p, q.data, r) && m.done[r] == 0 && ReserveAt(c.cap, m.res[r], off) &&
      target.locked && LockOk(c, m, r, target, off)
    case Unlock(r, target, off) =>
      q.flag && q.reserve == Claimed(off) && HoldOk(m, p, q.data, r) && m.done[r] == 0 && ReserveAt(c.cap, m.res[r], off) &&
      target.locked && LockOk(c, m, r, target, off) && m.warpEnd == off
    case Fill(r, off) =>
      q.flag && q.reserve.Claimed? && HoldOk(m, p, q.data, r) && ReserveAt(c.cap, m.res[r], q.reserve.off) && m.res[r].off == off
  }

  /** The producer that set the lock bit is alone in the turn of the ring. */
  ghost predicate LockOk(c: Config, m: Memory, r: nat, target: Word, off: nat)
    requires r < |m.res|
  {
    && m.wp == target && r == m.turnRes == |m.res| - 1 && m.wbase == m.rbase + c.cap
    && m.turn < m.wbase && m.turn == m.rbase + off && m.res[r].off == 0
  }

  // ----- the consumer

  /** A producer that was registered once leaves no stale offset behind. */
  ghost predicate Seen(q: Producer) {
    q.pc.Out? ==> q.reserve.Free?
  }

  /** What the scan has found after the producers below `i`. */
  ghost predicate ScanOk(c: Config, m: Memory, wp: nat, i: nat, ready: nat, snapPos: nat)
    requires |m.res| == |m.pushed|
  {
    && i <= c.producers && wp < c.cap && wp != m.rp
    && snapPos <= m.W() && Boundary(m.res, m.W(), snapPos)
    && (if wp > m.rp then snapPos == m.rbase + wp
        else snapPos == m.rbase + c.cap + wp && !m.wp.locked && m.wbase == m.rbase + c.cap)
    && (ready == c.maxPos || (m.rp <= ready < c.cap && Boundary(m.res, m.W(), m.rbase + ready)))
    && (forall j :: 0 <= j < |m.res| && !m.pushed[j] && m.res[j].owner < i ==>
          m.rbase + ready <= m.res[j].pre || snapPos <= m.res[j].pre || m.rbase + c.cap <= m.res[j].pre)
  }

  /** Everything before `x` is complete, and nothing straddles it. */
  ghost predicate SafeUpTo(res: seq<Res>, pushed: seq<bool>, w: nat, x: nat)
    requires |res| == |pushed|
  {
    x <= w && Boundary(res, w, x) && forall j :: 0 <= j < |res| && res[j].pre < x ==> pushed[j]
  }

  ghost predicate ConsumerOk(c: Config, m: Memory, k: ConsumerPc)
    requires |m.res| == |m.pushed|
  {
    match k
    case Rest(_, _) => true
    case CLoadWp(_, retried) => retried ==> m.rp == 0
    case Scan(_, retried, wp, i, ready, snapPos) => ScanOk(c, m, wp, i, ready, snapPos) && (retried ==> m.rp == 0)
    case ScanPos(_, retried, wp, i, ready, snapPos) => ScanOk(c, m, wp, i, ready, snapPos) && i < c.producers && (retried ==> m.rp == 0)
    case Reset(_) =>
      m.wbase == m.rbase + c.cap && !m.wp.locked && m.R() == m.turn < m.wbase && m.warpEnd == c.maxPos &&
      forall j :: 0 <= j < |m.res| && m.res[j].pre < m.wbase ==> m.pushed[j]
    case Copy(_, avail, n, got) =>
      0 < avail && m.rp + avail <= c.cap && n <= avail && |got| <= n &&
      SafeUpTo(m.res, m.pushed, m.W(), m.R() + avail) &&
      |m.taken| + |got| <= |m.stream| && got == m.stream[|m.taken|..|m.taken| + |got|]
  }

  ghost predicate MemoryOk(c: Config, m: Memory) {
    && c.Valid() && Shape(c, m)
    && RingOk(c.cap, m.wbase, m.wp.off, m.rbase, m.rp)
    && HistoryOk(c.cap, c.producers, m.res, m.W(), |m.stream|)
    && BasesOk(c.cap, m.res, m.rbase)
    && DoneOk(m.res, m.done, m.pushed)
    && ContentOk(m.buf, m.res, m.done, m.stream, m.R())
    && SyncOk(m.res, m.R(), m.W(), |m.taken|, |m.stream|)
  }

  ghost predicate Inv(c: Config, s: State) {
    && MemoryOk(c, s.m)
    && |s.ps| == c.producers
    && PendingOk(s.m.res, s.m.pushed, s.ps, s.m.R())
    && TurnOk(c, s.m, s.consumer.Reset?)
    && (forall p :: 0 <= p < |s.ps| ==> PcOk(c, s.m, p, s.ps[p]))
    && ConsumerOk(c, s.m, s.consumer)
    && (s.consumer.ScanPos? ==> s.consumer.i < |s.ps| && Seen(s.ps[s.consumer.i]))
  }

  lemma InitInv(c: Config, s: State)
    requires c.Valid() && Init(c, s)
    ensures Inv(c, s)
  {
  }
}
