/** `ds/mpsc.h` as a transition system: any number of producers and one consumer, one
    step for each access to shared memory.  Accesses are sequentially consistent. */
module MpscModel {
  import opened Basics

  /** `offsetMod` and `counterMod` are the ranges of the offset field and of the wrap
      counter in the packed write position; `maxPos` is MPSC_OFFSET_MAX. */
  datatype Config = Config(cap: nat, producers: nat, offsetMod: nat, counterMod: nat, maxPos: nat) {
    predicate Valid() {
      0 < cap < offsetMod <= maxPos && counterMod > 0
    }
  }

  /** The packed word `wp`: lock bit, wrap counter and offset. */
  datatype Word = Word(locked: bool, counter: nat, off: nat)

  /** A producer's `reserve_pos`: MPSC_OFFSET_MAX, an offset with the lock bit, or an offset. */
  datatype Reserve = Free | Claiming(off: nat) | Claimed(off: nat)

  /** What a producer read from `wp`; `lap` and `base` locate it in the run: laps count
      the wraps, and `base` is the position at which the lap starts. */
  datatype Snap = Snap(word: Word, lap: nat, base: nat) {
    ghost function Pos(): nat { base + word.off }
  }

  /** Where a producer stands. `Hold` numbers the reservation it has won. */
  datatype ProducerPc =
    | Out
    | Registering
    | LoadWp
    | StoreReserve(snap: Snap)
    | LoadRp(snap: Snap)
    | Decide(snap: Snap, rp: nat, rbase: nat)
    | Clear(r: nat, target: Word, off: nat)
    | SetWarp(r: nat, target: Word, off: nat)
    | Unlock(r: nat, target: Word, off: nat)
    | Fill(r: nat, off: nat)

  datatype Producer = Producer(pc: ProducerPc, reserve: Reserve, flag: bool, data: seq<Byte>)

  /** Where the consumer stands in `mpsc_read`. `Rest` holds what the last call asked for and got. */
  datatype ConsumerPc =
    | Rest(want: nat, got: seq<Byte>)
    | CLoadWp(want: nat, retried: bool)
    | Scan(want: nat, retried: bool, wp: nat, i: nat, ready: nat, snapPos: nat)
    | ScanPos(want: nat, retried: bool, wp: nat, i: nat, ready: nat, snapPos: nat)
    | Reset(want: nat)
    | Copy(want: nat, avail: nat, n: nat, got: seq<Byte>)

  /** One reservation in the order of the run. Positions count bytes of the ring from the
      start of the run, with `cap` to a lap: the write position was `pre` when the
      reservation was won, its bytes lie from `base + off` on, and they are the bytes
      from `pos` on of the stream of all bytes reserved. */
  datatype Res = Res(owner: nat, pre: nat, base: nat, off: nat, pos: nat, size: nat) {
    function Start(): nat { base + off }
    function End(): nat { base + off + size }
  }

  /** Shared memory (without the producers' words), and the history of the run. */
  datatype Memory = Memory(
    wp: Word, rp: nat, warpEnd: nat, buf: seq<Byte>,
    lap: nat, wbase: nat, rbase: nat, turn: nat, turnRes: nat,
    res: seq<Res>, done: seq<nat>, pushed: seq<bool>, stream: seq<Byte>, taken: seq<Byte>)
  {
    ghost function W(): nat { wbase + wp.off }
    ghost function R(): nat { rbase + rp }
  }

  datatype State = State(m: Memory, ps: seq<Producer>, consumer: ConsumerPc)

  ghost predicate Init(c: Config, s: State) {
    && s.m.wp == Word(false, 0, 0) && s.m.rp == 0 && s.m.warpEnd == c.maxPos && |s.m.buf| == c.cap
    && s.ps == seq(c.producers, _ => Producer(Out, Claimed(0), false, []))
    && s.consumer == Rest(0, [])
    && s.m.lap == s.m.wbase == s.m.rbase == s.m.turn == s.m.turnRes == 0
    && s.m.res == [] && s.m.done == [] && s.m.pushed == [] && s.m.stream == [] && s.m.taken == []
  }

  datatype Option<T> = None | Some(value: T)

  /** The word that `mpsc_acquire` tries to store, or None where it gives up. */
  function Target(c: Config, w: Word, size: nat, rp: nat): Option<Word>
    requires c.counterMod > 0
  {
    var target := w.off + size;
    if w.off < rp && target >= rp then None
    else if target >= c.cap then
      var off := if target > c.cap then size else 0;
      if off >= rp then None else Some(Word(target > c.cap, (w.counter + 1) % c.counterMod, off))
    else Some(Word(false, w.counter, target))
  }

  /** The cell of byte `k` of a copy of `size` bytes to or from offset `off`: the copy is
      split in two where it would pass the end of the buffer. */
  function Slot(c: Config, off: nat, size: nat, k: nat): nat
    requires k < size && off < c.cap
  {
    if off + size <= c.cap || k < c.cap - off then off + k else k - (c.cap - off)
  }

  datatype Action =
    | PReserveFree(p: nat)                  // mpsc_reg: store reserve_pos
    | PFlagOn(p: nat)                       // mpsc_reg: store flag
    | PFlagOff(p: nat)                      // mpsc_unreg
    | PBegin(p: nat, data: seq<Byte>)       // mpsc_write is called
    | PLoadWp(p: nat)
    | PStoreReserve(p: nat)
    | PLoadRp(p: nat)
    | PGiveUp(p: nat)
    | PCas(p: nat, spurious: bool)
    | PClear(p: nat)
    | PSetWarp(p: nat)
    | PUnlock(p: nat)
    | PCopyByte(p: nat)
    | PPush(p: nat)
    | CBegin(want: nat)                     // mpsc_read is called
    | CLoad
    | CScanFlag
    | CScanReserve
    | CDecide
    | CReset
    | CCopyByte
    | CFinish

  /** The end of the data in the lap that the consumer reads, as it sees it. */
  function WarpEnd(c: Config, s: State): nat {
    if s.m.warpEnd == c.maxPos then c.cap else s.m.warpEnd
  }

  /** `ready` at the end of the scan: the consumer may read up to here. */
  function Limit(c: Config, s: State): nat
    requires s.consumer.Scan?
  {
    if s.consumer.wp < s.m.rp then Min(s.consumer.ready, WarpEnd(c, s)) else Min(s.consumer.ready, s.consumer.wp)
  }

  function SetPc(s: State, p: nat, pc: ProducerPc): State
    requires p < |s.ps|
  {
    s.(ps := s.ps[p := s.ps[p].(pc := pc)])
  }

  function SetPcReserve(s: State, p: nat, pc: ProducerPc, reserve: Reserve): State
    requires p < |s.ps|
  {
    s.(ps := s.ps[p := s.ps[p].(pc := pc, reserve := reserve)])
  }

  function TargetOf(c: Config, s: State, p: nat): Option<Word>
    requires c.counterMod > 0 && p < |s.ps| && s.ps[p].pc.Decide?
  {
    Target(c, s.ps[p].pc.snap.word, |s.ps[p].data|, s.ps[p].pc.rp)
  }

  /** A weak compare-and-swap compares whole words, and may fail without a reason. */
  predicate CasWins(s: State, p: nat, spurious: bool)
    requires p < |s.ps| && s.ps[p].pc.Decide?
  {
    !spurious && s.m.wp == s.ps[p].pc.snap.word
  }

  /** The compare-and-swap that wins: the reservation exists from here on. */
  function Won(c: Config, s: State, p: nat): State
    requires c.Valid() && p < |s.ps| && s.ps[p].pc.Decide? && TargetOf(c, s, p).Some?
  {
    var snap, data := s.ps[p].pc.snap, s.ps[p].data;
    var target := TargetOf(c, s, p).value;
    var wraps := snap.word.off + |data| >= c.cap;
    var pre := s.m.wbase + s.m.wp.off;
    var base := if target.locked then s.m.wbase + c.cap else s.m.wbase;
    var off := if target.locked then 0 else s.m.wp.off;
    var s1 := SetPc(s, p, Clear(|s.m.res|, target, snap.word.off));
    s1.(m := s.m.(
          wp := target,
          lap := if wraps then s.m.lap + 1 else s.m.lap,
          wbase := if wraps then s.m.wbase + c.cap else s.m.wbase,
          turn := if target.locked then pre else if wraps then s.m.wbase + c.cap else s.m.turn,
          turnRes := if wraps then |s.m.res| else s.m.turnRes,
          res := s.m.res + [Res(p, pre, base, off, |s.m.stream|, |data|)],
          done := s.m.done + [0], pushed := s.m.pushed + [false], stream := s.m.stream + data))
  }

  function Cleared(s: State, p: nat): State
    requires p < |s.ps| && s.ps[p].pc.Clear? && !s.ps[p].reserve.Free?
  {
    var pc := s.ps[p].pc;
    SetPcReserve(s, p, if pc.target.locked then SetWarp(pc.r, pc.target, pc.off) else Fill(pc.r, pc.off),
                 Claimed(s.ps[p].reserve.off))
  }

  function WarpSet(s: State, p: nat): State
    requires p < |s.ps| && s.ps[p].pc.SetWarp?
  {
    var pc := s.ps[p].pc;
    SetPc(s.(m := s.m.(warpEnd := pc.off)), p, Unlock(pc.r, pc.target, pc.off))
  }

  function Unlocked(s: State, p: nat): State
    requires p < |s.ps| && s.ps[p].pc.Unlock?
  {
    var pc := s.ps[p].pc;
    SetPc(s.(m := s.m.(wp := pc.target.(locked := false))), p, Fill(pc.r, 0))
  }

  predicate CanCopyByte(c: Config, s: State, p: nat) {
    && p < |s.ps| && s.ps[p].pc.Fill? && s.ps[p].pc.r < |s.m.done| && s.ps[p].pc.off < c.cap == |s.m.buf|
    && s.m.done[s.ps[p].pc.r] < |s.ps[p].data|
    && Slot(c, s.ps[p].pc.off, |s.ps[p].data|, s.m.done[s.ps[p].pc.r]) < |s.m.buf|
  }

  function ByteCopied(c: Config, s: State, p: nat): State
    requires CanCopyByte(c, s, p)
  {
    var pc, data := s.ps[p].pc, s.ps[p].data;
    var k := s.m.done[pc.r];
    s.(m := s.m.(buf := s.m.buf[Slot(c, pc.off, |data|, k) := data[k]], done := s.m.done[pc.r := k + 1]))
  }

  predicate CanPush(s: State, p: nat) {
    && p < |s.ps| && s.ps[p].pc.Fill? && s.ps[p].pc.r < |s.m.done| == |s.m.pushed|
    && s.m.done[s.ps[p].pc.r] == |s.ps[p].data|
  }

  function Pushed(s: State, p: nat): State
    requires CanPush(s, p)
  {
    SetPcReserve(s.(m := s.m.(pushed := s.m.pushed[s.ps[p].pc.r := true])), p, Out, Free)
  }

  // ----- the consumer

  function Loaded(c: Config, s: State): State
    requires s.consumer.CLoadWp?
  {
    var want, retried := s.consumer.want, s.consumer.retried;
    if s.m.rp == s.m.wp.off then s.(consumer := Rest(want, []))
    else s.(consumer := Scan(want, retried, s.m.wp.off, 0, c.maxPos, s.m.wbase + s.m.wp.off))
  }

  function FlagScanned(s: State): State
    requires s.consumer.Scan? && s.consumer.i < |s.ps|
  {
    var k := s.consumer;
    if s.ps[k.i].flag then s.(consumer := ScanPos(k.want, k.retried, k.wp, k.i, k.ready, k.snapPos))
    else s.(consumer := Scan(k.want, k.retried, k.wp, k.i + 1, k.ready, k.snapPos))
  }

  function ReserveScanned(c: Config, s: State): State
    requires s.consumer.ScanPos? && s.consumer.i < |s.ps|
  {
    var k := s.consumer;
    var v := match s.ps[k.i].reserve { case Claimed(off) => off case _ => c.maxPos };
    var ready := if v >= s.m.rp && v < k.ready then v else k.ready;
    s.(consumer := Scan(k.want, k.retried, k.wp, k.i + 1, ready, k.snapPos))
  }

  /** What the decision at the end of the scan leads to. */
  function Decided(c: Config, s: State): State
    requires s.consumer.Scan? && s.m.rp <= Limit(c, s)
  {
    var want := s.consumer.want;
    if s.consumer.wp < s.m.rp && s.consumer.ready == c.maxPos && s.m.rp == WarpEnd(c, s) then
      s.(m := s.m.(warpEnd := c.maxPos), consumer := Reset(want))
    else
      var avail := Limit(c, s) - s.m.rp;
      if avail == 0 then s.(consumer := Rest(want, []))
      else s.(consumer := Copy(want, avail, if avail < want then 0 else want, []))
  }

  function WasReset(c: Config, s: State): State
    requires s.consumer.Reset?
  {
    s.(m := s.m.(rp := 0, rbase := s.m.rbase + c.cap), consumer := CLoadWp(s.consumer.want, true))
  }

  predicate CanReadByte(c: Config, s: State) {
    && s.consumer.Copy? && |s.consumer.got| < s.consumer.n && s.m.rp < c.cap == |s.m.buf|
    && Slot(c, s.m.rp, s.consumer.n, |s.consumer.got|) < |s.m.buf|
  }

  function ByteRead(c: Config, s: State): State
    requires CanReadByte(c, s)
  {
    var k := s.consumer;
    s.(consumer := Copy(k.want, k.avail, k.n, k.got + [s.m.buf[Slot(c, s.m.rp, k.n, |k.got|)]]))
  }

  function Released(c: Config, s: State): State
    requires s.consumer.Copy?
  {
    var k, end := s.consumer, s.m.rp + s.consumer.n;
    s.(m := s.m.(rp := if end == c.cap then 0 else end,
                 rbase := if end == c.cap then s.m.rbase + c.cap else s.m.rbase,
                 taken := s.m.taken + k.got),
       consumer := Rest(k.want, k.got))
  }

  // ----- steps

  /** When the step can happen.  A load that finds the lock bit set spins, so it waits. */
  predicate Enabled(c: Config, s: State, a: Action)
    requires c.Valid()
  {
    match a
    case PReserveFree(p) => p < |s.ps| && s.ps[p].pc.Out?
    case PFlagOn(p) => p < |s.ps| && s.ps[p].pc.Registering?
    case PFlagOff(p) => p < |s.ps| && s.ps[p].pc.Out?
    case PBegin(p, data) => p < |s.ps| && s.ps[p].pc.Out? && s.ps[p].flag && 0 < |data| < c.offsetMod
    case PLoadWp(p) => p < |s.ps| && s.ps[p].pc.LoadWp? && !s.m.wp.locked
    case PStoreReserve(p) => p < |s.ps| && s.ps[p].pc.StoreReserve?
    case PLoadRp(p) => p < |s.ps| && s.ps[p].pc.LoadRp?
    case PGiveUp(p) => p < |s.ps| && s.ps[p].pc.Decide? && TargetOf(c, s, p).None?
    case PCas(p, spurious) => p < |s.ps| && s.ps[p].pc.Decide? && TargetOf(c, s, p).Some? &&
      // fewer wraps during one attempt than the counter can count
      (CasWins(s, p, spurious) ==> s.m.lap < s.ps[p].pc.snap.lap + c.counterMod)
    case PClear(p) => p < |s.ps| && s.ps[p].pc.Clear? && !s.ps[p].reserve.Free?
    case PSetWarp(p) => p < |s.ps| && s.ps[p].pc.SetWarp?
    case PUnlock(p) => p < |s.ps| && s.ps[p].pc.Unlock?
    case PCopyByte(p) => CanCopyByte(c, s, p)
    case PPush(p) => CanPush(s, p)
    case CBegin(want) => s.consumer.Rest?
    case CLoad => s.consumer.CLoadWp? && !s.m.wp.locked
    case CScanFlag => s.consumer.Scan? && s.consumer.i < |s.ps|
    case CScanReserve => s.consumer.ScanPos? && s.consumer.i < |s.ps| && !s.ps[s.consumer.i].reserve.Claiming?
    case CDecide => s.consumer.Scan? && s.consumer.i == |s.ps| && s.m.rp <= Limit(c, s)
    case CReset => s.consumer.Reset?
    case CCopyByte => CanReadByte(c, s)
    case CFinish => s.consumer.Copy? && |s.consumer.got| == s.consumer.n
  }

  function Apply(c: Config, s: State, a: Action): State
    requires c.Valid() && Enabled(c, s, a)
  {
    match a
    case PReserveFree(p) => SetPcReserve(s, p, Registering, Free)
    case PFlagOn(p) => s.(ps := s.ps[p := s.ps[p].(pc := Out, flag := true)])
    case PFlagOff(p) => s.(ps := s.ps[p := s.ps[p].(flag := false)])
    case PBegin(p, data) => s.(ps := s.ps[p := s.ps[p].(pc := LoadWp, data := data)])
    case PLoadWp(p) => SetPc(s, p, StoreReserve(Snap(s.m.wp, s.m.lap, s.m.wbase)))
    case PStoreReserve(p) =>
      SetPcReserve(s, p, LoadRp(s.ps[p].pc.snap), Claiming(s.ps[p].pc.snap.word.off))
    case PLoadRp(p) => SetPc(s, p, Decide(s.ps[p].pc.snap, s.m.rp, s.m.rbase))
    case PGiveUp(p) => SetPcReserve(s, p, Out, Free)
    case PCas(p, spurious) => if CasWins(s, p, spurious) then Won(c, s, p) else SetPc(s, p, LoadWp)
    case PClear(p) => Cleared(s, p)
    case PSetWarp(p) => WarpSet(s, p)
    case PUnlock(p) => Unlocked(s, p)
    case PCopyByte(p) => ByteCopied(c, s, p)
    case PPush(p) => Pushed(s, p)
    case CBegin(want) => s.(consumer := CLoadWp(want, false))
    case CLoad => Loaded(c, s)
    case CScanFlag => FlagScanned(s)
    case CScanReserve => ReserveScanned(c, s)
    case CDecide => Decided(c, s)
    case CReset => WasReset(c, s)
    case CCopyByte => ByteRead(c, s)
    case CFinish => Released(c, s)
  }
}
