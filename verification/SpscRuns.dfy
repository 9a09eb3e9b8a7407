/** One writer and one reader of `ds/spsc.h` at the same time, under the policies that never
    touch the read counter of the reader. Counters are loaded and stored atomically; the copies
    go byte by byte, in any order, and the other side may run between any two bytes. */
module SpscRuns {
  import opened Basics
  import Arith
  import opened Bits
  import opened SpscSpec

  datatype Config = Config(bits: nat, exponent: nat, policy: Policy) {
    ghost predicate Valid() {
      exponent < bits && policy != Overwrite
    }

    function Cap(): nat { Pow2(exponent) }

    function Word(): nat { Pow2(bits) }
  }

  /** A writer that copies `src`, of which the bytes at `done` are in place. */
  datatype Writer = WriterIdle | Copying(src: seq<Byte>, done: set<nat>)

  /** A reader that copies `n` bytes out, having those in `got`. */
  datatype Reader = ReaderIdle | Fetching(n: nat, got: map<nat, Byte>)

  /** `sent` and `taken` are the bytes published and the bytes released so far. */
  datatype State = State(buf: seq<Byte>, wp: nat, rp: nat, writer: Writer, reader: Reader,
                         sent: seq<Byte>, taken: seq<Byte>)

  datatype Action =
    | StartWrite(src: seq<Byte>)
    | CopyIn(i: nat)
    | Publish
    | StartRead(size: nat)
    | CopyOut(j: nat)
    | Release

  /** Where the two-part copy puts byte `i`. */
  function Place(off: nat, cap: nat, i: nat): nat {
    if i < cap - off then off + i else i - (cap - off)
  }

  function Offset(c: Config, counter: nat): nat {
    And(counter, c.Cap() - 1)
  }

  predicate InRange(c: Config, s: State) {
    s.wp < c.Word() && s.rp < c.Word() && c.Cap() == |s.buf|
  }

  /** The bytes `spsc_policy` lets a write of `src` have. */
  function Granted(c: Config, s: State, src: seq<Byte>): seq<Byte>
    requires InRange(c, s)
  {
    var avail := Minus(s.wp, s.rp, c.Word());
    if |src| + avail <= c.Cap() then src
    else if c.policy == Truncate && avail <= c.Cap() then src[..c.Cap() - avail]
    else []
  }

  ghost predicate Enabled(c: Config, s: State, a: Action) {
    InRange(c, s) &&
    match a
    case StartWrite(src) => s.writer.WriterIdle? && |src| < c.Word() && Granted(c, s, src) != []
    case CopyIn(i) =>
      s.writer.Copying? && i < |s.writer.src| && Place(Offset(c, s.wp), c.Cap(), i) < |s.buf|
    case Publish =>
      s.writer.Copying? && |s.writer.src| < c.Word() && forall i :: 0 <= i < |s.writer.src| ==> i in s.writer.done
    case StartRead(size) => s.reader.ReaderIdle? && Min(size, Minus(s.wp, s.rp, c.Word())) > 0
    case CopyOut(j) =>
      s.reader.Fetching? && j < s.reader.n && Place(Offset(c, s.rp), c.Cap(), j) < |s.buf|
    case Release =>
      s.reader.Fetching? && s.reader.n < c.Word() && forall j :: 0 <= j < s.reader.n ==> j in s.reader.got
  }

  ghost function Fetched(n: nat, got: map<nat, Byte>): seq<Byte>
    requires forall j :: 0 <= j < n ==> j in got
  {
    seq(n, j requires 0 <= j < n => got[j])
  }

  ghost function Apply(c: Config, s: State, a: Action): State
    requires Enabled(c, s, a)
  {
    match a
    case StartWrite(src) => s.(writer := Copying(Granted(c, s, src), {}))
    case CopyIn(i) =>
      s.(buf := s.buf[Place(Offset(c, s.wp), c.Cap(), i) := s.writer.src[i]],
         writer := s.writer.(done := s.writer.done + {i}))
    case Publish =>
      s.(wp := Plus(s.wp, |s.writer.src|, c.Word()), sent := s.sent + s.writer.src, writer := WriterIdle)
    case StartRead(size) => s.(reader := Fetching(Min(size, Minus(s.wp, s.rp, c.Word())), map[]))
    case CopyOut(j) =>
      s.(reader := s.reader.(got := s.reader.got[j := s.buf[Place(Offset(c, s.rp), c.Cap(), j)]]))
    case Release =>
      s.(rp := Plus(s.rp, s.reader.n, c.Word()), taken := s.taken + Fetched(s.reader.n, s.reader.got),
         reader := ReaderIdle)
  }

  ghost predicate Init(c: Config, s: State) {
    c.Valid() && |s.buf| == c.Cap() && s.wp == 0 && s.rp == 0 &&
    s.writer == WriterIdle && s.reader == ReaderIdle && s.sent == [] && s.taken == []
  }

  // ---- The invariant

  ghost predicate WriterOk(s: State)
    requires |s.buf| > 0
  {
    s.writer.Copying? ==>
      0 < |s.writer.src| && |s.sent| + |s.writer.src| <= |s.taken| + |s.buf| &&
      forall i :: i in s.writer.done && i < |s.writer.src| ==> ByteAt(s.buf, |s.sent| + i, s.writer.src[i])
  }

  ghost predicate ReaderOk(s: State) {
    s.reader.Fetching? ==>
      0 < s.reader.n && |s.taken| + s.reader.n <= |s.sent| &&
      forall j :: j in s.reader.got && j < s.reader.n ==> s.reader.got[j] == s.sent[|s.taken| + j]
  }

  /** What has been read is the front of what has been written, and the rest is in the buffer. */
  ghost predicate Inv(c: Config, s: State) {
    c.Valid() && |s.buf| == c.Cap() &&
    s.taken <= s.sent && |s.sent| <= |s.taken| + |s.buf| &&
    s.wp == |s.sent| % c.Word() && s.rp == |s.taken| % c.Word() &&
    Stores(s.buf, |s.taken|, s.sent[|s.taken|..]) &&
    WriterOk(s) && ReaderOk(s)
  }

  // ---- Where the copies go

  lemma CountersShow(c: Config, s: State)
    requires Inv(c, s)
    ensures InRange(c, s) && 0 < |s.buf| < c.Word()
    ensures Minus(s.wp, s.rp, c.Word()) == |s.sent| - |s.taken|
  {
    hide Pow2, And;
    PowerGrows(c.exponent, c.bits);
    WrappedDistance(|s.sent|, |s.taken|, c.Word());
  }

  lemma PlaceIs(c: Config, x: nat, i: nat)
    requires c.exponent < c.bits && i <= c.Cap()
    ensures Place(Offset(c, x % c.Word()), c.Cap(), i) == (x + i) % c.Cap()
  {
    hide Pow2, And;
    MaskedCounter(x, c.exponent, c.bits);
    Ahead(x, i, c.Cap());
  }

  lemma WriterPlace(c: Config, s: State, i: nat)
    requires Inv(c, s) && s.writer.Copying? && i < |s.writer.src|
    ensures Place(Offset(c, s.wp), c.Cap(), i) == (|s.sent| + i) % |s.buf|
  {
    hide Pow2, And, Stores;
    PlaceIs(c, |s.sent|, i);
  }

  lemma ReaderPlace(c: Config, s: State, j: nat)
    requires Inv(c, s) && s.reader.Fetching? && j < s.reader.n
    ensures Place(Offset(c, s.rp), c.Cap(), j) == (|s.taken| + j) % |s.buf|
  {
    hide Pow2, And, Stores;
    PlaceIs(c, |s.taken|, j);
  }

  lemma PlacesDiffer(cap: nat, x: nat, y: nat)
    requires x < y < x + cap
    ensures x % cap != y % cap
  {
    if x % cap == y % cap { Arith.SameMod(x, y, cap); }
  }

  /** While both sides copy, no byte of the buffer belongs to both copies. */
  lemma RegionsNeverOverlap(c: Config, s: State, i: nat, j: nat)
    requires Inv(c, s) && s.writer.Copying? && s.reader.Fetching?
    requires i < |s.writer.src| && j < s.reader.n
    ensures Place(Offset(c, s.wp), c.Cap(), i) != Place(Offset(c, s.rp), c.Cap(), j)
    ensures Place(Offset(c, s.wp), c.Cap(), i) < |s.buf| && Place(Offset(c, s.rp), c.Cap(), j) < |s.buf|
  {
    hide Pow2, And, Stores, Place, Offset;
    WriterPlace(c, s, i);
    ReaderPlace(c, s, j);
    PlacesDiffer(|s.buf|, |s.taken| + j, |s.sent| + i);
  }

  // ---- Every step keeps the invariant

  lemma InitIsInv(c: Config, s: State)
    requires Init(c, s)
    ensures Inv(c, s)
  {
    ZeroMod(c.Word());
  }

  lemma StartWriteKeeps(c: Config, s: State, src: seq<Byte>)
    requires Inv(c, s) && Enabled(c, s, StartWrite(src))
    ensures Inv(c, Apply(c, s, StartWrite(src)))
  {
    hide Pow2, Stores;
    CountersShow(c, s);
  }

  lemma StartReadKeeps(c: Config, s: State, size: nat)
    requires Inv(c, s) && Enabled(c, s, StartRead(size))
    ensures Inv(c, Apply(c, s, StartRead(size)))
  {
    hide Pow2, Stores;
    CountersShow(c, s);
  }

  lemma OtherBytesStay(buf: seq<Byte>, x: nat, y: nat, b: Byte, v: Byte)
    requires |buf| > 0 && (x < y < x + |buf| || y < x < y + |buf|)
    ensures y % |buf| < |buf| && ByteAt(buf[y % |buf| := b], x, v) <==> ByteAt(buf, x, v)
  {
    if x < y { PlacesDiffer(|buf|, x, y); } else { PlacesDiffer(|buf|, y, x); }
  }

  lemma CopyInKeeps(c: Config, s: State, i: nat)
    requires Inv(c, s) && Enabled(c, s, CopyIn(i))
    ensures Inv(c, Apply(c, s, CopyIn(i)))
  {
    hide Pow2, And, ByteAt, Place, Offset;
    WriterPlace(c, s, i);
    var t, y, queue := Apply(c, s, CopyIn(i)), |s.sent| + i, s.sent[|s.taken|..];
    var b := s.writer.src[i];
    assert t.buf == s.buf[y % |s.buf| := b];
    forall k | 0 <= k < |queue| ensures ByteAt(t.buf, |s.taken| + k, queue[k]) {
      assert ByteAt(s.buf, |s.taken| + k, queue[k]);
      OtherBytesStay(s.buf, |s.taken| + k, y, b, queue[k]);
    }
    forall k | k in t.writer.done && k < |t.writer.src| ensures ByteAt(t.buf, |s.sent| + k, t.writer.src[k]) {
      if k == i {
        JustWritten(s.buf, y, b);
      } else {
        OtherBytesStay(s.buf, |s.sent| + k, y, b, s.writer.src[k]);
      }
    }
  }

  lemma JustWritten(buf: seq<Byte>, y: nat, b: Byte)
    requires |buf| > 0
    ensures ByteAt(buf[y % |buf| := b], y, b)
  {}

  lemma PublishKeeps(c: Config, s: State)
    requires Inv(c, s) && Enabled(c, s, Publish)
    ensures Inv(c, Apply(c, s, Publish))
  {
    hide Pow2, ByteAt, Plus;
    CountersShow(c, s);
    WrappedSum(|s.sent|, |s.writer.src|, c.Word());
    var t, queue := Apply(c, s, Publish), s.sent[|s.taken|..];
    var more := t.sent[|s.taken|..];
    assert more == queue + s.writer.src;
    forall k | 0 <= k < |more| ensures ByteAt(t.buf, |s.taken| + k, more[k]) {
      if k < |queue| {
        assert ByteAt(s.buf, |s.taken| + k, queue[k]);
      } else {
        assert ByteAt(s.buf, |s.sent| + (k - |queue|), s.writer.src[k - |queue|]);
        assert |s.sent| + (k - |queue|) == |s.taken| + k;
      }
    }
  }

  lemma CopyOutKeeps(c: Config, s: State, j: nat)
    requires Inv(c, s) && Enabled(c, s, CopyOut(j))
    ensures Inv(c, Apply(c, s, CopyOut(j)))
  {
    hide Pow2, And, Place, Offset;
    ReaderPlace(c, s, j);
    assert ByteAt(s.buf, |s.taken| + j, s.sent[|s.taken|..][j]);
  }

  lemma ReleaseKeeps(c: Config, s: State)
    requires Inv(c, s) && Enabled(c, s, Release)
    ensures Inv(c, Apply(c, s, Release))
  {
    hide Pow2, ByteAt, Plus;
    CountersShow(c, s);
    var n := s.reader.n;
    WrappedSum(|s.taken|, n, c.Word());
    var got := Fetched(n, s.reader.got);
    assert got == s.sent[|s.taken|..|s.taken| + n];
    assert s.taken + got == s.sent[..|s.taken| + n] by { Prefix(s.taken, s.sent, n); }
    assert s.sent[|s.taken| + n..] == s.sent[|s.taken|..][n..];
    RestOfQueue(s.buf, |s.taken|, s.sent[|s.taken|..], n);
  }

  lemma Prefix(a: seq<Byte>, b: seq<Byte>, n: nat)
    requires a <= b && |a| + n <= |b|
    ensures a + b[|a|..|a| + n] == b[..|a| + n] <= b
  {}

  lemma StepKeepsInv(c: Config, s: State, a: Action)
    requires Inv(c, s) && Enabled(c, s, a)
    ensures Inv(c, Apply(c, s, a))
  {
    hide Inv, Enabled, Apply;
    match a {
      case StartWrite(src) => StartWriteKeeps(c, s, src);
      case CopyIn(i) => CopyInKeeps(c, s, i);
      case Publish => PublishKeeps(c, s);
      case StartRead(size) => StartReadKeeps(c, s, size);
      case CopyOut(j) => CopyOutKeeps(c, s, j);
      case Release => ReleaseKeeps(c, s);
    }
  }

  // ---- Whole runs

  ghost predicate StepAt(c: Config, ss: seq<State>, acts: seq<Action>, i: nat)
    requires i < |acts| && |ss| == |acts| + 1
  {
    Enabled(c, ss[i], acts[i]) && ss[i + 1] == Apply(c, ss[i], acts[i])
  }

  ghost predicate IsRun(c: Config, ss: seq<State>, acts: seq<Action>) {
    |ss| == |acts| + 1 && Init(c, ss[0]) && forall i :: 0 <= i < |acts| ==> StepAt(c, ss, acts, i)
  }

  lemma {:induction false} RunKeepsInv(c: Config, ss: seq<State>, acts: seq<Action>, i: nat)
    requires IsRun(c, ss, acts) && i <= |acts|
    ensures Inv(c, ss[i])
  {
    if i == 0 {
      InitIsInv(c, ss[0]);
    } else {
      RunKeepsInv(c, ss, acts, i - 1);
      assert StepAt(c, ss, acts, i - 1);
      StepKeepsInv(c, ss[i - 1], acts[i - 1]);
    }
  }

  /** In every interleaving the bytes released are a front part of the bytes published, at most
      a capacity behind; those fetched but not yet released carry on where they end; and the
      counters, wrapped as they are, give the distance. */
  lemma ReadIsPrefixOfWritten(c: Config, ss: seq<State>, acts: seq<Action>, i: nat)
    requires IsRun(c, ss, acts) && i <= |acts|
    ensures ss[i].taken <= ss[i].sent && |ss[i].sent| <= |ss[i].taken| + c.Cap()
    ensures ss[i].reader.Fetching? ==>
              |ss[i].taken| + ss[i].reader.n <= |ss[i].sent| &&
              forall j :: j in ss[i].reader.got && j < ss[i].reader.n ==>
                ss[i].reader.got[j] == ss[i].sent[|ss[i].taken| + j]
    ensures InRange(c, ss[i]) && Minus(ss[i].wp, ss[i].rp, c.Word()) == |ss[i].sent| - |ss[i].taken|
  {
    RunKeepsInv(c, ss, acts, i);
    CountersShow(c, ss[i]);
  }

  /** Nothing but the protocol holds a step back: a copy never leaves the buffer, and each side
      can always go on with what it has started. */
  lemma NoStepFails(c: Config, s: State)
    requires Inv(c, s)
    ensures forall i: nat :: s.writer.Copying? && i < |s.writer.src| ==> Enabled(c, s, CopyIn(i))
    ensures forall j: nat :: s.reader.Fetching? && j < s.reader.n ==> Enabled(c, s, CopyOut(j))
    ensures s.writer.Copying? && (forall i :: 0 <= i < |s.writer.src| ==> i in s.writer.done) ==>
              Enabled(c, s, Publish)
    ensures s.reader.Fetching? && (forall j :: 0 <= j < s.reader.n ==> j in s.reader.got) ==>
              Enabled(c, s, Release)
  {
    hide Pow2, And, Place, Offset, Stores;
    CountersShow(c, s);
    forall i: nat | s.writer.Copying? && i < |s.writer.src| ensures Enabled(c, s, CopyIn(i)) {
      WriterPlace(c, s, i);
    }
    forall j: nat | s.reader.Fetching? && j < s.reader.n ensures Enabled(c, s, CopyOut(j)) {
      ReaderPlace(c, s, j);
    }
  }

  // ---- What is asked for and what is done

  /** The bytes that fit behind what is published and not yet released. */
  ghost function Room(c: Config, s: State): nat {
    if |s.sent| <= |s.taken| + c.Cap() then |s.taken| + c.Cap() - |s.sent| else 0
  }

  ghost function Unread(s: State): nat {
    if |s.taken| <= |s.sent| then |s.sent| - |s.taken| else 0
  }

  /** A write goes ahead exactly if all its bytes fit, or some do and a part is good enough. */
  lemma WriteGoesAhead(c: Config, s: State, src: seq<Byte>)
    requires Inv(c, s)
    ensures Enabled(c, s, StartWrite(src)) <==>
      s.writer.WriterIdle? && 0 < |src| < c.Word() &&
      (|src| <= Room(c, s) || (c.policy == Truncate && Room(c, s) > 0))
  {
    hide Pow2, Stores;
    CountersShow(c, s);
  }

  /** A read goes ahead exactly if it wants a byte and there is one. */
  lemma ReadGoesAhead(c: Config, s: State, size: nat)
    requires Inv(c, s)
    ensures Enabled(c, s, StartRead(size)) <==> s.reader.ReaderIdle? && size > 0 && Unread(s) > 0
  {
    hide Pow2, Stores;
    CountersShow(c, s);
  }

  /** What the writes of a run ought to bring: all of each under REJECT, and under TRUNCATE the
      front part for which there is room when the write starts. */
  ghost function Offered(c: Config, ss: seq<State>, acts: seq<Action>, i: nat): seq<Byte>
    requires |ss| == |acts| + 1 && i <= |acts|
  {
    if i == 0 then []
    else if acts[i - 1].StartWrite? then
      var src := acts[i - 1].src;
      Offered(c, ss, acts, i - 1) + (if c.policy == Reject then src else src[..Min(|src|, Room(c, ss[i - 1]))])
    else Offered(c, ss, acts, i - 1)
  }

  /** How many bytes the reads of a run ought to take: what each asks for, or all there is. */
  ghost function Asked(ss: seq<State>, acts: seq<Action>, i: nat): nat
    requires |ss| == |acts| + 1 && i <= |acts|
  {
    if i == 0 then 0
    else Asked(ss, acts, i - 1) + (if acts[i - 1].StartRead? then Min(acts[i - 1].size, Unread(ss[i - 1])) else 0)
  }

  ghost function InHand(s: State): seq<Byte> {
    if s.writer.Copying? then s.writer.src else []
  }

  ghost function InFlight(s: State): nat {
    if s.reader.Fetching? then s.reader.n else 0
  }

  lemma WriteStarts(c: Config, s: State, src: seq<Byte>)
    requires Inv(c, s) && Enabled(c, s, StartWrite(src))
    ensures InHand(s) == []
    ensures InHand(Apply(c, s, StartWrite(src))) == if c.policy == Reject then src else src[..Min(|src|, Room(c, s))]
  {
    hide Pow2, Stores;
    CountersShow(c, s);
  }

  lemma ReadStarts(c: Config, s: State, size: nat)
    requires Inv(c, s) && Enabled(c, s, StartRead(size))
    ensures InFlight(s) == 0 && InFlight(Apply(c, s, StartRead(size))) == Min(size, Unread(s))
  {
    hide Pow2, Stores;
    CountersShow(c, s);
  }

  /** In every interleaving, what is published and what is being copied in is what was offered,
      byte for byte: a write loses nothing, and under REJECT it is all or nothing. */
  lemma {:induction false} PublishedIsOffered(c: Config, ss: seq<State>, acts: seq<Action>, i: nat)
    requires IsRun(c, ss, acts) && i <= |acts|
    ensures ss[i].sent + InHand(ss[i]) == Offered(c, ss, acts, i)
  {
    if i > 0 {
      PublishedIsOffered(c, ss, acts, i - 1);
      RunKeepsInv(c, ss, acts, i - 1);
      assert StepAt(c, ss, acts, i - 1);
      var s := ss[i - 1];
      hide Inv, Granted, Room;
      if acts[i - 1].StartWrite? { WriteStarts(c, s, acts[i - 1].src); }
    }
  }

  /** In every interleaving, what is released and what is being copied out is as much as the
      reads asked for, or as was there when they started. */
  lemma {:induction false} ReleasedIsAsked(c: Config, ss: seq<State>, acts: seq<Action>, i: nat)
    requires IsRun(c, ss, acts) && i <= |acts|
    ensures |ss[i].taken| + InFlight(ss[i]) == Asked(ss, acts, i)
  {
    if i > 0 {
      ReleasedIsAsked(c, ss, acts, i - 1);
      RunKeepsInv(c, ss, acts, i - 1);
      assert StepAt(c, ss, acts, i - 1);
      var s := ss[i - 1];
      hide Inv, Granted, Unread;
      if acts[i - 1].StartRead? { ReadStarts(c, s, acts[i - 1].size); }
    }
  }
}
