/** What `ds/spsc.h` promises: a bounded FIFO of bytes, and where its bytes lie in the buffer. */
module SpscSpec {
  import opened Basics
  import opened Arith

  datatype Policy = Truncate | Overwrite | Reject

  /** What a write makes of a queue of at most `cap` bytes, and the count it returns. */
  function Written(policy: Policy, cap: nat, queue: seq<Byte>, src: seq<Byte>): (seq<Byte>, nat)
    requires |queue| <= cap
  {
    var free := cap - |queue|;
    if |src| <= free then (queue + src, |src|)
    else
      match policy
      case Truncate => (queue + src[..free], free)
      case Overwrite => ((queue + src)[|queue| + |src| - cap..], |src|)
      case Reject => (queue, 0)
  }

  /** The three policies: what is kept is a front part of the bytes, all or none of them, or
      the last `cap` bytes of everything; nothing is given up while there is room. */
  lemma WrittenLaws(policy: Policy, cap: nat, queue: seq<Byte>, src: seq<Byte>)
    requires |queue| <= cap
    ensures var (now, n) := Written(policy, cap, queue, src);
            n <= |src| && |now| <= cap &&
            (|queue| + |src| <= cap ==> now == queue + src && n == |src|) &&
            (policy == Truncate ==> now == queue + src[..n] && (n < |src| ==> |now| == cap)) &&
            (policy == Reject ==> (now == queue + src && n == |src|) || (now == queue && n == 0)) &&
            (policy == Overwrite && |queue| + |src| > cap ==>
              n == |src| && |now| == cap && now == (queue + src)[|queue + src| - cap..])
  {
    assert src[..|src|] == src;
  }

  // ----- histories of writes and reads

  datatype Op = Put(src: seq<Byte>) | Take(n: nat)

  /** The queue a history leaves. */
  function Left(policy: Policy, cap: nat, queue: seq<Byte>, ops: seq<Op>): (q: seq<Byte>)
    requires |queue| <= cap
    ensures |q| <= cap
    decreases |ops|
  {
    if ops == [] then queue
    else
      match ops[0]
      case Put(src) => Left(policy, cap, Written(policy, cap, queue, src).0, ops[1..])
      case Take(n) => Left(policy, cap, queue[Min(n, |queue|)..], ops[1..])
  }

  /** What its reads return, joined. */
  function Taken(policy: Policy, cap: nat, queue: seq<Byte>, ops: seq<Op>): seq<Byte>
    requires |queue| <= cap
    decreases |ops|
  {
    if ops == [] then []
    else
      match ops[0]
      case Put(src) => Taken(policy, cap, Written(policy, cap, queue, src).0, ops[1..])
      case Take(n) => queue[..Min(n, |queue|)] + Taken(policy, cap, queue[Min(n, |queue|)..], ops[1..])
  }

  /** What its writes report as written, joined. */
  function Accepted(policy: Policy, cap: nat, queue: seq<Byte>, ops: seq<Op>): seq<Byte>
    requires |queue| <= cap
    decreases |ops|
  {
    if ops == [] then []
    else
      match ops[0]
      case Put(src) =>
        var (now, n) := Written(policy, cap, queue, src);
        src[..Min(n, |src|)] + Accepted(policy, cap, now, ops[1..])
      case Take(n) => Accepted(policy, cap, queue[Min(n, |queue|)..], ops[1..])
  }

  lemma Rejoin(a: seq<Byte>, b: seq<Byte>, c: seq<Byte>)
    ensures a + (b + c) == a + b + c
  {}

  /** Where nothing is overwritten, what was there and what was accepted comes out in order,
      each byte once, and the rest is still there. */
  lemma {:induction false} FirstInFirstOut(policy: Policy, cap: nat, queue: seq<Byte>, ops: seq<Op>)
    requires |queue| <= cap && policy != Overwrite
    ensures Taken(policy, cap, queue, ops) + Left(policy, cap, queue, ops) == queue + Accepted(policy, cap, queue, ops)
    decreases |ops|
  {
    if ops == [] {
      assert queue + [] == queue;
    } else if ops[0].Put? {
      var (now, n) := Written(policy, cap, queue, ops[0].src);
      WrittenLaws(policy, cap, queue, ops[0].src);
      FirstInFirstOut(policy, cap, now, ops[1..]);
      assert now == queue + ops[0].src[..n];
      Rejoin(queue, ops[0].src[..n], Accepted(policy, cap, now, ops[1..]));
    } else {
      var n := Min(ops[0].n, |queue|);
      FirstInFirstOut(policy, cap, queue[n..], ops[1..]);
      Rejoin(queue[..n], Taken(policy, cap, queue[n..], ops[1..]), Left(policy, cap, queue[n..], ops[1..]));
      Rejoin(queue[..n], queue[n..], Accepted(policy, cap, queue[n..], ops[1..]));
      assert queue[..n] + queue[n..] == queue;
    }
  }

  lemma SuffixOfSuffix(a: seq<Byte>, b: seq<Byte>, i: nat, j: nat)
    requires i <= |a| && j <= |a[i..] + b|
    ensures (a[i..] + b)[j..] == (a + b)[i + j..]
  {}

  /** Where old bytes are overwritten, the queue is what was written last; and it is as much
      of that as the buffer holds, unless something was read. */
  lemma {:induction false} OverwriteKeepsLatest(cap: nat, queue: seq<Byte>, ops: seq<Op>) returns (drop: nat)
    requires |queue| <= cap
    ensures drop <= |queue + Accepted(Overwrite, cap, queue, ops)|
    ensures Left(Overwrite, cap, queue, ops) == (queue + Accepted(Overwrite, cap, queue, ops))[drop..]
    ensures (forall i :: 0 <= i < |ops| ==> ops[i].Put?) ==>
              |Left(Overwrite, cap, queue, ops)| == Min(cap, |queue + Accepted(Overwrite, cap, queue, ops)|)
    decreases |ops|
  {
    if ops == [] {
      drop := 0;
      assert queue + [] == queue;
    } else {
      var step, now, more := 0, queue, queue;
      match ops[0] {
        case Put(src) =>
          now := Written(Overwrite, cap, queue, src).0;
          more := queue + src;
          step := |more| - |now|;
          assert src[..|src|] == src && now == more[step..];
        case Take(n) =>
          step := Min(n, |queue|);
          now := queue[step..];
      }
      var rest := OverwriteKeepsLatest(cap, now, ops[1..]);
      drop := step + rest;
      SuffixOfSuffix(more, Accepted(Overwrite, cap, now, ops[1..]), step, rest);
      if ops[0].Put? { Rejoin(queue, ops[0].src, Accepted(Overwrite, cap, now, ops[1..])); }
    }
  }

  /** The buffer holds `b` where a free-running counter at `pos` points. */
  ghost predicate ByteAt(buf: seq<Byte>, pos: nat, b: Byte)
    requires |buf| > 0
  {
    buf[pos % |buf|] == b
  }

  /** The queue lies in the buffer from the read counter on. */
  ghost predicate Stores(buf: seq<Byte>, read: nat, queue: seq<Byte>) {
    |buf| > 0 && forall i :: 0 <= i < |queue| ==> ByteAt(buf, read + i, queue[i])
  }

  /** `memcpy` of `src` into the buffer. */
  function Patched(buf: seq<Byte>, at: nat, src: seq<Byte>): (b: seq<Byte>)
    requires at + |src| <= |buf|
    ensures |b| == |buf|
    ensures forall i :: 0 <= i < |buf| ==> b[i] == if at <= i < at + |src| then src[i - at] else buf[i]
  {
    buf[..at] + src + buf[at + |src|..]
  }

  /** Both parts of the copy stay inside the buffer. */
  predicate CopyFits(cap: nat, off: nat, size: nat)
    requires off < cap
  {
    size - Min(size, cap - off) <= cap
  }

  /** Exactly then the offset and the size together are at most twice the capacity, as they
      are whenever the size is at most the capacity. */
  lemma WhenCopyFits(cap: nat, off: nat, size: nat)
    requires off < cap
    ensures CopyFits(cap, off, size) <==> off + size <= 2 * cap
    ensures size <= cap ==> CopyFits(cap, off, size)
  {}

  /** A larger overwrite runs over the end of the buffer. */
  lemma OverwriteRunsOver(cap: nat)
    requires cap > 0
    ensures !CopyFits(cap, 0, 2 * cap + 1)
  {}

  function Spliced(buf: seq<Byte>, off: nat, src: seq<Byte>): (b: seq<Byte>)
    requires off < |buf| && CopyFits(|buf|, off, |src|)
    ensures |b| == |buf|
  {
    var first := Min(|src|, |buf| - off);
    Patched(Patched(buf, off, src[..first]), 0, src[first..])
  }

  lemma Ahead(w: nat, s: nat, cap: nat)
    requires cap > 0 && w % cap + s < 2 * cap
    ensures (w + s) % cap == if w % cap + s < cap then w % cap + s else w % cap + s - cap
  {
    var q, off := w / cap, w % cap;
    assert w == q * cap + off;
    if off + s < cap {
      DivisionIsUnique(w + s, q, off + s, cap);
    } else {
      assert (q + 1) * cap == q * cap + cap;
      DivisionIsUnique(w + s, q + 1, off + s - cap, cap);
    }
  }

  lemma Behind(w: nat, d: nat, cap: nat)
    requires cap > 0 && 0 < d <= cap && d <= w
    ensures (w - d) % cap == if d <= w % cap then w % cap - d else w % cap - d + cap
  {
    var x := (w - d) % cap;
    Ahead(w - d, d, cap);
  }

  lemma NewByte(buf: seq<Byte>, written: nat, src: seq<Byte>, s: nat)
    requires |buf| > 0 && written % |buf| + |src| <= 2 * |buf| && s < |src| <= s + |buf|
    ensures ByteAt(Spliced(buf, written % |buf|, src), written + s, src[s])
  {
    Ahead(written, s, |buf|);
  }

  lemma OldByte(buf: seq<Byte>, written: nat, src: seq<Byte>, d: nat, b: Byte)
    requires |buf| > 0 && written % |buf| + |src| <= 2 * |buf| && 0 < d && d + |src| <= |buf| && d <= written
    requires ByteAt(buf, written - d, b)
    ensures ByteAt(Spliced(buf, written % |buf|, src), written - d, b)
  {
    Behind(written, d, |buf|);
  }

  lemma SplicedByte(buf: seq<Byte>, read: nat, queue: seq<Byte>, src: seq<Byte>, a: nat)
    requires Stores(buf, read, queue)
    requires (read + |queue|) % |buf| + |src| <= 2 * |buf|
    requires a < |queue| + |src| <= a + |buf|
    ensures ByteAt(Spliced(buf, (read + |queue|) % |buf|, src), read + a, (queue + src)[a])
  {
    hide Spliced;
    var w := read + |queue|;
    if a < |queue| {
      OldByte(buf, w, src, |queue| - a, queue[a]);
      assert w - (|queue| - a) == read + a;
    } else {
      NewByte(buf, w, src, a - |queue|);
      assert w + (a - |queue|) == read + a;
    }
  }

  /** The two-part copy appends to the queue; as many of the oldest bytes are given up as the
      capacity demands. */
  lemma SplicedStores(buf: seq<Byte>, read: nat, queue: seq<Byte>, src: seq<Byte>, drop: nat)
    requires Stores(buf, read, queue)
    requires (read + |queue|) % |buf| + |src| <= 2 * |buf|
    requires drop <= |queue| + |src| <= drop + |buf|
    ensures Stores(Spliced(buf, (read + |queue|) % |buf|, src), read + drop, (queue + src)[drop..])
  {
    hide Spliced, ByteAt;
    var kept := (queue + src)[drop..];
    var now := Spliced(buf, (read + |queue|) % |buf|, src);
    forall i | 0 <= i < |kept| ensures ByteAt(now, read + drop + i, kept[i]) {
      SplicedByte(buf, read, queue, src, drop + i);
      assert read + (drop + i) == read + drop + i;
    }
  }

  lemma FrontByte(buf: seq<Byte>, read: nat, queue: seq<Byte>, i: nat)
    requires Stores(buf, read, queue) && i < |queue| <= |buf|
    ensures var off := read % |buf|;
            queue[i] == buf[if off + i < |buf| then off + i else off + i - |buf|]
  {
    assert ByteAt(buf, read + i, queue[i]);
    Ahead(read, i, |buf|);
  }

  /** What lies at the read counter, copied out in two parts, is the front of the queue. */
  lemma FrontOfQueue(buf: seq<Byte>, read: nat, queue: seq<Byte>, size: nat)
    requires Stores(buf, read, queue) && size <= |queue| <= |buf|
    ensures var off := read % |buf|; var first := Min(size, |buf| - off);
            buf[off..off + first] + buf[..size - first] == queue[..size]
  {
    var off := read % |buf|;
    var first := Min(size, |buf| - off);
    var got := buf[off..off + first] + buf[..size - first];
    forall i | 0 <= i < size ensures got[i] == queue[i] {
      FrontByte(buf, read, queue, i);
    }
  }

  lemma RestOfQueue(buf: seq<Byte>, read: nat, queue: seq<Byte>, size: nat)
    requires Stores(buf, read, queue) && size <= |queue|
    ensures Stores(buf, read + size, queue[size..])
  {
    hide ByteAt;
    var rest := queue[size..];
    forall i | 0 <= i < |rest| ensures ByteAt(buf, read + size + i, rest[i]) {
      assert ByteAt(buf, read + (size + i), queue[size + i]);
      assert read + size + i == read + (size + i);
    }
  }
}
