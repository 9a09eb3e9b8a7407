/** `ds/spsc.h` as a class: free-running counters of type `usz` that wrap, indices by mask, and
    copies in two parts. Each call is proved to act on a bounded queue of bytes. */
module Spscs {
  import opened Basics
  import opened Bits
  import opened SpscSpec

  /** The counters, wrapped at the width of `usz`, and the buffer show a queue of which `read`
      bytes have been taken or given up before. */
  ghost predicate Represents(bits: nat, exponent: nat, buf: seq<Byte>, wp: nat, rp: nat, read: nat, queue: seq<Byte>) {
    exponent < bits && |buf| == Pow2(exponent) &&
    wp == (read + |queue|) % Pow2(bits) && rp == read % Pow2(bits) &&
    |queue| <= |buf| && Stores(buf, read, queue)
  }

  lemma Distance(bits: nat, exponent: nat, buf: seq<Byte>, wp: nat, rp: nat, read: nat, queue: seq<Byte>)
    requires Represents(bits, exponent, buf, wp, rp, read, queue)
    ensures 0 < |buf| < Pow2(bits) && wp < Pow2(bits) && rp < Pow2(bits)
    ensures Minus(wp, rp, Pow2(bits)) == |queue| <= |buf|
    ensures And(wp, |buf| - 1) == (read + |queue|) % |buf| < |buf|
    ensures And(rp, |buf| - 1) == read % |buf| < |buf|
  {
    hide And, Pow2, Stores;
    PowerGrows(exponent, bits);
    WrappedDistance(read + |queue|, read, Pow2(bits));
    MaskedCounter(read + |queue|, exponent, bits);
    MaskedCounter(read, exponent, bits);
  }

  /** A write of `src` by the two-part copy, giving up the `drop` oldest bytes. */
  lemma AfterWrite(bits: nat, exponent: nat, buf: seq<Byte>, wp: nat, rp: nat, read: nat, queue: seq<Byte>,
                   src: seq<Byte>, drop: nat)
    requires Represents(bits, exponent, buf, wp, rp, read, queue)
    requires |src| < Pow2(bits) && drop < Pow2(bits)
    requires And(wp, |buf| - 1) + |src| <= 2 * |buf|
    requires drop <= |queue| + |src| <= drop + |buf|
    ensures wp < Pow2(bits) && rp < Pow2(bits)
    ensures And(wp, |buf| - 1) < |buf| && CopyFits(|buf|, And(wp, |buf| - 1), |src|)
    ensures Represents(bits, exponent, Spliced(buf, And(wp, |buf| - 1), src),
                       Plus(wp, |src|, Pow2(bits)), Plus(rp, drop, Pow2(bits)),
                       read + drop, (queue + src)[drop..])
  {
    hide And, Pow2, Stores, Spliced, Plus;
    Distance(bits, exponent, buf, wp, rp, read, queue);
    SplicedStores(buf, read, queue, src, drop);
    WrappedSum(read + |queue|, |src|, Pow2(bits));
    WrappedSum(read, drop, Pow2(bits));
    assert read + drop + |(queue + src)[drop..]| == read + |queue| + |src|;
  }

  lemma AfterRead(bits: nat, exponent: nat, buf: seq<Byte>, wp: nat, rp: nat, read: nat, queue: seq<Byte>, n: nat)
    requires Represents(bits, exponent, buf, wp, rp, read, queue) && n <= |queue|
    ensures rp < Pow2(bits) && n < Pow2(bits)
    ensures Represents(bits, exponent, buf, wp, Plus(rp, n, Pow2(bits)), read + n, queue[n..])
    ensures And(rp, |buf| - 1) < |buf|
    ensures
      var off := And(rp, |buf| - 1);
      var first := Min(n, |buf| - off);
      buf[off..off + first] + buf[..n - first] == queue[..n]
  {
    hide And, Pow2, Stores, Plus;
    Distance(bits, exponent, buf, wp, rp, read, queue);
    WrappedSum(read, n, Pow2(bits));
    FrontOfQueue(buf, read, queue, n);
    RestOfQueue(buf, read, queue, n);
    assert read + n + |queue[n..]| == read + |queue|;
  }

  class Spsc {
    /** The width of `usz`. */
    const bits: nat
    const buf: array<Byte>
    var policy: Policy
    var cap: nat
    var wp: nat
    var rp: nat
    ghost var exponent: nat
    ghost var read: nat
    ghost var queue: seq<Byte>

    ghost predicate Valid()
      reads this, buf
    {
      cap == buf.Length && Represents(bits, exponent, buf[..], wp, rp, read, queue)
    }

    lemma Counters()
      requires Valid()
      ensures 0 < cap < Pow2(bits) && wp < Pow2(bits) && rp < Pow2(bits)
      ensures Minus(wp, rp, Pow2(bits)) == |queue| <= cap
      ensures And(wp, cap - 1) < cap && And(rp, cap - 1) < cap
    {
      Distance(bits, exponent, buf[..], wp, rp, read, queue);
    }

    constructor (bits: nat, buf: array<Byte>)
      ensures this.bits == bits && this.buf == buf
    {
      this.bits := bits;
      this.buf := buf;
      policy, cap, wp, rp := Truncate, 0, 0, 0;
    }

    /** `spsc_init_buf`: a capacity that is not a power of two is refused. */
    method Init(capacity: nat, mode: Policy) returns (ret: int)
      requires capacity < Pow2(bits) && capacity == buf.Length
      modifies this
      ensures ret == if IsPower(capacity) then 0 else -1
      ensures ret == 0 ==> Valid() && queue == [] && policy == mode && cap == capacity
      ensures ret != 0 ==> unchanged(this)
    {
      PowerTest(capacity);
      if !PassesPowerTest(capacity) {
        return -1;
      }
      policy := mode;
      cap := capacity;
      rp := 0;
      wp := 0;
      ghost var k: nat :| capacity == Pow2(k);
      PowerOrder(k, bits);
      ZeroMod(Pow2(bits));
      exponent, read, queue := k, 0, [];
      return 0;
    }

    /** `spsc_reset`. */
    method Reset()
      requires Valid()
      modifies this
      ensures Valid() && queue == [] && cap == old(cap) && policy == old(policy)
    {
      rp := 0;
      wp := 0;
      ZeroMod(Pow2(bits));
      read, queue := 0, [];
    }

    /** `spsc_avail`. */
    method Avail() returns (n: nat)
      requires Valid()
      ensures n == |queue|
    {
      Counters();
      n := Minus(wp, rp, Pow2(bits));
    }

    /** `spsc_free`. */
    method FreeSpace() returns (n: nat)
      requires Valid()
      ensures n == cap - |queue|
    {
      var avail := Avail();
      n := cap - avail;
    }

    /** `spsc_policy`: how much to write; an overwrite moves the read counter at once. */
    method ApplyPolicy(w: nat, r: nat, size: nat) returns (n: nat)
      requires Valid() && w == wp && r == rp && size < Pow2(bits)
      modifies `rp
      ensures n == if size <= cap - |queue| then size
                   else if policy == Overwrite then size
                   else if policy == Truncate then cap - |queue|
                   else 0
      ensures rp == if policy == Overwrite && size > cap - |queue|
                    then Plus(old(rp), size - (cap - |queue|), Pow2(bits))
                    else old(rp)
    {
      Counters();
      var free := cap - Minus(w, r, Pow2(bits));
      if size <= free {
        return size;
      }
      match policy {
        case Truncate =>
          return free;
        case Overwrite =>
          rp := Plus(rp, size - free, Pow2(bits));
          return size;
        case Reject =>
          return 0;
      }
    }

    method Copy(at: nat, src: seq<Byte>)
      requires at + |src| <= buf.Length
      modifies buf
      ensures buf[..] == Patched(old(buf[..]), at, src)
    {
      forall i | 0 <= i < |src| {
        buf[at + i] := src[i];
      }
    }

    /** An overwrite is given at most as many bytes as its two-part copy has room for. */
    predicate HasRoom(size: nat)
      requires Valid()
      reads this, buf
    {
      Counters();
      policy == Overwrite ==> And(wp, cap - 1) + size <= 2 * cap
    }

    /** That is exactly when the copy of what the policy lets through stays in the buffer. */
    lemma RoomIsExact(src: seq<Byte>)
      requires Valid()
      ensures And(wp, cap - 1) < cap
      ensures HasRoom(|src|) <==> CopyFits(cap, And(wp, cap - 1), Written(policy, cap, queue, src).1)
    {
      Counters();
      hide And;
    }

    /** `spsc_write_buf`. */
    method Write(src: seq<Byte>) returns (n: nat)
      requires Valid() && |src| < Pow2(bits) && HasRoom(|src|)
      modifies this, buf
      ensures Valid() && cap == old(cap) && policy == old(policy)
      ensures (queue, n) == Written(policy, cap, old(queue), src)
    {
      hide Represents, And, Pow2, Patched, Plus, Minus;
      Counters();
      var w, r := wp, rp;
      n := ApplyPolicy(w, r, |src|);
      ghost var bytes, drop := buf[..], if n <= cap - |queue| then 0 else n - (cap - |queue|);
      if n == 0 {
        NothingWritten(policy, cap, queue, src);
        return;
      }
      var off := And(w, cap - 1);
      var first := Min(n, cap - off);
      AfterWrite(bits, exponent, bytes, w, r, read, queue, src[..n], drop);
      PlusZero(r, Pow2(bits));
      Copy(off, src[..first]);
      Copy(0, src[first..n]);
      assert src[..n][..first] == src[..first] && src[..n][first..] == src[first..n];
      wp := Plus(w, n, Pow2(bits));
      Kept(policy, cap, queue, src, n, drop);
      read, queue := read + drop, (queue + src[..n])[drop..];
    }

    /** `spsc_read_buf`. */
    method Read(dst: array<Byte>, size: nat) returns (n: nat)
      requires Valid() && size <= dst.Length && dst != buf
      modifies this, dst
      ensures Valid() && cap == old(cap) && policy == old(policy)
      ensures n == Min(size, |old(queue)|) && queue == old(queue)[n..]
      ensures dst[..] == old(queue)[..n] + old(dst[n..])
    {
      hide Represents, And, Pow2, Plus, Minus;
      Counters();
      n := size;
      var avail := Minus(wp, rp, Pow2(bits));
      if n > avail {
        n := avail;
      }
      if n == 0 {
        return;
      }
      TakeFront(dst, n);
    }

    /** The part of `spsc_read_buf` that copies, and moves the read counter. */
    method TakeFront(dst: array<Byte>, n: nat)
      requires Valid() && 0 < n <= |queue| && n <= dst.Length && dst != buf
      modifies this`rp, this`read, this`queue, dst
      ensures Valid() && queue == old(queue)[n..]
      ensures dst[..] == old(queue)[..n] + old(dst[n..])
    {
      hide Represents, And, Pow2, Plus, Minus, Stores;
      Counters();
      AfterRead(bits, exponent, buf[..], wp, rp, read, queue, n);
      var off := And(rp, cap - 1);
      var first := Min(n, cap - off);
      ghost var front := buf[off..off + first] + buf[..n - first];
      assert front == queue[..n];
      CopyOut(dst, off, first, n);
      rp := Plus(rp, n, Pow2(bits));
      read, queue := read + n, queue[n..];
    }

    method CopyOut(dst: array<Byte>, off: nat, first: nat, n: nat)
      requires first <= n <= dst.Length && off + first <= buf.Length && n - first <= buf.Length && dst != buf
      modifies dst
      ensures dst[..] == buf[off..off + first] + buf[..n - first] + old(dst[n..])
    {
      forall i | 0 <= i < first {
        dst[i] := buf[off + i];
      }
      forall i | 0 <= i < n - first {
        dst[first + i] := buf[i];
      }
    }
  }

  lemma PlusZero(a: nat, word: nat)
    requires a < word
    ensures Plus(a, 0, word) == a
  {}

  lemma NothingWritten(policy: Policy, cap: nat, queue: seq<Byte>, src: seq<Byte>)
    requires |queue| <= cap && Written(policy, cap, queue, src).1 == 0
    ensures Written(policy, cap, queue, src).0 == queue
  {}

  lemma Kept(policy: Policy, cap: nat, queue: seq<Byte>, src: seq<Byte>, n: nat, drop: nat)
    requires |queue| <= cap && n == Written(policy, cap, queue, src).1 > 0
    requires drop == if n <= cap - |queue| then 0 else n - (cap - |queue|)
    ensures n <= |src| && drop <= |queue| + n
    ensures (queue + src[..n])[drop..] == Written(policy, cap, queue, src).0
  {}
}
