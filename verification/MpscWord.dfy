/** How `ds/mpsc.h` packs the lock bit, the wrap counter and the offset into one word. */
module MpscWord {
  import opened MpscModel
  import opened Arith
  import opened Bits

  datatype Build = Host | Mcu

  /** MPSC_OFFSET_MASK is `OffsetMod - 1`. */
  function OffsetMod(b: Build): nat { if b == Host then 0x1_0000_0000 else 0x1_0000 }

  /** MPSC_WRAP_COUNTER masks this many values of the counter. */
  function CounterMod(b: Build): nat { if b == Host then 0x8000_0000 else 0x8000 }

  /** MPSC_WRAP_LOCK_BIT. */
  function LockBit(b: Build): nat { OffsetMod(b) * CounterMod(b) }

  /** The range of `usz`. */
  function Modulus(b: Build): nat { 2 * LockBit(b) }

  /** The widths of the fields in bits. */
  function OffsetBits(b: Build): nat { if b == Host then 32 else 16 }

  function CounterBitCount(b: Build): nat { if b == Host then 31 else 15 }

  function ConfigOf(b: Build, cap: nat, producers: nat): Config {
    Config(cap, producers, OffsetMod(b), CounterMod(b), LockBit(b) - 1)
  }

  predicate InRange(b: Build, w: Word) {
    w.counter < CounterMod(b) && w.off < OffsetMod(b)
  }

  function Pack(b: Build, w: Word): nat {
    (if w.locked then LockBit(b) else 0) + w.counter * OffsetMod(b) + w.off
  }

  // The masks of the C code, on packed words.

  function Offset(b: Build, x: nat): nat { x % OffsetMod(b) }

  function CounterBits(b: Build, x: nat): nat { x / OffsetMod(b) % CounterMod(b) * OffsetMod(b) }

  function Incremented(b: Build, x: nat): nat { CounterBits(b, x + OffsetMod(b)) }

  function IsLocked(b: Build, x: nat): bool { x / LockBit(b) % 2 == 1 }

  /** The masks take a packed word apart again, and MPSC_WRAP_INCR counts up modulo the
      range of the counter without touching the other fields. */
  lemma FieldsComeBack(b: Build, w: Word)
    requires InRange(b, w)
    ensures Offset(b, Pack(b, w)) == w.off
    ensures CounterBits(b, Pack(b, w)) == w.counter * OffsetMod(b)
    ensures Incremented(b, CounterBits(b, Pack(b, w))) == (w.counter + 1) % CounterMod(b) * OffsetMod(b)
    ensures IsLocked(b, Pack(b, w)) == w.locked
  {
    var x := Pack(b, w);
    var high := (if w.locked then CounterMod(b) else 0) + w.counter;
    DivisionIsUnique(x, high, w.off, OffsetMod(b));
    DivisionIsUnique(high, if w.locked then 1 else 0, w.counter, CounterMod(b));
    LockComesBack(b, w);
    CounterGrows(b, w);
    hide IsLocked, Incremented;
  }

  lemma LockComesBack(b: Build, w: Word)
    requires InRange(b, w)
    ensures IsLocked(b, Pack(b, w)) == w.locked
  {
    DivisionIsUnique(Pack(b, w), if w.locked then 1 else 0, w.counter * OffsetMod(b) + w.off, LockBit(b));
  }

  lemma CounterGrows(b: Build, w: Word)
    requires InRange(b, w)
    ensures Incremented(b, w.counter * OffsetMod(b)) == (w.counter + 1) % CounterMod(b) * OffsetMod(b)
  {
    DivisionIsUnique((w.counter + 1) * OffsetMod(b), w.counter + 1, 0, OffsetMod(b));
  }

  /** Words compare equal, as the compare-and-swap does, exactly if all their fields do. */
  lemma PackIsInjective(b: Build, v: Word, w: Word)
    requires InRange(b, v) && InRange(b, w)
    ensures Pack(b, v) == Pack(b, w) <==> v == w
  {
    hide Offset, CounterBits, IsLocked, Incremented, Pack;
    FieldsComeBack(b, v);
    FieldsComeBack(b, w);
    hide OffsetMod, CounterMod;
    if Pack(b, v) == Pack(b, w) {
      MulGap(v.counter, w.counter, OffsetMod(b));
      MulGap(w.counter, v.counter, OffsetMod(b));
    }
  }

  /** The configuration of either build meets the conditions of the model, for a capacity
      that the offset field can hold. */
  lemma ConfigIsValid(b: Build, cap: nat, producers: nat)
    ensures ConfigOf(b, cap, producers).Valid() <==> 0 < cap < OffsetMod(b)
  {
  }

  /** `mpsc_acquire` computes the word it tries to store from the packed word, in the
      arithmetic of `usz`. */
  function PackedTarget(b: Build, cap: nat, x: nat, size: nat, rp: nat): Option<nat>
    requires size < Modulus(b)
  {
    var off := Offset(b, x);
    var target := Plus(off, size, Modulus(b));
    if off < rp && target >= rp then None
    else if target >= cap then
      var t := if target > cap then Or(LockBit(b), size) else 0;
      if Offset(b, t) >= rp then None else Some(Or(t, Incremented(b, CounterBits(b, x))))
    else Some(Or(target, CounterBits(b, x)))
  }

  lemma OffsetIsPower(b: Build)
    ensures OffsetMod(b) == Pow2(OffsetBits(b)) && CounterMod(b) == Pow2(CounterBitCount(b))
    ensures OffsetBits(b) == CounterBitCount(b) + 1
  {
    assert Pow2(1) == 2 && Pow2(2) == 4 && Pow2(3) == 8 && Pow2(4) == 16;
    hide Pow2;
    PowerSplits(4, 3);
    PowerSplits(4, 4);
    PowerSplits(8, 7);
    PowerSplits(8, 8);
    PowerSplits(16, 15);
    PowerSplits(16, 16);
  }

  /** The lock bit lies above every counter and offset, so that joining with `|` adds. */
  lemma FieldsJoin(b: Build, low: nat, counter: nat)
    requires low < OffsetMod(b) && counter < CounterMod(b)
    ensures Or(LockBit(b), low) == LockBit(b) + low
    ensures Or(low, counter * OffsetMod(b)) == counter * OffsetMod(b) + low
    ensures Or(LockBit(b) + low, counter * OffsetMod(b)) == LockBit(b) + counter * OffsetMod(b) + low
  {
    OffsetIsPower(b);
    var k, n := OffsetBits(b), CounterBitCount(b);
    OrJoins(k, CounterMod(b), low);
    OrJoins(k, counter, low);
    hide Or, And, Pow2;
    LockAndCounter(b, low, counter);
  }

  /** Joined in this way, the fields are a packed word. */
  lemma JoinedIsPacked(b: Build, low: nat, counter: nat)
    requires low < OffsetMod(b) && counter < CounterMod(b)
    ensures Or(Or(LockBit(b), low), counter * OffsetMod(b)) == Pack(b, Word(true, counter, low))
    ensures Or(low, counter * OffsetMod(b)) == Pack(b, Word(false, counter, low))
  {
    hide Or;
    FieldsJoin(b, low, counter);
  }

  lemma LockAndCounter(b: Build, low: nat, counter: nat)
    requires low < OffsetMod(b) && counter < CounterMod(b)
    ensures Or(LockBit(b) + low, counter * OffsetMod(b)) == LockBit(b) + counter * OffsetMod(b) + low
  {
    OffsetIsPower(b);
    hide And, Pow2;
    AndSplits(OffsetBits(b), CounterMod(b), low, counter, 0);
    AndSplits(CounterBitCount(b), 1, 0, 0, counter);
    AndOfZero(1);
    AndOfZero(counter);
    AndOfZero(low);
  }

  /** The mask takes an oversize request apart as the remainder, lock bit or not. */
  lemma MaskedSize(b: Build, size: nat)
    requires size < Modulus(b)
    ensures Offset(b, Or(LockBit(b), size)) == size % OffsetMod(b)
  {
    OffsetIsPower(b);
    hide And, Pow2;
    var high, low := size / OffsetMod(b), size % OffsetMod(b);
    AndSplits(OffsetBits(b), CounterMod(b), 0, high, low);
    AndOfZero(low);
    DivisionIsUnique(Or(LockBit(b), size), CounterMod(b) + high - And(CounterMod(b), high), low, OffsetMod(b));
  }

  /** The word of the model that `mpsc_acquire` tries to store, packed. */
  function Wanted(b: Build, cap: nat, w: Word, size: nat, rp: nat): Option<nat> {
    match Target(ConfigOf(b, cap, 0), w, size, rp) case None => None case Some(t) => Some(Pack(b, t))
  }

  lemma SmallTarget(b: Build, cap: nat, w: Word, size: nat, rp: nat)
    requires InRange(b, w) && !w.locked && size < OffsetMod(b) && 0 < cap < OffsetMod(b)
    ensures size < Modulus(b) && PackedTarget(b, cap, Pack(b, w), size, rp) == Wanted(b, cap, w, size, rp)
  {
    Ranges(b, w.off, size);
    if w.off + size > cap {
      FarTarget(b, cap, w, size, rp);
    } else if w.off + size == cap {
      ExactTarget(b, cap, w, size, rp);
    } else {
      NearTarget(b, cap, w, size, rp);
    }
  }

  lemma FarTarget(b: Build, cap: nat, w: Word, size: nat, rp: nat)
    requires InRange(b, w) && !w.locked && size < OffsetMod(b) && size < Modulus(b) && 0 < cap < OffsetMod(b)
    requires w.off + size > cap
    ensures PackedTarget(b, cap, Pack(b, w), size, rp) == Wanted(b, cap, w, size, rp)
  {
    hide Offset, CounterBits, Incremented, Or, OffsetMod, CounterMod, LockBit, Modulus, Pack;
    FieldsComeBack(b, w);
    Ranges(b, w.off, size);
    var next := NextCounter(b, w);
    JoinedIsPacked(b, size, next);
  }

  lemma ExactTarget(b: Build, cap: nat, w: Word, size: nat, rp: nat)
    requires InRange(b, w) && !w.locked && size < OffsetMod(b) && size < Modulus(b) && 0 < cap < OffsetMod(b)
    requires w.off + size == cap
    ensures PackedTarget(b, cap, Pack(b, w), size, rp) == Wanted(b, cap, w, size, rp)
  {
    hide Offset, CounterBits, Incremented, Or, OffsetMod, CounterMod, LockBit, Modulus, Pack;
    FieldsComeBack(b, w);
    Ranges(b, w.off, size);
    var next := NextCounter(b, w);
    JoinedIsPacked(b, 0, next);
    NoOffset(b);
  }

  lemma NearTarget(b: Build, cap: nat, w: Word, size: nat, rp: nat)
    requires InRange(b, w) && !w.locked && size < OffsetMod(b) && size < Modulus(b) && 0 < cap < OffsetMod(b)
    requires w.off + size < cap
    ensures PackedTarget(b, cap, Pack(b, w), size, rp) == Wanted(b, cap, w, size, rp)
  {
    hide Offset, CounterBits, Incremented, Or, OffsetMod, CounterMod, LockBit, Modulus, Pack;
    FieldsComeBack(b, w);
    Ranges(b, w.off, size);
    JoinedIsPacked(b, w.off + size, w.counter);
  }

  lemma NextCounter(b: Build, w: Word) returns (next: nat)
    ensures next == (w.counter + 1) % CounterMod(b) < CounterMod(b)
  {
    next := (w.counter + 1) % CounterMod(b);
  }

  lemma Ranges(b: Build, off: nat, size: nat)
    requires off < OffsetMod(b) && size < OffsetMod(b)
    ensures off < Modulus(b) && size < Modulus(b) && Plus(off, size, Modulus(b)) == off + size
    ensures Offset(b, Or(LockBit(b), size)) == size
  {
    MaskedSize(b, size);
    DivisionIsUnique(size, 0, size, OffsetMod(b));
  }

  lemma NoOffset(b: Build)
    ensures Offset(b, 0) == 0 < OffsetMod(b)
  {
  }

  // ----- which sizes are decided rightly

  /** The sizes for which no offset makes a wrong decision. */
  predicate Decidable(b: Build, cap: nat, size: nat)
    requires cap > 0
  {
    size < OffsetMod(b) || (cap - 1 <= size % OffsetMod(b) && size + cap - 1 < Modulus(b))
  }

  /** Both positions a request can be decided at, within a buffer of `cap` bytes. */
  ghost predicate At(b: Build, cap: nat, w: Word, rp: nat) {
    InRange(b, w) && !w.locked && w.off < cap && rp < cap
  }

  /** A size beyond the offset field that is still decidable is refused everywhere. */
  lemma OversizeIsRefused(b: Build, cap: nat, w: Word, size: nat, rp: nat)
    requires 0 < cap < OffsetMod(b) <= size < Modulus(b) && Decidable(b, cap, size) && At(b, cap, w, rp)
    ensures PackedTarget(b, cap, Pack(b, w), size, rp).None?
  {
    FieldsComeBack(b, w);
    MaskedSize(b, size);
    hide Offset, CounterBits, Incremented, Or;
  }

  /** For every other size there is a place in the ring where it is granted. */
  lemma UndecidableIsGranted(b: Build, cap: nat, size: nat) returns (w: Word, rp: nat)
    requires 0 < cap < OffsetMod(b) && size < Modulus(b) && !Decidable(b, cap, size)
    ensures At(b, cap, w, rp) && PackedTarget(b, cap, Pack(b, w), size, rp).Some?
  {
    var masked := size % OffsetMod(b);
    w := Word(false, 0, if masked + 1 < cap then masked + 1 else cap - 1);
    rp := if masked + 1 < cap then w.off else 0;
    FieldsComeBack(b, w);
    MaskedSize(b, size);
    hide Offset, CounterBits, Incremented, Or;
  }

  /** What is stored, or the refusal, is what the model has. */
  ghost predicate DecidedRightly(b: Build, cap: nat, size: nat, w: Word, rp: nat)
    requires size < Modulus(b)
  {
    PackedTarget(b, cap, Pack(b, w), size, rp) == Wanted(b, cap, w, size, rp)
  }

  ghost predicate GrantedFits(b: Build, cap: nat, size: nat, w: Word, rp: nat)
    requires size < Modulus(b)
  {
    PackedTarget(b, cap, Pack(b, w), size, rp).Some? ==> size <= cap
  }

  /** What does not fit the buffer is refused in unbounded arithmetic, and what is granted fits. */
  lemma ModelRefuses(b: Build, cap: nat, w: Word, size: nat, rp: nat)
    requires At(b, cap, w, rp) && size > cap > 0
    ensures Wanted(b, cap, w, size, rp).None?
  {
  }

  /** On packed words the decision is the one of the model, for every decidable size; the
      configuration is one of the model's. */
  lemma PackedTargetIsTarget(b: Build, cap: nat, w: Word, size: nat, rp: nat)
    requires 0 < cap < OffsetMod(b) && size < Modulus(b) && Decidable(b, cap, size) && At(b, cap, w, rp)
    ensures DecidedRightly(b, cap, size, w, rp) && GrantedFits(b, cap, size, w, rp)
    ensures ConfigOf(b, cap, 0).Valid()
  {
    ConfigIsValid(b, cap, 0);
    if size < OffsetMod(b) {
      SmallTarget(b, cap, w, size, rp);
    } else {
      OversizeIsRefused(b, cap, w, size, rp);
    }
    if size > cap { ModelRefuses(b, cap, w, size, rp); }
    hide PackedTarget, Wanted;
  }

  /** `mpsc_acquire` decides and stores as in unbounded arithmetic, wherever the ring stands,
      exactly for the decidable sizes; and exactly for these a request that is granted fits
      the buffer. */
  lemma AcquireIsExact(b: Build, cap: nat, size: nat)
    requires 0 < cap < OffsetMod(b) && size < Modulus(b)
    ensures (forall w, rp :: At(b, cap, w, rp) ==> DecidedRightly(b, cap, size, w, rp)) <==> Decidable(b, cap, size)
    ensures (forall w, rp :: At(b, cap, w, rp) ==> GrantedFits(b, cap, size, w, rp)) <==> Decidable(b, cap, size)
  {
    if Decidable(b, cap, size) {
      forall w, rp | At(b, cap, w, rp)
        ensures DecidedRightly(b, cap, size, w, rp) && GrantedFits(b, cap, size, w, rp)
      {
        PackedTargetIsTarget(b, cap, w, size, rp);
      }
    } else {
      var w, rp := UndecidableIsGranted(b, cap, size);
      ModelRefuses(b, cap, w, size, rp);
      hide PackedTarget, Wanted;
      assert !DecidedRightly(b, cap, size, w, rp) && !GrantedFits(b, cap, size, w, rp);
    }
  }

  /** One byte more than the field can count is taken for one byte. */
  lemma OversizeIsGranted(b: Build, cap: nat, off: nat)
    requires 2 <= off < cap < OffsetMod(b)
    ensures PackedTarget(b, cap, Pack(b, Word(false, 0, off)), OffsetMod(b) + 1, 2).Some?
  {
    FieldsComeBack(b, Word(false, 0, off));
    MaskedSize(b, OffsetMod(b) + 1);
    hide Offset, CounterBits, Incremented, Or;
  }

  /** Three less than the range of `usz` moves the write position three bytes back. */
  lemma WrappingSizeIsGranted(b: Build, cap: nat)
    requires 5 < cap < OffsetMod(b)
    ensures PackedTarget(b, cap, Pack(b, Word(false, 0, 5)), Modulus(b) - 3, 2) == Some(Pack(b, Word(false, 0, 2)))
  {
    FieldsComeBack(b, Word(false, 0, 5));
    FieldsJoin(b, 2, 0);
    hide Offset, CounterBits, Incremented, Or;
  }
}
