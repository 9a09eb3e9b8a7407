/** `crypto/crc.h`: the loop over the table computes the remainder of a polynomial division,
    and so no change of up to four neighbouring bytes goes unnoticed. */
module Crc {
  import opened CrcTable

  type Octet = bv8

  const ONES: bv32 := 0xFFFFFFFF

  // ---- The bit-at-a-time form

  /** One message bit enters the register at its low end. */
  function BitStep(c: bv32, bit: bool): bv32 {
    Step(if bit then Xor(c, 1) else c)
  }

  function Register(c: bv32, bits: seq<bool>): bv32 {
    if bits == [] then c else BitStep(Register(c, bits[..|bits| - 1]), bits[|bits| - 1])
  }

  /** The bits of a byte, lowest first. */
  function ByteBits(d: Octet): seq<bool> {
    [d & 1 != 0, d & 2 != 0, d & 4 != 0, d & 8 != 0, d & 16 != 0, d & 32 != 0, d & 64 != 0, d & 128 != 0]
  }

  function MessageBits(data: seq<Octet>): seq<bool> {
    if data == [] then [] else MessageBits(data[..|data| - 1]) + ByteBits(data[|data| - 1])
  }

  /** CRC-32, one bit at a time, as in section 8 of RFC 1952. */
  function BitwiseCrc(data: seq<Octet>): bv32 {
    Xor(Register(ONES, MessageBits(data)), ONES)
  }

  // ---- A byte at a time

  function ByteStep(c: bv32, d: Octet): bv32 {
    Eight(Xor(c, d as bv32))
  }

  function ByteRegister(c: bv32, data: seq<Octet>): bv32 {
    if data == [] then c else ByteStep(ByteRegister(c, data[..|data| - 1]), data[|data| - 1])
  }

  function Xor(a: bv32, b: bv32): bv32 {
    a ^ b
  }

  lemma XorCommutes(a: bv32, b: bv32)
    ensures Xor(a, b) == Xor(b, a)
  {}

  lemma StepEvenEven(a: bv32, b: bv32)
    requires a & 1 != 1 && b & 1 != 1
    ensures Step(Xor(a, b)) == Xor(Step(a), Step(b))
  {}

  lemma StepEvenOdd(a: bv32, b: bv32)
    requires a & 1 != 1 && b & 1 == 1
    ensures Step(Xor(a, b)) == Xor(Step(a), Step(b))
  {}

  lemma StepOddOdd(a: bv32, b: bv32)
    requires a & 1 == 1 && b & 1 == 1
    ensures Step(Xor(a, b)) == Xor(Step(a), Step(b))
  {}

  /** A step is linear in the register. */
  lemma StepIsLinear(a: bv32, b: bv32)
    ensures Step(Xor(a, b)) == Xor(Step(a), Step(b))
  {
    hide Step, Xor;
    if a & 1 == 1 {
      if b & 1 == 1 { StepOddOdd(a, b); } else { XorCommutes(a, b); XorCommutes(Step(a), Step(b)); StepEvenOdd(b, a); }
    } else {
      if b & 1 == 1 { StepEvenOdd(a, b); } else { StepEvenEven(a, b); }
    }
  }

  lemma FourIsLinear(a: bv32, b: bv32)
    ensures Four(Xor(a, b)) == Xor(Four(a), Four(b))
  {
    hide Step, Xor;
    StepIsLinear(a, b);
    StepIsLinear(Step(a), Step(b));
    StepIsLinear(Step(Step(a)), Step(Step(b)));
    StepIsLinear(Step(Step(Step(a))), Step(Step(Step(b))));
  }

  lemma EightIsLinear(a: bv32, b: bv32)
    ensures Eight(Xor(a, b)) == Xor(Eight(a), Eight(b))
  {
    hide Four, Xor;
    FourIsLinear(a, b);
    FourIsLinear(Four(a), Four(b));
  }

  /** The four lowest bits of `bits` are zero and `rest` is the others. */
  ghost predicate FourZeros(bits: bv32, rest: bv32) {
    bits & 15 == 0 && rest == bits >> 4
  }

  lemma FourHigh(bits: bv32, rest: bv32)
    requires FourZeros(bits, rest)
    ensures Four(bits) == rest
  {}

  lemma EightHigh(bits: bv32, middle: bv32, rest: bv32)
    requires FourZeros(bits, middle) && FourZeros(middle, rest)
    ensures Eight(bits) == rest
  {
    hide Four, FourZeros;
    FourHigh(bits, middle);
    FourHigh(middle, rest);
  }

  /** A register cut into its 24 high bits, in place and shifted down, and its low byte. */
  ghost predicate Parts(x: bv32, high: bv32, middle: bv32, top: bv32, low: bv32) {
    x == Xor(high, low) && low < 256 && FourZeros(high, middle) && FourZeros(middle, top)
  }

  lemma EightOfParts(x: bv32, high: bv32, middle: bv32, top: bv32, low: bv32)
    requires Parts(x, high, middle, top, low)
    ensures Eight(x) == Xor(top, Eight(low))
  {
    hide Eight, Xor, FourZeros;
    EightIsLinear(high, low);
    EightHigh(high, middle, top);
  }

  /** Where the loop looks into the table. */
  function Index(c: bv32, d: Octet): (i: bv32)
    ensures i < 256
  {
    Xor(c, d as bv32) & 0xFF
  }

  lemma CutRegister(c: bv32, d: Octet)
    ensures Parts(Xor(c, d as bv32), Xor(c, d as bv32) & 0xFFFFFF00, (Xor(c, d as bv32) & 0xFFFFFF00) >> 4,
                  Top(c), Index(c, d))
  {}

  lemma RegisterParts(c: bv32, d: Octet) returns (high: bv32, middle: bv32)
    ensures Parts(Xor(c, d as bv32), high, middle, Top(c), Index(c, d))
  {
    hide Xor, Parts, Top, Index;
    CutRegister(c, d);
    high, middle := Xor(c, d as bv32) & 0xFFFFFF00, (Xor(c, d as bv32) & 0xFFFFFF00) >> 4;
  }

  function Top(c: bv32): bv32 {
    c >> 8
  }

  /** One table step is eight bit steps. */
  lemma TableStep(c: bv32, d: Octet)
    ensures Xor(Top(c), Entry(Index(c, d))) == ByteStep(c, d)
  {
    hide Eight, Entry, Xor, Parts, Index, Top;
    var high, middle := RegisterParts(c, d);
    EightOfParts(Xor(c, d as bv32), high, middle, Top(c), Index(c, d));
    EntryIsEightSteps(Index(c, d));
  }

  /** `crc32`. */
  method Crc32(data: seq<Octet>) returns (crc: bv32)
    ensures crc == BitwiseCrc(data)
  {
    hide Entry, ByteStep, Register, Xor, Index, Top;
    crc := ONES;
    for i := 0 to |data|
      invariant crc == ByteRegister(ONES, data[..i])
    {
      TableStep(crc, data[i]);
      assert data[..i + 1][..i] == data[..i];
      crc := Xor(Top(crc), Entry(Index(crc, data[i])));
    }
    assert data[..|data|] == data;
    BytesAreBits(ONES, data);
    crc := Xor(crc, ONES);
  }

  lemma StepOfOne()
    ensures Step(1) == POLY
  {}

  lemma XorSwap(a: bv32, b: bv32, c: bv32)
    ensures Xor(a, Xor(b, c)) == Xor(Xor(a, c), b)
  {}

  /** `bit` is the lowest bit of `bits` and `rest` the others. */
  ghost predicate Lowest(bits: bv32, bit: bool, rest: bv32) {
    bit == (bits & 1 == 1) && rest == bits >> 1
  }

  /** A message bit that enters one step later enters one place higher. */
  lemma BitEnters(x: bv32, bits: bv32, bit: bool, rest: bv32)
    requires Lowest(bits, bit, rest)
    ensures Step(Xor(x, bits)) == Xor(BitStep(x, bit), rest)
  {
    StepOf(bits);
    StepOfOne();
    hide Step, Xor;
    StepIsLinear(x, bits);
    StepIsLinear(x, 1);
    XorSwap(Step(x), rest, POLY);
  }

  lemma StepOf(x: bv32)
    ensures Step(x) == if x & 1 == 1 then Xor(x >> 1, POLY) else x >> 1
  {}

  lemma {:induction false} RegisterAppend(c: bv32, a: seq<bool>, b: seq<bool>)
    ensures Register(c, a + b) == Register(Register(c, a), b)
  {
    if b == [] {
      assert a + b == a;
    } else {
      RegisterAppend(c, a, b[..|b| - 1]);
      assert (a + b)[..|a + b| - 1] == a + b[..|b| - 1];
    }
  }

  lemma FourBitsEnter(c: bv32, r0: bv32, b0: bool, r1: bv32, b1: bool, r2: bv32, b2: bool, r3: bv32, b3: bool, r4: bv32)
    requires Lowest(r0, b0, r1) && Lowest(r1, b1, r2) && Lowest(r2, b2, r3) && Lowest(r3, b3, r4)
    ensures Four(Xor(c, r0)) == Xor(BitStep(BitStep(BitStep(BitStep(c, b0), b1), b2), b3), r4)
  {
    hide Step, BitStep, Xor, Lowest;
    BitEnters(c, r0, b0, r1);
    BitEnters(BitStep(c, b0), r1, b1, r2);
    BitEnters(BitStep(BitStep(c, b0), b1), r2, b2, r3);
    BitEnters(BitStep(BitStep(BitStep(c, b0), b1), b2), r3, b3, r4);
  }

  lemma ByteEnters(c: bv32, d: Octet)
    ensures Register(c, ByteBits(d)) == ByteStep(c, d)
  {
    hide Four, BitStep, Xor, Register, Lowest;
    var x, b := d as bv32, ByteBits(d);
    DigitsOf(d);
    FourBitsEnter(c, x, b[0], x >> 1, b[1], x >> 2, b[2], x >> 3, b[3], x >> 4);
    var s4 := BitStep(BitStep(BitStep(BitStep(c, b[0]), b[1]), b[2]), b[3]);
    FourBitsEnter(s4, x >> 4, b[4], x >> 5, b[5], x >> 6, b[6], x >> 7, b[7], 0);
    var s8 := BitStep(BitStep(BitStep(BitStep(s4, b[4]), b[5]), b[6]), b[7]);
    XorZero(s8);
    EightBits(c, b);
  }

  lemma XorZero(x: bv32)
    ensures Xor(x, 0) == x
  {}

  lemma DigitsOf(d: Octet)
    ensures
      var x, b := d as bv32, ByteBits(d);
      Lowest(x, b[0], x >> 1) && Lowest(x >> 1, b[1], x >> 2) && Lowest(x >> 2, b[2], x >> 3) &&
      Lowest(x >> 3, b[3], x >> 4) && Lowest(x >> 4, b[4], x >> 5) && Lowest(x >> 5, b[5], x >> 6) &&
      Lowest(x >> 6, b[6], x >> 7) && Lowest(x >> 7, b[7], 0)
  {}

  lemma EightBits(c: bv32, b: seq<bool>)
    requires |b| == 8
    ensures Register(c, b) ==
            BitStep(BitStep(BitStep(BitStep(
              BitStep(BitStep(BitStep(BitStep(c, b[0]), b[1]), b[2]), b[3]), b[4]), b[5]), b[6]), b[7])
  {
    hide BitStep;
    FourBitsRegister(c, b[..4]);
    FourBitsRegister(Register(c, b[..4]), b[4..]);
    RegisterAppend(c, b[..4], b[4..]);
    assert b == b[..4] + b[4..];
  }

  lemma FourBitsRegister(c: bv32, b: seq<bool>)
    requires |b| == 4
    ensures Register(c, b) == BitStep(BitStep(BitStep(BitStep(c, b[0]), b[1]), b[2]), b[3])
  {
    hide BitStep;
    assert b[..3][..2] == b[..2] && b[..2][..1] == b[..1] && b[..1][..0] == [];
    assert Register(c, b[..1]) == BitStep(c, b[0]);
    assert Register(c, b[..2]) == BitStep(BitStep(c, b[0]), b[1]);
    assert Register(c, b[..3]) == BitStep(BitStep(BitStep(c, b[0]), b[1]), b[2]);
  }

  /** Going byte by byte comes to the same as going bit by bit. */
  lemma {:induction false} BytesAreBits(c: bv32, data: seq<Octet>)
    ensures ByteRegister(c, data) == Register(c, MessageBits(data))
  {
    hide ByteStep, ByteBits;
    if data != [] {
      var front, last := data[..|data| - 1], data[|data| - 1];
      BytesAreBits(c, front);
      RegisterAppend(c, MessageBits(front), ByteBits(last));
      ByteEnters(Register(c, MessageBits(front)), last);
    }
  }
}
