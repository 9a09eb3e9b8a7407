/** What the checksum of `crypto/crc.h` means: it is the remainder of a polynomial division, and
    it tells apart messages that differ in up to four neighbouring bytes. */
module CrcTheorems {
  import opened CrcTable
  import opened Crc

  // ---- Polynomials over two elements, by coefficient

  ghost function Bit(c: bv32, j: nat): bool {
    if j == 0 then c & 1 == 1 else Bit(c >> 1, j - 1)
  }

  /** The register as a polynomial: the coefficient of degree 31 is in the lowest bit. */
  ghost function Coef(c: bv32, k: nat): bool {
    k < 32 && Bit(c, 31 - k)
  }

  /** The generator, of degree 32, with the coefficients of section 8 of RFC 1952. */
  ghost function Generator(k: nat): bool {
    k in {0, 1, 2, 4, 5, 7, 8, 10, 11, 12, 16, 22, 23, 26, 32}
  }

  /** The message, raised by 32, plus the start value of the register, raised by the length of
      the message: the coefficient of degree `k`. */
  ghost function Dividend(start: bv32, bits: seq<bool>, k: nat): bool {
    (32 <= k < 32 + |bits| && bits[|bits| - 1 - (k - 32)]) != (k >= |bits| && Coef(start, k - |bits|))
  }

  /** The coefficient of degree `k` of a polynomial times the generator; the first element of
      `q` is the highest coefficient. */
  ghost function Product(q: seq<bool>, k: nat): bool {
    if q == [] then false
    else (k > 0 && Product(q[..|q| - 1], k - 1)) != (q[|q| - 1] && Generator(k))
  }

  ghost function Quotient(start: bv32, bits: seq<bool>): seq<bool> {
    if bits == [] then []
    else
      var front := bits[..|bits| - 1];
      Quotient(start, front) + [(Register(start, front) & 1 == 1) != bits[|bits| - 1]]
  }

  lemma ShiftDistributes(a: bv32, b: bv32)
    ensures (a ^ b) >> 1 == (a >> 1) ^ (b >> 1)
  {}

  lemma XorShift(a: bv32, b: bv32)
    ensures Xor(a, b) >> 1 == Xor(a >> 1, b >> 1)
  {
    calc {
      Xor(a, b) >> 1;
      (a ^ b) >> 1;
      { ShiftDistributes(a, b); }
      (a >> 1) ^ (b >> 1);
      Xor(a >> 1, b >> 1);
    }
  }

  lemma XorLowest(a: bv32, b: bv32)
    ensures (Xor(a, b) & 1 == 1) == ((a & 1 == 1) != (b & 1 == 1))
  {}

  lemma {:induction false} BitOfXor(a: bv32, b: bv32, j: nat)
    ensures Bit(Xor(a, b), j) == (Bit(a, j) != Bit(b, j))
  {
    hide Xor;
    XorShift(a, b);
    XorLowest(a, b);
    if j > 0 { BitOfXor(a >> 1, b >> 1, j - 1); }
  }

  lemma LowBits(c: bv32, rest: bv32, j: nat)
    requires rest == c >> 4
    ensures Bit(c, j) == if j >= 4 then Bit(rest, j - 4)
                         else (j == 0 && c & 1 == 1) || (j == 1 && c & 2 == 2) || (j == 2 && c & 4 == 4) || (j == 3 && c & 8 == 8)
  {
    FourShifts(c, rest);
    SingleBits(c);
    if j > 0 { assert Bit(c, j) == Bit(c >> 1, j - 1); }
    if j > 1 { assert Bit(c >> 1, j - 1) == Bit(c >> 1 >> 1, j - 2); }
    if j > 2 { assert Bit(c >> 1 >> 1, j - 2) == Bit(c >> 1 >> 1 >> 1, j - 3); }
  }

  lemma FourShifts(c: bv32, rest: bv32)
    requires rest == c >> 4
    ensures c >> 1 >> 1 >> 1 >> 1 == rest
  {}

  lemma SingleBits(c: bv32)
    ensures ((c >> 1) & 1 == 1) == (c & 2 == 2)
    ensures ((c >> 1 >> 1) & 1 == 1) == (c & 4 == 4)
    ensures ((c >> 1 >> 1 >> 1) & 1 == 1) == (c & 8 == 8)
  {}

  /** The generator without its highest coefficient, as the table was made with. */
  lemma GeneratorIsPoly(k: nat)
    ensures Generator(k) == (k == 32 || Coef(POLY, k))
  {
    if k < 32 {
      var j := 31 - k;
      LowBits(POLY, 0x0EDB8832, j);
      if j >= 4 { LowBits(0x0EDB8832, 0x00EDB883, j - 4); }
      if j >= 8 { LowBits(0x00EDB883, 0x000EDB88, j - 8); }
      if j >= 12 { LowBits(0x000EDB88, 0x0000EDB8, j - 12); }
      if j >= 16 { LowBits(0x0000EDB8, 0x00000EDB, j - 16); }
      if j >= 20 { LowBits(0x00000EDB, 0x000000ED, j - 20); }
      if j >= 24 { LowBits(0x000000ED, 0x0000000E, j - 24); }
      if j >= 28 { LowBits(0x0000000E, 0, j - 28); }
    }
  }

  /** The start value of the register has every coefficient below 32. */
  lemma OnesHasAll(k: nat)
    ensures Coef(ONES, k) <==> k < 32
  {
    if k < 32 {
      var j := 31 - k;
      LowBits(ONES, 0x0FFFFFFF, j);
      if j >= 4 { LowBits(0x0FFFFFFF, 0x00FFFFFF, j - 4); }
      if j >= 8 { LowBits(0x00FFFFFF, 0x000FFFFF, j - 8); }
      if j >= 12 { LowBits(0x000FFFFF, 0x0000FFFF, j - 12); }
      if j >= 16 { LowBits(0x0000FFFF, 0x00000FFF, j - 16); }
      if j >= 20 { LowBits(0x00000FFF, 0x000000FF, j - 20); }
      if j >= 24 { LowBits(0x000000FF, 0x0000000F, j - 24); }
      if j >= 28 { LowBits(0x0000000F, 0, j - 28); }
    }
  }

  lemma BitOfTop(c: bv32, j: nat)
    ensures Bit(c, j + 8) == Bit(Top(c), j)
  {
    assert c >> 1 >> 1 >> 1 >> 1 >> 1 >> 1 >> 1 >> 1 == Top(c);
    assert Bit(c, j + 8) == Bit(c >> 1, j + 7) == Bit(c >> 1 >> 1, j + 6) == Bit(c >> 1 >> 1 >> 1, j + 5) ==
           Bit(c >> 1 >> 1 >> 1 >> 1, j + 4) == Bit(c >> 1 >> 1 >> 1 >> 1 >> 1, j + 3) ==
           Bit(c >> 1 >> 1 >> 1 >> 1 >> 1 >> 1, j + 2) == Bit(c >> 1 >> 1 >> 1 >> 1 >> 1 >> 1 >> 1, j + 1) ==
           Bit(c >> 1 >> 1 >> 1 >> 1 >> 1 >> 1 >> 1 >> 1, j);
  }

  lemma NothingLeft(c: bv32)
    ensures Top(Top(Top(Top(c)))) == 0
  {}

  /** A register has no bit beyond the 32nd. */
  lemma NoBitBeyond(c: bv32)
    ensures !Bit(c, 32)
  {
    hide Top;
    BitOfTop(c, 24);
    BitOfTop(Top(c), 16);
    BitOfTop(Top(Top(c)), 8);
    BitOfTop(Top(Top(Top(c))), 0);
    NothingLeft(c);
  }

  lemma CoefOfShift(c: bv32, k: nat)
    ensures Coef(c >> 1, k) == (0 < k < 32 && Coef(c, k - 1))
  {
    if k == 0 { NoBitBeyond(c); }
  }

  lemma CoefOfXor(a: bv32, b: bv32, k: nat)
    ensures Coef(Xor(a, b), k) == (Coef(a, k) != Coef(b, k))
  {
    if k < 32 { BitOfXor(a, b, 31 - k); }
  }

  lemma XorTwice(a: bv32, b: bv32)
    ensures Xor(Xor(a, b), b) == a
  {}

  lemma BitStepIs(c: bv32, bit: bool)
    ensures BitStep(c, bit) == if (c & 1 == 1) != bit then Xor(c >> 1, POLY) else c >> 1
  {
    StepOf(c);
    StepOfOne();
    hide Step, Xor;
    StepIsLinear(c, 1);
    XorTwice(c >> 1, POLY);
  }

  /** One bit: the register is raised by one, the bit added at degree 32, and the generator
      taken away if that makes the degree 32. */
  lemma CoefOfStep(c: bv32, bit: bool, k: nat)
    ensures var t := (c & 1 == 1) != bit;
            ((t && Generator(k)) != Coef(BitStep(c, bit), k)) ==
            ((k > 0 && Coef(c, k - 1)) != (bit && k == 32))
  {
    hide BitStep, Xor, Bit, Generator;
    BitStepIs(c, bit);
    GeneratorIsPoly(k);
    CoefOfShift(c, k);
    CoefOfXor(c >> 1, POLY, k);
    LowestIsHighest(c);
  }

  lemma LowestIsHighest(c: bv32)
    ensures Coef(c, 31) == (c & 1 == 1)
  {}

  lemma DividendGrows(start: bv32, bits: seq<bool>, bit: bool, k: nat)
    ensures Dividend(start, bits + [bit], k) == ((k > 0 && Dividend(start, bits, k - 1)) != (bit && k == 32))
  {}

  /** The register is the remainder: dividend and register differ by a multiple of the generator,
      coefficient by coefficient, and the register has no degree beyond 31. */
  lemma {:induction false} RegisterIsRemainder(start: bv32, bits: seq<bool>, k: nat)
    ensures Dividend(start, bits, k) == (Product(Quotient(start, bits), k) != Coef(Register(start, bits), k))
    ensures k >= 32 ==> !Coef(Register(start, bits), k)
  {
    hide Coef, Generator, Dividend, BitStep;
    if bits == [] {
      EmptyDividend(start, k);
    } else {
      var front, bit := bits[..|bits| - 1], bits[|bits| - 1];
      var q, c := Quotient(start, front), Register(start, front);
      assert bits == front + [bit];
      DividendGrows(start, front, bit, k);
      if k > 0 { RegisterIsRemainder(start, front, k - 1); }
      CoefOfStep(c, bit, k);
      assert Quotient(start, bits)[..|Quotient(start, bits)| - 1] == q;
    }
    DegreeIsSmall(Register(start, bits), k);
  }

  lemma EmptyDividend(start: bv32, k: nat)
    ensures Dividend(start, [], k) == Coef(start, k)
  {}

  lemma DegreeIsSmall(c: bv32, k: nat)
    ensures k >= 32 ==> !Coef(c, k)
  {}

  // ---- What `crc32` returns

  /** The message raised by 32, with the 32 coefficients of the highest degrees that a message
      of this length can have flipped: those of its first 32 bits, and of zeros behind a shorter one. */
  ghost function Flipped(bits: seq<bool>, k: nat): bool {
    (32 <= k < 32 + |bits| && bits[|bits| - 1 - (k - 32)]) != (|bits| <= k < |bits| + 32)
  }

  /** `q` times the generator, and the complement of `c` as a remainder of degree below 32, add up
      to the flipped message. */
  ghost predicate Divides(bits: seq<bool>, q: seq<bool>, c: bv32) {
    |q| == |bits| && forall k: nat :: Flipped(bits, k) == (Product(q, k) != (k < 32 && !Coef(c, k)))
  }

  lemma DividendIsFlipped(bits: seq<bool>, k: nat)
    ensures Dividend(ONES, bits, k) == Flipped(bits, k)
  {
    hide Coef;
    if k >= |bits| { OnesHasAll(k - |bits|); }
  }

  lemma CoefOfComplement(c: bv32, k: nat)
    ensures Coef(Xor(c, ONES), k) == (k < 32 && !Coef(c, k))
  {
    hide Xor, Bit;
    OnesHasAll(k);
    CoefOfXor(c, ONES, k);
  }

  lemma {:induction false} QuotientLength(start: bv32, bits: seq<bool>)
    ensures |Quotient(start, bits)| == |bits|
  {
    if bits != [] { QuotientLength(start, bits[..|bits| - 1]); }
  }

  lemma CrcDivides(data: seq<Octet>)
    ensures Divides(MessageBits(data), Quotient(ONES, MessageBits(data)), BitwiseCrc(data))
  {
    hide Xor, Dividend, Product, Coef, Flipped, Quotient, Register;
    var bits := MessageBits(data);
    var q, r := Quotient(ONES, bits), Register(ONES, bits);
    QuotientLength(ONES, bits);
    XorTwice(r, ONES);
    forall k: nat ensures Flipped(bits, k) == (Product(q, k) != (k < 32 && !Coef(BitwiseCrc(data), k))) {
      RegisterIsRemainder(ONES, bits, k);
      DividendIsFlipped(bits, k);
      CoefOfComplement(BitwiseCrc(data), k);
    }
  }

  /** Multiples of the generator that agree from degree 32 on are the same. */
  lemma {:induction false} MultiplesDiffer(p: seq<bool>, q: seq<bool>)
    requires |p| == |q| && forall k: nat :: k >= 32 ==> Product(p, k) == Product(q, k)
    ensures p == q
  {
    if p != [] {
      var n := |p| - 1;
      forall k: nat | k >= 32 ensures Product(p[..n], k) == Product(q[..n], k) {
        assert Product(p, k + 1) == Product(q, k + 1);
      }
      MultiplesDiffer(p[..n], q[..n]);
      assert Product(p, 32) == Product(q, 32);
      assert p == p[..n] + [p[n]] && q == q[..n] + [q[n]];
    }
  }

  ghost function Drop(c: bv32, n: nat): bv32 {
    if n == 0 then c else Drop(c >> 1, n - 1)
  }

  ghost function Half(c: bv32): bv32 {
    c >> 1
  }

  ghost predicate Odd(c: bv32) {
    c & 1 == 1
  }

  lemma HalvesDetermine(c: bv32, d: bv32)
    requires Half(c) == Half(d) && Odd(c) == Odd(d)
    ensures c == d
  {}

  lemma HalfNext(c: bv32, j: nat)
    ensures Bit(c, 0) == Odd(c) && Bit(c, j + 1) == Bit(Half(c), j) && Drop(c, j + 1) == Drop(Half(c), j) && Drop(c, 0) == c
  {}

  lemma {:induction false} BitsTellApart(c: bv32, d: bv32, n: nat) returns (j: nat)
    requires c != d && Drop(c, n) == Drop(d, n)
    ensures j < n && Bit(c, j) != Bit(d, j)
    decreases n
  {
    hide Half, Odd, Bit, Drop;
    j := 0;
    HalfNext(c, if n > 0 then n - 1 else 0);
    HalfNext(d, if n > 0 then n - 1 else 0);
    if Odd(c) == Odd(d) {
      if Half(c) == Half(d) { HalvesDetermine(c, d); }
      var i := BitsTellApart(Half(c), Half(d), n - 1);
      j := i + 1;
      HalfNext(c, i);
      HalfNext(d, i);
    }
  }

  lemma DropOfTop(c: bv32, n: nat)
    ensures Drop(c, n + 8) == Drop(Top(c), n)
  {
    assert c >> 1 >> 1 >> 1 >> 1 >> 1 >> 1 >> 1 >> 1 == Top(c);
    assert Drop(c, n + 8) == Drop(c >> 1, n + 7) == Drop(c >> 1 >> 1, n + 6) == Drop(c >> 1 >> 1 >> 1, n + 5) ==
           Drop(c >> 1 >> 1 >> 1 >> 1, n + 4) == Drop(c >> 1 >> 1 >> 1 >> 1 >> 1, n + 3) ==
           Drop(c >> 1 >> 1 >> 1 >> 1 >> 1 >> 1, n + 2) == Drop(c >> 1 >> 1 >> 1 >> 1 >> 1 >> 1 >> 1, n + 1) ==
           Drop(c >> 1 >> 1 >> 1 >> 1 >> 1 >> 1 >> 1 >> 1, n);
  }

  lemma NothingAfter32(c: bv32)
    ensures Drop(c, 32) == 0
  {
    hide Top;
    DropOfTop(c, 24);
    DropOfTop(Top(c), 16);
    DropOfTop(Top(Top(c)), 8);
    DropOfTop(Top(Top(Top(c))), 0);
    NothingLeft(c);
  }

  lemma CoefsTellApart(c: bv32, d: bv32) returns (k: nat)
    requires c != d
    ensures k < 32 && Coef(c, k) != Coef(d, k)
  {
    NothingAfter32(c);
    NothingAfter32(d);
    hide Bit, Drop;
    var j := BitsTellApart(c, d, 32);
    k := 31 - j;
  }

  lemma DivisionIsUnique(bits: seq<bool>, p: seq<bool>, c: bv32, q: seq<bool>, d: bv32)
    requires Divides(bits, p, c) && Divides(bits, q, d)
    ensures p == q && c == d
  {
    hide Coef, Product, Flipped;
    forall k: nat | k >= 32 ensures Product(p, k) == Product(q, k) {
      assert Flipped(bits, k) == Product(p, k);
    }
    MultiplesDiffer(p, q);
    forall k: nat | k < 32 ensures Coef(c, k) == Coef(d, k) {
      assert Flipped(bits, k) == (Product(p, k) != !Coef(c, k));
    }
    if c != d {
      var k := CoefsTellApart(c, d);
    }
  }

  /** `crc32` returns the complement of the remainder that the message leaves, raised by 32 and
      with its first 32 bits complemented, when divided by the generator of section 8 of
      RFC 1952; and no other value is that. */
  lemma CrcIsRemainder(data: seq<Octet>, c: bv32)
    ensures c == BitwiseCrc(data) <==> exists q :: Divides(MessageBits(data), q, c)
  {
    CrcDivides(data);
    hide Divides, BitwiseCrc;
    if q :| Divides(MessageBits(data), q, c) {
      DivisionIsUnique(MessageBits(data), q, c, Quotient(ONES, MessageBits(data)), BitwiseCrc(data));
    }
  }

  // ---- Changed messages

  lemma StepInjective(a: bv32, b: bv32)
    requires Step(a) == Step(b)
    ensures a == b
  {}

  lemma EightInjective(a: bv32, b: bv32)
    requires Eight(a) == Eight(b)
    ensures a == b
  {
    hide Step;
    StepInjective(Step(Step(Step(Step(Step(Step(Step(a))))))), Step(Step(Step(Step(Step(Step(Step(b))))))));
    StepInjective(Step(Step(Step(Step(Step(Step(a)))))), Step(Step(Step(Step(Step(Step(b)))))));
    StepInjective(Step(Step(Step(Step(Step(a))))), Step(Step(Step(Step(Step(b))))));
    StepInjective(Step(Step(Step(Step(a)))), Step(Step(Step(Step(b)))));
    StepInjective(Step(Step(Step(a))), Step(Step(Step(b))));
    StepInjective(Step(Step(a)), Step(Step(b)));
    StepInjective(Step(a), Step(b));
    StepInjective(a, b);
  }

  lemma {:induction false} RegisterSplits(c: bv32, a: seq<Octet>, b: seq<Octet>)
    ensures ByteRegister(c, a + b) == ByteRegister(ByteRegister(c, a), b)
  {
    hide ByteStep;
    if b == [] {
      assert a + b == a;
    } else {
      RegisterSplits(c, a, b[..|b| - 1]);
      assert (a + b)[..|a + b| - 1] == a + b[..|b| - 1];
    }
  }

  /** The bytes that follow never make two different registers the same. */
  lemma {:induction false} TailKeepsApart(c: bv32, d: bv32, tail: seq<Octet>)
    requires ByteRegister(c, tail) == ByteRegister(d, tail)
    ensures c == d
  {
    hide Eight, Xor;
    if tail != [] {
      var front, x := tail[..|tail| - 1], tail[|tail| - 1] as bv32;
      EightInjective(Xor(ByteRegister(c, front), x), Xor(ByteRegister(d, front), x));
      XorTwice(ByteRegister(c, front), x);
      XorTwice(ByteRegister(d, front), x);
      TailKeepsApart(c, d, front);
    }
  }

  /** A value that eight steps bring down by eight places. */
  ghost predicate Raised(low: bv32, high: bv32) {
    FourZeros(high, high >> 4) && FourZeros(high >> 4, low)
  }

  lemma EnterEarlier(z: bv32, low: bv32, high: bv32)
    requires Raised(low, high)
    ensures Xor(Eight(z), low) == Eight(Xor(z, high))
  {
    hide Eight, Xor, FourZeros;
    EightHigh(high, high >> 4, low);
    EightIsLinear(z, high);
  }

  lemma ByteRaised(d: Octet)
    ensures Raised(d as bv32, (d as bv32) << 8)
    ensures Raised((d as bv32) << 8, (d as bv32) << 16)
    ensures Raised((d as bv32) << 16, (d as bv32) << 24)
  {}

  function At8(d: Octet): bv32 {
    (d as bv32) << 8
  }

  function At16(d: Octet): bv32 {
    (d as bv32) << 16
  }

  function At24(d: Octet): bv32 {
    (d as bv32) << 24
  }

  /** Four bytes, lowest first, put into a register. */
  function Word(c: bv32, a: seq<Octet>): bv32
    requires |a| == 4
  {
    Xor(Xor(Xor(Xor(c, a[0] as bv32), At8(a[1])), At16(a[2])), At24(a[3]))
  }

  lemma WordIsInjective(c: bv32, a: seq<Octet>, b: seq<Octet>)
    requires |a| == |b| == 4 && Word(c, a) == Word(c, b)
    ensures a == b
  {
    hide Xor, At8, At16, At24;
    BytesOfWord(c, a[0], a[1], a[2], a[3], b[0], b[1], b[2], b[3]);
  }

  function Packed(a0: Octet, a1: Octet, a2: Octet, a3: Octet): bv32 {
    (a0 as bv32) ^ ((a1 as bv32) << 8) ^ ((a2 as bv32) << 16) ^ ((a3 as bv32) << 24)
  }

  lemma XorAssociates(a: bv32, b: bv32, c: bv32)
    ensures Xor(Xor(a, b), c) == Xor(a, Xor(b, c))
  {}

  lemma WordIsPacked(c: bv32, a0: Octet, a1: Octet, a2: Octet, a3: Octet)
    ensures Xor(Xor(Xor(Xor(c, a0 as bv32), At8(a1)), At16(a2)), At24(a3)) == Xor(c, Packed(a0, a1, a2, a3))
  {
    assert Packed(a0, a1, a2, a3) == Xor(Xor(Xor(a0 as bv32, At8(a1)), At16(a2)), At24(a3));
    hide Xor, At8, At16, At24, Packed;
    XorAssociates(c, a0 as bv32, At8(a1));
    XorAssociates(c, Xor(a0 as bv32, At8(a1)), At16(a2));
    XorAssociates(c, Xor(Xor(a0 as bv32, At8(a1)), At16(a2)), At24(a3));
  }

  lemma PackedIsInjective(a0: Octet, a1: Octet, a2: Octet, a3: Octet, b0: Octet, b1: Octet, b2: Octet, b3: Octet)
    requires Packed(a0, a1, a2, a3) == Packed(b0, b1, b2, b3)
    ensures a0 == b0 && a1 == b1 && a2 == b2 && a3 == b3
  {}

  lemma BytesOfWord(c: bv32, a0: Octet, a1: Octet, a2: Octet, a3: Octet, b0: Octet, b1: Octet, b2: Octet, b3: Octet)
    requires Xor(Xor(Xor(Xor(c, a0 as bv32), At8(a1)), At16(a2)), At24(a3)) ==
             Xor(Xor(Xor(Xor(c, b0 as bv32), At8(b1)), At16(b2)), At24(b3))
    ensures a0 == b0 && a1 == b1 && a2 == b2 && a3 == b3
  {
    hide Xor, At8, At16, At24, Packed;
    WordIsPacked(c, a0, a1, a2, a3);
    WordIsPacked(c, b0, b1, b2, b3);
    var a, b := Packed(a0, a1, a2, a3), Packed(b0, b1, b2, b3);
    XorCommutes(c, a);
    XorCommutes(c, b);
    XorKeepsApart(a, b, c);
    PackedIsInjective(a0, a1, a2, a3, b0, b1, b2, b3);
  }

  lemma FourSteps(c: bv32, a: seq<Octet>)
    requires |a| == 4
    ensures ByteRegister(c, a) == ByteStep(ByteStep(ByteStep(ByteStep(c, a[0]), a[1]), a[2]), a[3])
  {
    hide ByteStep;
    assert a[..3][..2] == a[..2] && a[..2][..1] == a[..1] && a[..1][..0] == [];
    assert ByteRegister(c, a[..1]) == ByteStep(c, a[0]);
    assert ByteRegister(c, a[..2]) == ByteStep(ByteStep(c, a[0]), a[1]);
    assert ByteRegister(c, a[..3]) == ByteStep(ByteStep(ByteStep(c, a[0]), a[1]), a[2]);
  }

  /** Four bytes one after the other are 32 steps from the register with all of them in it. */
  lemma FourBytes(c: bv32, a: seq<Octet>)
    requires |a| == 4
    ensures ByteRegister(c, a) == Eight(Eight(Eight(Eight(Word(c, a)))))
  {
    hide Eight, Xor, Raised, At8, At16, At24;
    var z0 := Xor(c, a[0] as bv32);
    var z1 := Xor(z0, At8(a[1]));
    var z2 := Xor(z1, At16(a[2]));
    RaisedBytes(a[1]);
    RaisedBytes(a[2]);
    RaisedBytes(a[3]);
    EnterEarlier(z0, a[1] as bv32, At8(a[1]));
    EnterEarlier(Eight(z1), a[2] as bv32, At8(a[2]));
    EnterEarlier(z1, At8(a[2]), At16(a[2]));
    EnterEarlier(Eight(Eight(z2)), a[3] as bv32, At8(a[3]));
    EnterEarlier(Eight(z2), At8(a[3]), At16(a[3]));
    EnterEarlier(z2, At16(a[3]), At24(a[3]));
    FourSteps(c, a);
  }

  lemma RaisedBytes(d: Octet)
    ensures Raised(d as bv32, At8(d)) && Raised(At8(d), At16(d)) && Raised(At16(d), At24(d))
  {
    hide Raised;
    ByteRaised(d);
  }

  lemma FourBytesKeepApart(c: bv32, a: seq<Octet>, b: seq<Octet>)
    requires |a| == |b| == 4 && ByteRegister(c, a) == ByteRegister(c, b)
    ensures a == b
  {
    hide Eight, Word;
    var x, y := Word(c, a), Word(c, b);
    FourBytes(c, a);
    FourBytes(c, b);
    EightInjective(Eight(Eight(Eight(x))), Eight(Eight(Eight(y))));
    EightInjective(Eight(Eight(x)), Eight(Eight(y)));
    EightInjective(Eight(x), Eight(y));
    EightInjective(x, y);
    WordIsInjective(c, a, b);
  }

  lemma FewBytesKeepApart(c: bv32, a: seq<Octet>, b: seq<Octet>)
    requires |a| == |b| <= 4 && ByteRegister(c, a) == ByteRegister(c, b)
    ensures a == b
  {
    var pad: seq<Octet> := seq(4 - |a|, i => 0);
    RegisterSplits(c, a, pad);
    RegisterSplits(c, b, pad);
    FourBytesKeepApart(c, a + pad, b + pad);
    assert a == (a + pad)[..|a|] && b == (b + pad)[..|b|];
  }

  lemma XorKeepsApart(a: bv32, b: bv32, c: bv32)
    requires Xor(a, c) == Xor(b, c)
    ensures a == b
  {}

  /** Two messages of the same length that differ, but only within four neighbouring bytes, have
      different checksums. */
  lemma BurstIsNoticed(front: seq<Octet>, a: seq<Octet>, b: seq<Octet>, tail: seq<Octet>)
    requires |a| == |b| <= 4 && a != b
    ensures BitwiseCrc(front + a + tail) != BitwiseCrc(front + b + tail)
  {
    hide Xor, ByteRegister, Register;
    BytesAreBits(ONES, front + a + tail);
    BytesAreBits(ONES, front + b + tail);
    RegisterSplits(ONES, front + a, tail);
    RegisterSplits(ONES, front + b, tail);
    RegisterSplits(ONES, front, a);
    RegisterSplits(ONES, front, b);
    var c := ByteRegister(ONES, front);
    if BitwiseCrc(front + a + tail) == BitwiseCrc(front + b + tail) {
      XorKeepsApart(Register(ONES, MessageBits(front + a + tail)), Register(ONES, MessageBits(front + b + tail)), ONES);
      TailKeepsApart(ByteRegister(c, a), ByteRegister(c, b), tail);
      FewBytesKeepApart(c, a, b);
    }
  }

  lemma ZeroMovesStart()
    ensures ByteStep(ONES, 0) != ONES
  {}

  /** A zero byte in front of a message is noticed, also in front of zeros only. */
  lemma LeadingZeroIsNoticed(data: seq<Octet>)
    ensures BitwiseCrc([0] + data) != BitwiseCrc(data)
  {
    ZeroMovesStart();
    hide Xor, Register, ByteStep;
    assert [0 as Octet][..0] == [];
    BytesAreBits(ONES, [0] + data);
    BytesAreBits(ONES, data);
    RegisterSplits(ONES, [0], data);
    if BitwiseCrc([0] + data) == BitwiseCrc(data) {
      XorKeepsApart(Register(ONES, MessageBits([0] + data)), Register(ONES, MessageBits(data)), ONES);
      TailKeepsApart(ByteStep(ONES, 0), ONES, data);
    }
  }

  /** Four is the limit: in five bytes the last four can undo the first. */
  lemma FiveBytesCanCollide(front: seq<Octet>, tail: seq<Octet>)
    ensures exists a: seq<Octet>, b: seq<Octet> ::
              |a| == |b| == 5 && a != b && BitwiseCrc(front + a + tail) == BitwiseCrc(front + b + tail)
  {
    hide Xor, Eight, ByteRegister, Register;
    var c := ByteRegister(ONES, front);
    var a: seq<Octet> := [0, 0, 0, 0, 0];
    var b: seq<Octet> := [1, 0x96, 0x30, 0x07, 0x77];
    FiveBytes(c, a);
    FiveBytes(c, b);
    Undone(c);
    BytesAreBits(ONES, front + a + tail);
    BytesAreBits(ONES, front + b + tail);
    RegisterSplits(ONES, front + a, tail);
    RegisterSplits(ONES, front + b, tail);
    RegisterSplits(ONES, front, a);
    RegisterSplits(ONES, front, b);
    assert a[0] != b[0];
  }

  lemma FiveBytes(c: bv32, a: seq<Octet>)
    requires |a| == 5
    ensures ByteRegister(c, a) == Eight(Eight(Eight(Eight(Word(ByteStep(c, a[0]), a[1..])))))
  {
    hide ByteStep, Eight, Word;
    assert a == a[..1] + a[1..] && a[..1][..0] == [];
    RegisterSplits(c, a[..1], a[1..]);
    FourBytes(ByteStep(c, a[0]), a[1..]);
  }

  lemma Undone(c: bv32)
    ensures var a: seq<Octet>, b: seq<Octet> := [0, 0, 0, 0], [0x96, 0x30, 0x07, 0x77];
            Word(ByteStep(c, 0), a) == Word(ByteStep(c, 1), b)
  {
    OneByte();
    hide Eight;
    EightIsLinear(c, 0);
    EightIsLinear(c, 1);
    Cancels(Eight(c));
  }

  lemma OneByte()
    ensures Eight(1) == 0x77073096 && Eight(0) == 0
  {}

  lemma Cancels(x: bv32)
    ensures
      Xor(Xor(Xor(Xor(Xor(x, 0), 0), At8(0)), At16(0)), At24(0)) ==
      Xor(Xor(Xor(Xor(Xor(x, 0x77073096), 0x96), At8(0x30)), At16(0x07)), At24(0x77))
  {}
}
