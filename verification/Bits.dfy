/** Powers of two and bit masks on naturals: `IS_POWER_OF_2` of `util/mathdef.h`, and why a
    free-running counter may be masked. */
module Bits {
  import opened Arith

  function Pow2(k: nat): (p: nat)
    ensures p > 0
  {
    if k == 0 then 1 else 2 * Pow2(k - 1)
  }

  /** The `&` of C on unsigned values. */
  function And(a: nat, b: nat): (r: nat)
    ensures r <= a && r <= b
  {
    if a == 0 || b == 0 then 0
    else 2 * And(a / 2, b / 2) + (if a % 2 == 1 && b % 2 == 1 then 1 else 0)
  }

  /** The `|` of C: what both have is counted once. */
  function Or(a: nat, b: nat): nat {
    a + b - And(a, b)
  }

  predicate PassesPowerTest(n: nat) {
    n != 0 && And(n, n - 1) == 0
  }

  ghost predicate IsPower(n: nat) {
    exists k: nat :: n == Pow2(k)
  }

  lemma {:induction false} AndItself(n: nat)
    ensures And(n, n) == n
  {
    if n > 0 { AndItself(n / 2); }
  }

  lemma {:induction false} PowerOf(n: nat)
    requires PassesPowerTest(n)
    ensures IsPower(n)
  {
    if n == 1 {
      assert n == Pow2(0);
    } else {
      AndItself(n / 2);
      assert n % 2 == 0;
      assert (n - 1) / 2 == n / 2 - 1;
      PowerOf(n / 2);
      var k: nat :| n / 2 == Pow2(k);
      assert n == Pow2(k + 1);
    }
  }

  lemma {:induction false} PowerPasses(k: nat)
    ensures PassesPowerTest(Pow2(k))
  {
    if k > 0 {
      PowerPasses(k - 1);
      assert (Pow2(k) - 1) / 2 == Pow2(k - 1) - 1;
    }
  }

  /** The test with `n & (n - 1)` admits exactly the powers of two. */
  lemma PowerTest(n: nat)
    ensures PassesPowerTest(n) <==> IsPower(n)
  {
    if PassesPowerTest(n) { PowerOf(n); }
    if IsPower(n) {
      var k: nat :| n == Pow2(k);
      PowerPasses(k);
    }
  }

  lemma PowerMonotone(j: nat, k: nat)
    requires j <= k
    ensures Pow2(j) <= Pow2(k)
  {
    if j < k { PowerGrows(j, k); }
  }

  lemma PowerOrder(j: nat, k: nat)
    requires Pow2(j) < Pow2(k)
    ensures j < k
  {
    if k < j { PowerGrows(k, j); }
  }

  lemma HalvesMod(w: nat, h: nat, p: nat)
    requires h > 0 && p == 2 * h
    ensures w % p == 2 * (w / 2 % h) + w % 2
  {
    var v := w / 2;
    var q, r := v / h, v % h;
    assert v == q * h + r;
    Doubled(q, h, p);
    DivisionIsUnique(w, q, 2 * r + w % 2, p);
  }

  lemma MaskDigits(w: nat, h: nat, p: nat)
    requires h > 0 && p == 2 * h
    ensures And(w, p - 1) == 2 * And(w / 2, h - 1) + w % 2
  {
    AndDigit(w, p - 1);
    hide And;
  }

  /** Masking with one less than a power of two is the remainder by it. */
  lemma {:induction false} MaskIsMod(w: nat, k: nat)
    ensures And(w, Pow2(k) - 1) == w % Pow2(k)
  {
    PowerStep(k);
    hide Pow2;
    if k == 0 {
      AndOfZero(w);
    } else {
      hide And;
      MaskIsMod(w / 2, k - 1);
      HalvesMod(w, Pow2(k - 1), Pow2(k));
      MaskDigits(w, Pow2(k - 1), Pow2(k));
    }
  }

  lemma ZeroMod(n: nat)
    requires n > 0
    ensures 0 % n == 0
  {
    DivisionIsUnique(0, 0, 0, n);
  }

  lemma {:induction false} PowerSplits(j: nat, k: nat)
    ensures Pow2(j + k) == Pow2(j) * Pow2(k)
  {
    PowerStep(j);
    PowerStep(j + k);
    hide Pow2;
    if j > 0 {
      PowerSplits(j - 1, k);
      Doubled(Pow2(k), Pow2(j - 1), Pow2(j));
    }
  }

  lemma {:induction false} PowerGrows(j: nat, k: nat)
    requires j < k
    ensures Pow2(j) < Pow2(k)
  {
    if j + 1 < k { PowerGrows(j, k - 1); }
  }

  lemma MulAssociates(a: nat, b: nat, c: nat)
    ensures a * (b * c) == (a * b) * c
  {}

  lemma ModOfMod(x: nat, rest: nat, cap: nat, word: nat)
    requires cap > 0 && word > 0 && word == rest * cap
    ensures x % word % cap == x % cap
  {
    var q, r := x / word, x % word;
    assert x == q * word + r;
    MulAssociates(q, rest, cap);
    ModShift(r, q * rest, cap);
  }

  lemma AndDigit(a: nat, b: nat)
    ensures And(a, b) == 2 * And(a / 2, b / 2) + (if a % 2 == 1 && b % 2 == 1 then 1 else 0)
  {}

  lemma AndOfZero(a: nat)
    ensures And(a, 0) == And(0, a) == 0
  {}

  lemma Doubled(q: nat, h: nat, p: nat)
    requires p == 2 * h
    ensures q * p == 2 * (q * h)
  {}

  lemma AndHigher(h: nat, p: nat, q: nat, r: nat, u: nat, v: nat, x: nat, y: nat, a: nat, b: nat)
    requires p == 2 * h && x == q * p + r && y == u * p + v && a == q * h + r / 2 && b == u * h + v / 2
    requires And(a, b) == And(q, u) * h + And(r / 2, v / 2)
    ensures And(x, y) == And(q, u) * p + And(r, v)
  {
    hide And;
    Doubled(q, h, p);
    Doubled(u, h, p);
    Doubled(And(q, u), h, p);
    AndDigit(x, y);
    AndDigit(r, v);
  }

  /** `&` works on high and low digits apart. */
  lemma {:induction false} AndSplits(k: nat, q: nat, r: nat, u: nat, v: nat)
    requires r < Pow2(k) && v < Pow2(k)
    ensures And(q * Pow2(k) + r, u * Pow2(k) + v) == And(q, u) * Pow2(k) + And(r, v)
  {
    hide And, Pow2;
    PowerStep(k);
    AndOfZero(0);
    if k > 0 {
      AndSplits(k - 1, q, r / 2, u, v / 2);
      AndHigher(Pow2(k - 1), Pow2(k), q, r, u, v, q * Pow2(k) + r, u * Pow2(k) + v,
                q * Pow2(k - 1) + r / 2, u * Pow2(k - 1) + v / 2);
    }
  }

  lemma PowerStep(k: nat)
    ensures if k == 0 then Pow2(k) == 1 else Pow2(k) == 2 * Pow2(k - 1)
  {}

  /** Digits that do not overlap are joined by `|` as by `+`. */
  lemma OrJoins(k: nat, q: nat, r: nat)
    requires r < Pow2(k)
    ensures Or(q * Pow2(k), r) == Or(r, q * Pow2(k)) == q * Pow2(k) + r
  {
    hide And, Pow2;
    AndSplits(k, q, 0, 0, r);
    AndSplits(k, 0, r, q, 0);
    AndOfZero(q);
    AndOfZero(r);
  }

  /** A counter that wraps at a power of two keeps its remainder by a smaller one. */
  lemma WrapKeepsMod(x: nat, j: nat, bits: nat)
    requires j <= bits
    ensures x % Pow2(bits) % Pow2(j) == x % Pow2(j)
  {
    hide Pow2;
    PowerSplits(bits - j, j);
    ModOfMod(x, Pow2(bits - j), Pow2(j), Pow2(bits));
  }

  /** Masking the wrapped counter gives the position of the unbounded one. */
  lemma MaskedCounter(x: nat, j: nat, bits: nat)
    requires j <= bits
    ensures And(x % Pow2(bits), Pow2(j) - 1) == x % Pow2(j)
  {
    MaskIsMod(x % Pow2(bits), j);
    WrapKeepsMod(x, j, bits);
  }

  /** Addition and subtraction of `usz`, which wrap. */
  function Plus(a: nat, b: nat, word: nat): nat
    requires a < word && b < word
  {
    if a + b < word then a + b else a + b - word
  }

  function Minus(a: nat, b: nat, word: nat): nat
    requires a < word && b < word
  {
    if a >= b then a - b else a + word - b
  }

  lemma WrappedSum(x: nat, n: nat, word: nat)
    requires n < word
    ensures x % word < word && Plus(x % word, n, word) == (x + n) % word
  {
    var q, r := x / word, x % word;
    assert x == q * word + r;
    if r + n < word {
      DivisionIsUnique(x + n, q, r + n, word);
    } else {
      assert (q + 1) * word == q * word + word;
      DivisionIsUnique(x + n, q + 1, r + n - word, word);
    }
  }

  /** The difference of two wrapped counters is the distance of the unbounded ones. */
  lemma WrappedDistance(w: nat, r: nat, word: nat)
    requires r <= w < r + word
    ensures w % word < word && r % word < word && Minus(w % word, r % word, word) == w - r
  {
    WrappedSum(r, w - r, word);
  }
}
