/** Division with remainder by a variable. */
module Arith {

  lemma {:induction false} MulGap(a: nat, b: nat, n: nat)
    ensures a < b ==> a * n + n <= b * n
  {
    if a + 1 < b {
      MulGap(a, b - 1, n);
      assert (b - 1) * n + n == b * n;
    } else if a < b {
      assert b * n == (a + 1) * n == a * n + n;
    }
  }

  lemma DivisionIsUnique(a: nat, q: nat, r: nat, n: nat)
    requires r < n && a == q * n + r
    ensures a / n == q && a % n == r
  {
    var q1, r1 := a / n, a % n;
    var x, y := q1 * n, q * n;
    assert a == x + r1;
    MulGap(q1, q, n);
    MulGap(q, q1, n);
  }

  /** Numbers less than `n` apart have the same remainder only if they are the same. */
  lemma SameMod(a: nat, b: nat, n: nat)
    requires a <= b < a + n && a % n == b % n
    ensures a == b
  {
    var qa, qb := a / n, b / n;
    var x, y := qa * n, qb * n;
    assert a == x + a % n && b == y + b % n;
    MulGap(qa, qb, n);
    MulGap(qb, qa, n);
  }

  lemma ModShift(a: nat, k: nat, n: nat)
    requires n > 0
    ensures (a + k * n) % n == a % n
  {
    var q, r := a / n, a % n;
    assert a + k * n == (q + k) * n + r;
    DivisionIsUnique(a + k * n, q + k, r, n);
  }

  lemma ModAdd(a: nat, b: nat, n: nat)
    requires n > 0
    ensures (a % n + b) % n == (a + b) % n
  {
    var q := a / n;
    assert a == a % n + q * n;
    ModShift(a % n + b, q, n);
  }
}
