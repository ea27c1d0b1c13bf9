/**
 * Small facts about multiplication and Euclidean division, stated once so
 * that the proofs using them need no nonlinear reasoning of their own.
 */
module Arith {
  lemma MulLess(i: int, j: int, a: int)
    requires a > 0 && i * a < j * a
    ensures i < j
  {
  }

  lemma MulMono(i: int, j: int, a: int)
    requires a >= 0 && i <= j
    ensures i * a <= j * a
  {
  }

  lemma DivModUnique(x: int, a: int, q: int, r: int)
    requires a > 0 && x == q * a + r && 0 <= r < a
    ensures x / a == q && x % a == r
  {
    var q0 := x / a;
    assert x == q0 * a + x % a;
    assert (q0 + 1) * a == q0 * a + a;
    assert (q + 1) * a == q * a + a;
    MulLess(q, q0 + 1, a);
    MulLess(q0, q + 1, a);
  }

  lemma MultipleMod(k: int, a: int)
    requires a > 0
    ensures (k * a) % a == 0
  {
    DivModUnique(k * a, a, k, 0);
  }

  /** Distinct multiples of `a` are at least `a` apart. */
  lemma MultiplesApart(x: int, y: int, a: int)
    requires a > 0 && x % a == 0 && y % a == 0
    ensures x < y ==> x + a <= y
  {
    if x < y {
      var i := x / a;
      var j := y / a;
      assert x == i * a && y == j * a;
      MulLess(i, j, a);
      assert (i + 1) * a == i * a + a;
      MulMono(i + 1, j, a);
    }
  }

  /** Dividing by a divisor no larger than the dividend gives at least 1, and the dividend lies between the quotient times the divisor and the next multiple. */
  lemma QuotientBounds(x: int, a: int)
    requires 0 < a <= x
    ensures 1 <= x / a && (x / a) * a <= x < (x / a + 1) * a
  {
    var q := x / a;
    assert x == q * a + x % a;
    assert (q + 1) * a == q * a + a;
    MulLess(0, q, a);
  }

  /** 2^k. */
  function Pow2(k: nat): (r: nat)
    ensures r >= 1
  {
    if k == 0 then 1 else 2 * Pow2(k - 1)
  }

  lemma {:induction false} Pow2Add(a: nat, b: nat)
    ensures Pow2(a + b) == Pow2(a) * Pow2(b)
  {
    if a > 0 {
      Pow2Add(a - 1, b);
      assert Pow2(a + b) == 2 * Pow2(a - 1 + b);
    }
  }

  lemma {:induction false} Pow2Monotone(a: nat, b: nat)
    ensures a <= b ==> Pow2(a) <= Pow2(b)
  {
    if a < b {
      Pow2Monotone(a, b - 1);
    }
  }
}
