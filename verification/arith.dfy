/** Division with remainder and powers of two. */
module Arith {

  // A byte as a number.
  type octet = n: nat | n < 256

  lemma MulMono(m: int, n: int, a: int)
    requires m <= n && a >= 0
    ensures m * a <= n * a
  {
  }

  lemma MulNext(m: int, a: int)
    ensures (m + 1) * a == m * a + a
  {
  }

  // Quotient and remainder are the only ones.
  lemma DivModUnique(x: int, q: int, a: int, r: int)
    requires a > 0 && x == q * a + r && 0 <= r < a
    ensures x / a == q && x % a == r
  {
    var q', r' := x / a, x % a;
    assert x == q' * a + r';
    MulNext(q, a);
    MulNext(q', a);
    if q < q' {
      MulMono(q + 1, q', a);
    } else if q' < q {
      MulMono(q' + 1, q, a);
    }
  }

  predicate PowerOfTwo(n: nat) {
    n == 1 || (n > 0 && n % 2 == 0 && PowerOfTwo(n / 2))
  }

  // A smaller power of two divides a larger one.
  lemma {:induction false} PowersDivide(a: nat, b: nat)
    requires PowerOfTwo(a) && PowerOfTwo(b) && a <= b
    ensures b % a == 0
  {
    if a <= 1 {
    } else {
      PowersDivide(a / 2, b / 2);
      Halves(a / 2, b / 2);
      assert a == 2 * (a / 2) && b == 2 * (b / 2);
    }
  }

  lemma Halves(a: nat, b: nat)
    requires a > 0 && b % a == 0
    ensures (2 * b) % (2 * a) == 0
  {
    var q := b / a;
    assert b == q * a;
    Swap(q, a);
    DivModUnique(2 * b, q, 2 * a, 0);
  }

  lemma Swap(q: int, a: int)
    ensures 2 * (q * a) == q * (2 * a)
  {
  }

  function Pow2(n: nat): nat {
    if n == 0 then 1 else 2 * Pow2(n - 1)
  }

  lemma {:induction false} Pow2Add(m: nat, n: nat)
    ensures Pow2(m + n) == Pow2(m) * Pow2(n)
  {
    if n == 0 {
    } else {
      Pow2Add(m, n - 1);
      Swap(Pow2(m), Pow2(n - 1));
    }
  }
}
