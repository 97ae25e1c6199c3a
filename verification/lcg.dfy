/** The linear congruential generator modulo 2^32 goes through all its values in one cycle. */
module Lcg {
  import opened Arith

  const M: nat := 0x1_0000_0000

  const A: nat := 1664525
  const C: nat := 1013904223

  function Step(x: nat): (y: nat)
    ensures y < M
  {
    (A * x + C) % M
  }

  // Two steps, computed by hand.
  lemma SomeSteps()
    ensures Step(0) == 1013904223 && Step(12345) == 87628868
  {
  }

  // n steps.
  function Iter(x: nat, n: nat): (y: nat)
    ensures x < M ==> y < M
  {
    if n == 0 then x else Step(Iter(x, n - 1))
  }

  lemma {:induction false} IterAdd(x: nat, m: nat, n: nat)
    ensures Iter(Iter(x, m), n) == Iter(x, m + n)
  {
    if n == 0 {
    } else {
      IterAdd(x, m, n - 1);
    }
  }

  // ---------- powers of two ----------

  // 2^k divides n.
  predicate Divisible(k: nat, n: nat) {
    k == 0 || (n % 2 == 0 && Divisible(k - 1, n / 2))
  }

  ghost predicate Multiple(n: nat, d: nat) {
    exists q: nat :: n == q * d
  }

  lemma {:induction false} DivisibleIsMultiple(k: nat, n: nat)
    ensures Divisible(k, n) <==> Multiple(n, Pow2(k))
  {
    hide Multiple;
    if k == 0 {
      MultipleOne(n);
    } else {
      DivisibleIsMultiple(k - 1, n / 2);
      MultipleHalf(n, Pow2(k - 1));
    }
  }

  lemma MultipleOne(n: nat)
    ensures Multiple(n, 1)
  {
    assert n == n * 1;
  }

  lemma MultipleHalf(n: nat, d: nat)
    ensures Multiple(n, 2 * d) <==> n % 2 == 0 && Multiple(n / 2, d)
  {
    if Multiple(n, 2 * d) {
      var q: nat :| n == q * (2 * d);
      Swap(q, d);
      assert n / 2 == q * d;
    }
    if n % 2 == 0 && Multiple(n / 2, d) {
      var q: nat :| n / 2 == q * d;
      Swap(q, d);
      assert n == q * (2 * d);
    }
  }

  lemma MultipleMod(n: nat, d: nat)
    requires d > 0
    ensures Multiple(n, d) <==> n % d == 0
  {
    if Multiple(n, d) {
      var q: nat :| n == q * d;
      DivModUnique(n, q, d, 0);
    }
    if n % d == 0 {
      assert n == (n / d) * d;
    }
  }

  lemma OddTimes(s: nat, q: nat)
    requires q % 2 == 1
    ensures s * q % 2 == s % 2
    ensures s % 2 == 0 ==> s * q / 2 == (s / 2) * q
  {
    var h := q / 2;
    assert s * q == 2 * (s * h) + s;
    if s % 2 == 0 {
      assert s * q == 2 * ((s / 2) * q);
    }
  }

  lemma {:induction false} OddFactor(k: nat, s: nat, q: nat)
    requires q % 2 == 1
    ensures Divisible(k, s * q) <==> Divisible(k, s)
  {
    if k == 0 {
    } else {
      OddTimes(s, q);
      if s % 2 == 0 {
        OddFactor(k - 1, s / 2, q);
      }
    }
  }

  // ---------- the geometric sum 1 + a + ... + a^(n-1) ----------

  function Sum(a: nat, n: nat): nat {
    if n == 0 then 0 else a * Sum(a, n - 1) + 1
  }

  lemma {:induction false} SumAdd(a: nat, m: nat, n: nat)
    requires a > 0
    ensures Sum(a, m + n) == Sum(a, m) + Sum(a, n) + (a - 1) * Sum(a, m) * Sum(a, n)
  {
    if n == 0 {
    } else {
      SumAdd(a, m, n - 1);
      var s, t := Sum(a, m), Sum(a, n - 1);
      assert Sum(a, m + n) == a * (s + t + (a - 1) * s * t) + 1;
      SumStep(a, s, t);
    }
  }

  lemma SumStep(a: nat, s: nat, t: nat)
    requires a > 0
    ensures a * (s + t + (a - 1) * s * t) + 1 == s + (a * t + 1) + (a - 1) * s * (a * t + 1)
  {
    var w := (a - 1) * s;
    assert w * (a * t + 1) == a * (w * t) + w;
    assert w == a * s - s;
    assert a * (s + t + w * t) == a * s + a * t + a * (w * t);
  }

  // A sum of twice as many terms is twice the sum times an odd number.
  lemma SumDouble(a: nat, m: nat) returns (u: nat)
    requires a % 4 == 1
    ensures u % 2 == 1 && Sum(a, 2 * m) == 2 * (Sum(a, m) * u)
  {
    hide Sum;
    SumAdd(a, m, m);
    assert m + m == 2 * m;
    u := DoubleStep(a, Sum(a, m));
  }

  lemma DoubleStep(a: nat, s: nat) returns (u: nat)
    requires a % 4 == 1
    ensures u % 2 == 1 && s + s + (a - 1) * s * s == 2 * (s * u)
  {
    var b := a / 4;
    u := 1 + 2 * (b * s);
    assert a - 1 == 4 * b;
    FourTimes(b, s);
  }

  lemma FourTimes(b: nat, s: nat)
    ensures s + s + 4 * b * s * s == 2 * (s * (1 + 2 * (b * s)))
  {
    assert 4 * b * s * s == 2 * (s * (2 * (b * s)));
  }

  lemma EvenTimes(a: nat, h: nat)
    requires h % 2 == 0
    ensures a * h % 2 == 0
  {
    assert a * h == 2 * (a * (h / 2));
  }

  lemma SumEven(a: nat, m: nat)
    requires a % 4 == 1
    ensures Sum(a, 2 * m) % 2 == 0
  {
    var u := SumDouble(a, m);
  }

  lemma SumOdd(a: nat, m: nat)
    requires a % 4 == 1
    ensures Sum(a, 2 * m + 1) % 2 == 1
  {
    SumEven(a, m);
    EvenTimes(a, Sum(a, 2 * m));
  }

  lemma HalfDivisible(k: nat, x: nat, y: nat)
    requires k > 0 && x == 2 * y
    ensures Divisible(k, x) <==> Divisible(k - 1, y)
  {
  }

  // For a multiplier that is 1 modulo 4 the sum is divisible by 2^k exactly when the number of terms is.
  lemma {:induction false} SumDivisible(a: nat, k: nat, n: nat)
    requires a % 4 == 1
    ensures Divisible(k, Sum(a, n)) <==> Divisible(k, n)
    decreases n
  {
    var m := n / 2;
    if k == 0 || n == 0 {
    } else {
      if n % 2 == 0 {
        var s := Sum(a, m);
        var u := SumDouble(a, m);
        HalfDivisible(k, Sum(a, n), s * u);
        HalfDivisible(k, n, m);
        OddFactor(k - 1, s, u);
        SumDivisible(a, k - 1, m);
      } else {
        SumOdd(a, m);
      }
    }
  }

  // ---------- the generator ----------

  lemma ModStep(y: nat, z: nat)
    requires y == z % M
    ensures Step(y) == (A * z + C) % M
  {
    var q := z / M;
    assert A * z + C == (A * y + C) + (A * q) * M;
    ModShift(A * y + C, A * q);
  }

  lemma ModShift(x: nat, q: nat)
    ensures (x + q * M) % M == x % M
  {
    if q > 0 {
      ModShift(x, q - 1);
      assert x + q * M == (x + (q - 1) * M) + M;
    }
  }

  // Where n steps from x lead, s being the sum of n terms; to be reduced modulo M.
  function Closed(a: nat, c: nat, x: nat, s: nat): nat
    requires a > 0
  {
    x + s * ((a - 1) * x + c)
  }

  lemma {:induction false} IterClosed(x: nat, n: nat)
    requires x < M
    ensures Iter(x, n) == Closed(A, C, x, Sum(A, n)) % M
  {
    hide Step, Closed;
    if n == 0 {
      ClosedNone(A, C, x);
    } else {
      IterClosed(x, n - 1);
      var s := Sum(A, n - 1);
      ModStep(Iter(x, n - 1), Closed(A, C, x, s));
      ClosedStep(A, C, x, s);
    }
  }

  lemma ClosedNone(a: nat, c: nat, x: nat)
    requires a > 0
    ensures Closed(a, c, x, 0) == x
  {
  }

  lemma ClosedStep(a: nat, c: nat, x: nat, s: nat)
    requires a > 0
    ensures a * Closed(a, c, x, s) + c == Closed(a, c, x, a * s + 1)
  {
    var q := (a - 1) * x + c;
    assert a * x + c == x + q;
    assert a * (x + s * q) == a * x + a * s * q;
    assert (a * s + 1) * q == a * s * q + q;
  }

  lemma AtM(n: nat)
    ensures Divisible(32, n) <==> n % M == 0
  {
    hide Divisible, Multiple;
    DivisibleIsMultiple(32, n);
    MultipleMod(n, M);
    PowIsM();
  }

  lemma PowIsM()
    ensures Pow2(32) == M
  {
    assert Pow2(8) == 256;
    Pow2Add(8, 8);
    Pow2Add(16, 16);
  }

  // The generator returns to where it was exactly after every 2^32 steps.
  lemma Period(x: nat, n: nat)
    requires x < M
    ensures Iter(x, n) == x <==> n % M == 0
  {
    hide Iter, Sum;
    var s, q := Sum(A, n), (A - 1) * x + C;
    IterClosed(x, n);
    AddMod(x, s * q);
    OddIncrement(x);
    PeriodicSum(s, q, n);
  }

  lemma OddIncrement(x: nat)
    ensures ((A - 1) * x + C) % 2 == 1
  {
    assert (A - 1) * x == 2 * (832262 * x);
  }

  lemma PeriodicSum(s: nat, q: nat, n: nat)
    requires s == Sum(A, n) && q % 2 == 1
    ensures s * q % M == 0 <==> n % M == 0
  {
    hide Divisible, Sum;
    AtM(s * q);
    OddFactor(32, s, q);
    SumDivisible(A, 32, n);
    AtM(n);
  }

  lemma AddMod(x: nat, y: nat)
    requires x < M
    ensures (x + y) % M == x <==> y % M == 0
  {
  }
}
