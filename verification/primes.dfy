/** The first 64 prime numbers. */
module Primes {
  import opened Arith

  ghost predicate Prime(n: nat) {
    n > 1 && forall d | 1 < d < n :: n % d != 0
  }

  // The first 64 prime numbers.
  const PRIMES: seq<nat> :=
    [2, 3, 5, 7, 11, 13, 17, 19, 23, 29, 31, 37, 41, 43, 47, 53] +
    [59, 61, 67, 71, 73, 79, 83, 89, 97, 101, 103, 107, 109, 113, 127, 131] +
    [137, 139, 149, 151, 157, 163, 167, 173, 179, 181, 191, 193, 197, 199, 211, 223] +
    [227, 229, 233, 239, 241, 251, 257, 263, 269, 271, 277, 281, 283, 293, 307, 311]

  // A smaller number up to 17 divides n.
  predicate Divided(n: nat) {
    || (n > 2 && n % 2 == 0) || (n > 3 && n % 3 == 0) || (n > 5 && n % 5 == 0) || (n > 7 && n % 7 == 0)
    || (n > 11 && n % 11 == 0) || (n > 13 && n % 13 == 0) || (n > 17 && n % 17 == 0)
  }

  // A prime factor of a factor of n.
  lemma FactorOf(n: nat, a: nat, b: nat, p: nat)
    requires n == a * b && b >= 2 && p > 1 && a % p == 0 && a > 0
    ensures p < n && n % p == 0
  {
    var k := a / p;
    MulMono(1, k, p);
    MulMono(2, b, a);
    assert a * b == (p * k) * b == (k * b) * p;
    DivModUnique(n, k * b, p, 0);
  }

  lemma SmallFactor(n: nat, a: nat, b: nat)
    requires n == a * b && 2 <= a <= 18 && b >= 2
    ensures Divided(n)
  {
    if a % 2 == 0 {
      FactorOf(n, a, b, 2);
    } else if a % 3 == 0 {
      FactorOf(n, a, b, 3);
    } else if a % 5 == 0 {
      FactorOf(n, a, b, 5);
    } else {
      assert a == 7 || a == 11 || a == 13 || a == 17;
      FactorOf(n, a, b, a);
    }
  }

  // Below 19 times 19, a number is prime exactly if no smaller one up to 17 divides it.
  lemma PrimeIff(n: nat)
    requires 1 < n < 361
    ensures Prime(n) <==> !Divided(n)
  {
    if !Divided(n) {
      forall d | 1 < d < n
        ensures n % d != 0
      {
        var q := n / d;
        assert n % d == 0 ==> n == q * d && q >= 2;
        if n % d == 0 && d <= 18 {
          SmallFactor(n, d, q);
        } else if n % d == 0 && q <= 18 {
          SmallFactor(n, q, d);
        } else if n % d == 0 {
          MulMono(19, q, d);
        }
      }
    }
  }

  // Of every number from lo on, up to but not including hi, a smaller one up to 17 is a divisor.
  predicate AllDivided(lo: nat, hi: nat)
    decreases hi - lo
  {
    lo >= hi || (Divided(lo) && AllDivided(lo + 1, hi))
  }

  lemma {:induction false} DividedBetween(lo: nat, hi: nat, n: nat)
    requires AllDivided(lo, hi) && lo <= n < hi
    ensures Divided(n)
    decreases hi - lo
  {
    if lo == n {
    } else {
      DividedBetween(lo + 1, hi, n);
    }
  }

  // q is the first number after p that no smaller one up to 17 divides.
  predicate Follows(p: nat, q: nat) {
    p < q < 361 && !Divided(q) && AllDivided(p + 1, q)
  }

  lemma Row0()
    ensures forall i | 1 <= i < 8 :: Follows(PRIMES[i - 1], PRIMES[i])
  {
    assert Follows(2, 3);
    assert Follows(3, 5);
    assert Follows(5, 7);
    assert Follows(7, 11);
    assert Follows(11, 13);
    assert Follows(13, 17);
    assert Follows(17, 19);
    hide Follows;
  }

  lemma Row1()
    ensures forall i | 8 <= i < 16 :: Follows(PRIMES[i - 1], PRIMES[i])
  {
    assert Follows(19, 23);
    assert Follows(23, 29);
    assert Follows(29, 31);
    assert Follows(31, 37);
    assert Follows(37, 41);
    assert Follows(41, 43);
    assert Follows(43, 47);
    assert Follows(47, 53);
    hide Follows;
  }

  lemma Row2()
    ensures forall i | 16 <= i < 24 :: Follows(PRIMES[i - 1], PRIMES[i])
  {
    assert Follows(53, 59);
    assert Follows(59, 61);
    assert Follows(61, 67);
    assert Follows(67, 71);
    assert Follows(71, 73);
    assert Follows(73, 79);
    assert Follows(79, 83);
    assert Follows(83, 89);
    hide Follows;
  }

  lemma Row3()
    ensures forall i | 24 <= i < 32 :: Follows(PRIMES[i - 1], PRIMES[i])
  {
    assert Follows(89, 97);
    assert Follows(97, 101);
    assert Follows(101, 103);
    assert Follows(103, 107);
    assert Follows(107, 109);
    assert Follows(109, 113);
    assert Follows(113, 127);
    assert Follows(127, 131);
    hide Follows;
  }

  lemma Row4()
    ensures forall i | 32 <= i < 40 :: Follows(PRIMES[i - 1], PRIMES[i])
  {
    assert Follows(131, 137);
    assert Follows(137, 139);
    assert Follows(139, 149);
    assert Follows(149, 151);
    assert Follows(151, 157);
    assert Follows(157, 163);
    assert Follows(163, 167);
    assert Follows(167, 173);
    hide Follows;
  }

  lemma Row5()
    ensures forall i | 40 <= i < 48 :: Follows(PRIMES[i - 1], PRIMES[i])
  {
    assert Follows(173, 179);
    assert Follows(179, 181);
    assert Follows(181, 191);
    assert Follows(191, 193);
    assert Follows(193, 197);
    assert Follows(197, 199);
    assert Follows(199, 211);
    assert Follows(211, 223);
    hide Follows;
  }

  lemma Row6()
    ensures forall i | 48 <= i < 56 :: Follows(PRIMES[i - 1], PRIMES[i])
  {
    assert Follows(223, 227);
    assert Follows(227, 229);
    assert Follows(229, 233);
    assert Follows(233, 239);
    assert Follows(239, 241);
    assert Follows(241, 251);
    assert Follows(251, 257);
    assert Follows(257, 263);
    hide Follows;
  }

  lemma Row7()
    ensures forall i | 56 <= i < 64 :: Follows(PRIMES[i - 1], PRIMES[i])
  {
    assert Follows(263, 269);
    assert Follows(269, 271);
    assert Follows(271, 277);
    assert Follows(277, 281);
    assert Follows(281, 283);
    assert Follows(283, 293);
    assert Follows(293, 307);
    assert Follows(307, 311);
    hide Follows;
  }

  lemma FollowsMeans(p: nat, q: nat)
    requires Follows(p, q) && p > 0
    ensures Prime(q) && p < q && forall n | p < n < q :: !Prime(n)
  {
    PrimeIff(q);
    forall n | p < n < q
      ensures !Prime(n)
    {
      DividedBetween(p + 1, q, n);
      PrimeIff(n);
    }
  }

  // PRIMES lists the prime numbers in order from 2 on, without leaving any out.
  lemma PrimesListed(i: nat)
    requires i < 64
    ensures PRIMES[0] == 2 && Prime(PRIMES[i])
    ensures i > 0 ==> PRIMES[i - 1] < PRIMES[i] && forall n | PRIMES[i - 1] < n < PRIMES[i] :: !Prime(n)
  {
    Row0();
    Row1();
    Row2();
    Row3();
    Row4();
    Row5();
    Row6();
    Row7();
    PrimeIff(2);
    hide Prime, Follows;
    if i > 0 {
      FollowsMeans(PRIMES[i - 1], PRIMES[i]);
    }
  }
}
