/** SHA-256 against values and properties that do not come from its definition. */
module Fips180Values {
  import opened Fips180
  import opened Primes

  // ---------- the functions of section 4.1.2, bit by bit ----------

  // Bit j of a word, from the lowest one.
  predicate BitAt(x: word, j: bv6)
    requires j < 32
  {
    (x >> j) & 1 == 1
  }

  // The bit n places further up, around the end.
  function Up(j: bv6, n: bv6): (k: bv6)
    requires j < 32 && n < 32
    ensures k < 32
  {
    (j + n) % 32
  }

  lemma XorRaw(a: word, b: word, c: word, j: bv6)
    requires j < 32
    ensures BitAt(a ^ b ^ c, j) <==> (BitAt(a, j) != BitAt(b, j)) != BitAt(c, j)
  {
  }

  lemma XorBit(a: word, b: word, c: word, j: bv6)
    requires j < 32
    ensures BitAt(Xor3(a, b, c), j) <==> (BitAt(a, j) != BitAt(b, j)) != BitAt(c, j)
  {
    hide BitAt;
    XorRaw(a, b, c, j);
  }

  lemma TurnedRaw(x: word, n: bv6, j: bv6)
    requires 0 < n < 32 && j < 32
    ensures BitAt((x >> n) | (x << (32 - n)), j) <==> BitAt(x, (j + n) % 32)
  {
  }

  // Turning a word right moves its bits down, around the end.
  lemma RotrBit(x: word, n: bv6, j: bv6)
    requires 0 < n < 32 && j < 32
    ensures BitAt(Rotr(x, n), j) <==> BitAt(x, Up(j, n))
  {
    hide BitAt;
    TurnedRaw(x, n, j);
  }

  lemma ShiftedRaw(x: word, n: bv6, j: bv6)
    requires n < 32 && j < 32
    ensures BitAt(x >> n, j) <==> j + n < 32 && BitAt(x, j + n)
  {
  }

  // Shifting it moves the bits down and the upper ones are 0.
  lemma ShrBit(x: word, n: bv6, j: bv6)
    requires n < 32 && j < 32
    ensures BitAt(Shr(x, n), j) <==> j + n < 32 && BitAt(x, j + n)
  {
    hide BitAt;
    ShiftedRaw(x, n, j);
  }

  lemma BigSigma0Bits(x: word, j: bv6)
    requires j < 32
    ensures BitAt(BigSigma0(x), j) <==>
            (BitAt(x, Up(j, 2)) != BitAt(x, Up(j, 13))) != BitAt(x, Up(j, 22))
  {
    hide Xor3, Rotr, Shr, Up, BitAt;
    XorBit(Rotr(x, 2), Rotr(x, 13), Rotr(x, 22), j);
    RotrBit(x, 2, j);
    RotrBit(x, 13, j);
    RotrBit(x, 22, j);
  }

  lemma BigSigma1Bits(x: word, j: bv6)
    requires j < 32
    ensures BitAt(BigSigma1(x), j) <==>
            (BitAt(x, Up(j, 6)) != BitAt(x, Up(j, 11))) != BitAt(x, Up(j, 25))
  {
    hide Xor3, Rotr, Shr, Up, BitAt;
    XorBit(Rotr(x, 6), Rotr(x, 11), Rotr(x, 25), j);
    RotrBit(x, 6, j);
    RotrBit(x, 11, j);
    RotrBit(x, 25, j);
  }

  lemma SmallSigma0Bits(x: word, j: bv6)
    requires j < 32
    ensures BitAt(SmallSigma0(x), j) <==>
            (BitAt(x, Up(j, 7)) != BitAt(x, Up(j, 18))) != (j + 3 < 32 && BitAt(x, j + 3))
  {
    hide Xor3, Rotr, Shr, Up, BitAt;
    XorBit(Rotr(x, 7), Rotr(x, 18), Shr(x, 3), j);
    RotrBit(x, 7, j);
    RotrBit(x, 18, j);
    ShrBit(x, 3, j);
  }

  lemma SmallSigma1Bits(x: word, j: bv6)
    requires j < 32
    ensures BitAt(SmallSigma1(x), j) <==>
            (BitAt(x, Up(j, 17)) != BitAt(x, Up(j, 19))) != (j + 10 < 32 && BitAt(x, j + 10))
  {
    hide Xor3, Rotr, Shr, Up, BitAt;
    XorBit(Rotr(x, 17), Rotr(x, 19), Shr(x, 10), j);
    RotrBit(x, 17, j);
    RotrBit(x, 19, j);
    ShrBit(x, 10, j);
  }

  lemma ChRaw(x: word, y: word, z: word, j: bv6)
    requires j < 32
    ensures BitAt((x & y) ^ (!x & z), j) <==> if BitAt(x, j) then BitAt(y, j) else BitAt(z, j)
  {
  }

  // Each bit of x chooses between y and z.
  lemma ChBits(x: word, y: word, z: word, j: bv6)
    requires j < 32
    ensures BitAt(Ch(x, y, z), j) <==> if BitAt(x, j) then BitAt(y, j) else BitAt(z, j)
  {
    hide BitAt;
    ChRaw(x, y, z, j);
  }

  lemma MajRaw(x: word, y: word, z: word, j: bv6)
    requires j < 32
    ensures BitAt((x & y) ^ (x & z) ^ (y & z), j) <==>
            if BitAt(x, j) then BitAt(y, j) || BitAt(z, j) else BitAt(y, j) && BitAt(z, j)
  {
  }

  // The majority of three bits.
  lemma MajBits(x: word, y: word, z: word, j: bv6)
    requires j < 32
    ensures BitAt(Maj(x, y, z), j) <==> if BitAt(x, j) then BitAt(y, j) || BitAt(z, j) else BitAt(y, j) && BitAt(z, j)
  {
    hide BitAt;
    MajRaw(x, y, z, j);
  }

  // ---------- the constants of sections 4.2.2 and 5.3.3 ----------

  // The cube root of p, rounded down.
  function CubeRoot(p: nat): nat {
    if p < 8 then 1 else if p < 27 then 2 else if p < 64 then 3 else if p < 125 then 4 else if p < 216 then 5 else 6
  }

  // The first 32 bits of the fraction of the cube root of p.
  predicate CubeFraction(p: nat, fraction: word) {
    var c := CubeRoot(p) * 0x1_0000_0000 + fraction as nat;
    c * c * c <= p * 0x1_0000_0000_0000_0000_0000_0000 < (c + 1) * (c + 1) * (c + 1)
  }

  lemma Cubes0()
    ensures forall i | 0 <= i < 8 :: CubeFraction(PRIMES[i], K[i])
  {
    assert CubeFraction(2, 0x428a2f98);
    assert CubeFraction(3, 0x71374491);
    assert CubeFraction(5, 0xb5c0fbcf);
    assert CubeFraction(7, 0xe9b5dba5);
    assert CubeFraction(11, 0x3956c25b);
    assert CubeFraction(13, 0x59f111f1);
    assert CubeFraction(17, 0x923f82a4);
    assert CubeFraction(19, 0xab1c5ed5);
    hide CubeFraction;
  }

  lemma Cubes1()
    ensures forall i | 8 <= i < 16 :: CubeFraction(PRIMES[i], K[i])
  {
    assert CubeFraction(23, 0xd807aa98);
    assert CubeFraction(29, 0x12835b01);
    assert CubeFraction(31, 0x243185be);
    assert CubeFraction(37, 0x550c7dc3);
    assert CubeFraction(41, 0x72be5d74);
    assert CubeFraction(43, 0x80deb1fe);
    assert CubeFraction(47, 0x9bdc06a7);
    assert CubeFraction(53, 0xc19bf174);
    hide CubeFraction;
  }

  lemma Cubes2()
    ensures forall i | 16 <= i < 24 :: CubeFraction(PRIMES[i], K[i])
  {
    assert CubeFraction(59, 0xe49b69c1);
    assert CubeFraction(61, 0xefbe4786);
    assert CubeFraction(67, 0x0fc19dc6);
    assert CubeFraction(71, 0x240ca1cc);
    assert CubeFraction(73, 0x2de92c6f);
    assert CubeFraction(79, 0x4a7484aa);
    assert CubeFraction(83, 0x5cb0a9dc);
    assert CubeFraction(89, 0x76f988da);
    hide CubeFraction;
  }

  lemma Cubes3()
    ensures forall i | 24 <= i < 32 :: CubeFraction(PRIMES[i], K[i])
  {
    assert CubeFraction(97, 0x983e5152);
    assert CubeFraction(101, 0xa831c66d);
    assert CubeFraction(103, 0xb00327c8);
    assert CubeFraction(107, 0xbf597fc7);
    assert CubeFraction(109, 0xc6e00bf3);
    assert CubeFraction(113, 0xd5a79147);
    assert CubeFraction(127, 0x06ca6351);
    assert CubeFraction(131, 0x14292967);
    hide CubeFraction;
  }

  lemma Cubes4()
    ensures forall i | 32 <= i < 40 :: CubeFraction(PRIMES[i], K[i])
  {
    assert CubeFraction(137, 0x27b70a85);
    assert CubeFraction(139, 0x2e1b2138);
    assert CubeFraction(149, 0x4d2c6dfc);
    assert CubeFraction(151, 0x53380d13);
    assert CubeFraction(157, 0x650a7354);
    assert CubeFraction(163, 0x766a0abb);
    assert CubeFraction(167, 0x81c2c92e);
    assert CubeFraction(173, 0x92722c85);
    hide CubeFraction;
  }

  lemma Cubes5()
    ensures forall i | 40 <= i < 48 :: CubeFraction(PRIMES[i], K[i])
  {
    assert CubeFraction(179, 0xa2bfe8a1);
    assert CubeFraction(181, 0xa81a664b);
    assert CubeFraction(191, 0xc24b8b70);
    assert CubeFraction(193, 0xc76c51a3);
    assert CubeFraction(197, 0xd192e819);
    assert CubeFraction(199, 0xd6990624);
    assert CubeFraction(211, 0xf40e3585);
    assert CubeFraction(223, 0x106aa070);
    hide CubeFraction;
  }

  lemma Cubes6()
    ensures forall i | 48 <= i < 56 :: CubeFraction(PRIMES[i], K[i])
  {
    assert CubeFraction(227, 0x19a4c116);
    assert CubeFraction(229, 0x1e376c08);
    assert CubeFraction(233, 0x2748774c);
    assert CubeFraction(239, 0x34b0bcb5);
    assert CubeFraction(241, 0x391c0cb3);
    assert CubeFraction(251, 0x4ed8aa4a);
    assert CubeFraction(257, 0x5b9cca4f);
    assert CubeFraction(263, 0x682e6ff3);
    hide CubeFraction;
  }

  lemma Cubes7()
    ensures forall i | 56 <= i < 64 :: CubeFraction(PRIMES[i], K[i])
  {
    assert CubeFraction(269, 0x748f82ee);
    assert CubeFraction(271, 0x78a5636f);
    assert CubeFraction(277, 0x84c87814);
    assert CubeFraction(281, 0x8cc70208);
    assert CubeFraction(283, 0x90befffa);
    assert CubeFraction(293, 0xa4506ceb);
    assert CubeFraction(307, 0xbef9a3f7);
    assert CubeFraction(311, 0xc67178f2);
    hide CubeFraction;
  }

  // The round constants come from the cube roots of the first 64 primes.
  lemma RoundConstantRoots()
    ensures forall i | 0 <= i < 64 :: CubeFraction(PRIMES[i], K[i])
  {
    hide CubeFraction;
    Cubes0();
    Cubes1();
    Cubes2();
    Cubes3();
    Cubes4();
    Cubes5();
    Cubes6();
    Cubes7();
  }

  // The square root of p, rounded down.
  function SquareRoot(p: nat): nat {
    if p < 4 then 1 else if p < 9 then 2 else if p < 16 then 3 else 4
  }

  // The first 32 bits of the fraction of the square root of p.
  predicate SquareFraction(p: nat, fraction: word) {
    var c := SquareRoot(p) * 0x1_0000_0000 + fraction as nat;
    c * c <= p * 0x1_0000_0000_0000_0000 < (c + 1) * (c + 1)
  }

  // The initial hash value comes from the square roots of the first eight primes.
  lemma InitialRoots()
    ensures SquareFraction(2, INITIAL.a) && SquareFraction(3, INITIAL.b) && SquareFraction(5, INITIAL.c)
    ensures SquareFraction(7, INITIAL.d) && SquareFraction(11, INITIAL.e) && SquareFraction(13, INITIAL.f)
    ensures SquareFraction(17, INITIAL.g) && SquareFraction(19, INITIAL.h)
  {
    assert SquareFraction(2, 0x6a09e667) && SquareFraction(3, 0xbb67ae85) && SquareFraction(5, 0x3c6ef372);
    assert SquareFraction(7, 0xa54ff53a) && SquareFraction(11, 0x510e527f) && SquareFraction(13, 0x9b05688c);
    assert SquareFraction(17, 0x1f83d9ab) && SquareFraction(19, 0x5be0cd19);
    hide SquareFraction;
  }
}
