/** Masks on 32-bit words as arithmetic on the numbers they stand for. */
module Words {
  import opened Arith

  // The number that a word stands for.
  function N(x: bv32): nat {
    x as nat
  }

  // ---------- a word and its upper bits ----------

  lemma TwiceEven(x: bv32)
    requires x < 0x8000_0000
    ensures N(x << 1) == 2 * N(x)
  {
  }

  lemma TwiceOdd(x: bv32)
    requires x < 0x8000_0000
    ensures N((x << 1) | 1) == 2 * N(x) + 1
  {
  }

  lemma LastBit(x: bv32)
    ensures x >> 1 < 0x8000_0000
    ensures if x & 1 == 0 then x == (x >> 1) << 1 else x & 1 == 1 && x == ((x >> 1) << 1) | 1
  {
  }

  lemma Half(x: bv32)
    ensures N(x) / 2 == N(x >> 1) && N(x) % 2 == if x & 1 == 0 then 0 else 1
  {
    hide N;
    LastBit(x);
    if x & 1 == 0 {
      TwiceEven(x >> 1);
    } else {
      TwiceOdd(x >> 1);
    }
  }

  lemma Small()
    ensures N(0) == 0 && N(1) == 1
  {
  }

  lemma Positive(x: bv32)
    requires x != 0
    ensures N(x) > 0
  {
  }

  lemma Bounded(x: bv32)
    ensures N(x) < 0x1_0000_0000
  {
  }

  // ---------- the test for a power of two ----------

  lemma TestHalf(x: bv32)
    requires x != 0
    ensures x & 1 == 1 ==> (x & (x - 1) == 0 <==> x == 1)
    ensures x & 1 == 0 ==> x >> 1 != 0 && (x & (x - 1) == 0 <==> (x >> 1) & ((x >> 1) - 1) == 0)
  {
  }

  lemma OneOrMore(x: bv32)
    requires x & 1 == 1
    ensures x == 1 <==> N(x) == 1
  {
    hide N;
    Half(x);
    Small();
    if x >> 1 == 0 {
      LastBit(x);
    } else {
      Positive(x >> 1);
    }
  }

  // The mask test is right for every word but 0.
  lemma {:induction false} PowerTest(x: bv32)
    requires x != 0
    ensures x & (x - 1) == 0 <==> PowerOfTwo(N(x))
    decreases N(x)
  {
    hide N;
    TestHalf(x);
    Half(x);
    Positive(x);
    Small();
    if x & 1 == 0 {
      PowerTest(x >> 1);
    } else {
      OneOrMore(x);
    }
  }

  // ---------- rounding down by a mask ----------

  function Masked(y: bv32, align: bv32): bv32 {
    y & !(align - 1)
  }

  lemma MaskHalf(y: bv32, align: bv32)
    requires align != 0 && align & 1 == 0
    ensures Masked(y, align) == Masked(y >> 1, align >> 1) << 1 && Masked(y >> 1, align >> 1) < 0x8000_0000
  {
  }

  lemma MaskOne(y: bv32)
    ensures Masked(y, 1) == y
  {
  }

  // For a power of two, the mask takes away the remainder.
  lemma {:induction false} MaskRounds(y: bv32, align: bv32)
    requires align != 0 && PowerOfTwo(N(align))
    ensures N(Masked(y, align)) == N(y) - N(y) % N(align)
    decreases N(align)
  {
    hide N, Masked;
    Half(align);
    Half(y);
    Small();
    if align & 1 == 1 {
      OneOrMore(align);
      MaskOne(y);
    } else {
      LastBit(align);
      Positive(align);
      assert align >> 1 != 0 by {
        EvenHalf(align);
      }
      MaskHalf(y, align);
      MaskRounds(y >> 1, align >> 1);
      TwiceEven(Masked(y >> 1, align >> 1));
      HalfRemainder(N(y), N(align));
    }
  }

  lemma EvenHalf(x: bv32)
    requires x != 0 && x & 1 == 0
    ensures x >> 1 != 0
  {
  }

  lemma HalfRemainder(y: nat, a: nat)
    requires a > 0 && a % 2 == 0
    ensures y - y % a == 2 * (y / 2 - y / 2 % (a / 2))
  {
    var h, q := a / 2, y / 2 / (a / 2);
    var r := y / 2 % h;
    assert y / 2 == q * h + r;
    Swap(q, h);
    DivModUnique(y, q, a, 2 * r + y % 2);
  }

  // ---------- sums ----------

  function Plus(a: bv32, b: bv32): bv32 {
    a + b
  }

  function Next(x: bv32): bv32 {
    x + 1
  }

  function Previous(x: bv32): bv32 {
    x - 1
  }

  lemma NextEven(x: bv32)
    requires x & 1 == 0
    ensures Next(x) == ((x >> 1) << 1) | 1
  {
  }

  lemma NextOdd(x: bv32)
    requires x & 1 == 1 && x != 0xFFFF_FFFF
    ensures Next(x) == Next(x >> 1) << 1 && Next(x >> 1) < 0x8000_0000 && x >> 1 != 0xFFFF_FFFF
  {
  }

  // Adding 1 to any word but the last adds 1 to the number.
  lemma {:induction false} NextIs(x: bv32)
    requires x != 0xFFFF_FFFF
    ensures N(Next(x)) == N(x) + 1
    decreases N(x)
  {
    hide N, Next;
    Half(x);
    LastBit(x);
    if x & 1 == 0 {
      NextEven(x);
      TwiceOdd(x >> 1);
    } else {
      NextOdd(x);
      NextIs(x >> 1);
      TwiceEven(Next(x >> 1));
    }
  }

  lemma LastWord()
    ensures N(0xFFFF_FFFF) == 0xFFFF_FFFF
  {
  }

  lemma MoveOne(a: bv32, b: bv32)
    ensures Plus(a, b) == Plus(a + 1, b - 1)
  {
  }

  lemma MoveStep(a: bv32, b: bv32)
    ensures Plus(a, b) == Plus(Next(a), Previous(b))
  {
    hide Plus;
    MoveOne(a, b);
  }

  lemma PreviousNext(b: bv32)
    requires b != 0
    ensures Next(Previous(b)) == b && Previous(b) != 0xFFFF_FFFF
  {
  }

  lemma PlusNothing(a: bv32)
    ensures Plus(a, 0) == a
  {
  }

  lemma NextLast()
    ensures Next(0xFFFF_FFFF) == 0
  {
  }

  // Sums of words are the sums of the numbers modulo 2^32.
  lemma {:induction false} PlusIs(a: bv32, b: bv32)
    ensures N(Plus(a, b)) == (N(a) + N(b)) % 0x1_0000_0000
    decreases N(b)
  {
    hide N, Plus, Next, Previous;
    Small();
    Bounded(a);
    if b == 0 {
      PlusNothing(a);
    } else {
      MoveStep(a, b);
      PreviousNext(b);
      Positive(b);
      LastWord();
      if a == 0xFFFF_FFFF {
        NextLast();
      } else {
        NextIs(a);
      }
      NextIs(Previous(b));
      PlusIs(Next(a), Previous(b));
    }
  }

  lemma PlusFits(a: bv32, b: bv32)
    requires N(a) + N(b) < 0x1_0000_0000
    ensures N(Plus(a, b)) == N(a) + N(b)
  {
    hide N, Plus;
    PlusIs(a, b);
  }

  // ---------- rounding up ----------

  lemma PowerBelow(align: bv32)
    requires align & (align - 1) == 0
    ensures align < 0x8000_0000 || align == 0x8000_0000
  {
  }

  // A power of two is the top bit at most.
  lemma PowerAtMost(align: bv32)
    requires align & (align - 1) == 0
    ensures N(align) <= 0x8000_0000
  {
    PowerBelow(align);
    if align < 0x8000_0000 {
      hide N;
      TwiceEven(align);
      assert N(align << 1) < 0x1_0000_0000 by { Bounded(align << 1); }
    }
  }

  // For an alignment that passes the mask test, (addr + align - 1) & ~(align - 1) is the sum less its remainder.
  lemma RoundsUp(addr: bv32, align: bv32)
    requires align != 0 && align & (align - 1) == 0 && N(addr) <= 0x8000_0000
    ensures var sum := N(addr) + N(align) - 1;
            N((addr + align - 1) & !(align - 1)) == sum - sum % N(align)
  {
    hide N, Masked, Sum, Plus, Previous, Next;
    PowerTest(align);
    PowerAtMost(align);
    PreviousNext(align);
    MaskOfSum(addr, align);
    SumSplit(addr, align);
    RoundsUpOf(addr, align, Previous(align));
  }

  function Sum(addr: bv32, align: bv32): bv32 {
    addr + align - 1
  }

  lemma SumRaw(addr: bv32, align: bv32)
    ensures Sum(addr, align) == Plus(addr, align - 1)
  {
  }

  lemma SumSplit(addr: bv32, align: bv32)
    ensures Sum(addr, align) == Plus(addr, Previous(align))
  {
    hide Sum, Plus;
    SumRaw(addr, align);
  }

  lemma MaskOfSum(addr: bv32, align: bv32)
    ensures (addr + align - 1) & !(align - 1) == Masked(Sum(addr, align), align)
  {
  }

  lemma RoundsUpOf(addr: bv32, align: bv32, a: bv32)
    requires align != 0 && PowerOfTwo(N(align)) && Next(a) == align && a != 0xFFFF_FFFF
    requires N(addr) <= 0x8000_0000 && N(align) <= 0x8000_0000
    ensures var sum := N(addr) + N(align) - 1;
            N(Masked(Plus(addr, a), align)) == sum - sum % N(align)
  {
    hide N, Masked, Plus, Next;
    NextIs(a);
    PlusFits(addr, a);
    MaskRounds(Plus(addr, a), align);
  }

  // ---------- the bits below a mask, and shifts ----------

  function Rest(y: bv32, align: bv32): bv32 {
    y & (align - 1)
  }

  lemma LessOne(align: bv32)
    requires align != 0 && align & 1 == 0
    ensures align - 1 == (((align >> 1) - 1) << 1) | 1
  {
  }

  lemma AndTwice(y: bv32, h: bv32)
    requires h < 0x8000_0000
    ensures (y >> 1) & h < 0x8000_0000
    ensures y & ((h << 1) | 1) == if y & 1 == 0 then ((y >> 1) & h) << 1 else (((y >> 1) & h) << 1) | 1
  {
  }

  lemma HalfBelow(align: bv32)
    requires align != 0 && align & 1 == 0
    ensures (align >> 1) - 1 < 0x8000_0000
  {
  }

  lemma RestHalf(y: bv32, align: bv32)
    requires align != 0 && align & 1 == 0
    ensures Rest(y >> 1, align >> 1) < 0x8000_0000
    ensures Rest(y, align) == if y & 1 == 0 then Rest(y >> 1, align >> 1) << 1 else (Rest(y >> 1, align >> 1) << 1) | 1
  {
    LessOne(align);
    HalfBelow(align);
    AndTwice(y, (align >> 1) - 1);
  }

  lemma RestOne(y: bv32)
    ensures Rest(y, 1) == 0
  {
  }

  lemma JoinBit(r: bv32, y: bv32, z: bv32)
    requires r < 0x8000_0000 && z == if y & 1 == 0 then r << 1 else (r << 1) | 1
    ensures N(z) == 2 * N(r) + N(y) % 2
  {
    hide N;
    Half(y);
    if y & 1 == 0 {
      TwiceEven(r);
    } else {
      TwiceOdd(r);
    }
  }

  // For a power of two, the bits below the mask are the remainder.
  lemma {:induction false} RestRemains(y: bv32, align: bv32)
    requires align != 0 && PowerOfTwo(N(align))
    ensures N(Rest(y, align)) == N(y) % N(align)
    decreases N(align)
  {
    hide N, Rest;
    Half(align);
    Half(y);
    Small();
    if align & 1 == 1 {
      OneOrMore(align);
      RestOne(y);
    } else {
      LastBit(align);
      Positive(align);
      EvenHalf(align);
      RestHalf(y, align);
      RestRemains(y >> 1, align >> 1);
      JoinBit(Rest(y >> 1, align >> 1), y, Rest(y, align));
      HalfRemainder(N(y), N(align));
    }
  }

  function Halved(x: bv32): bv32 {
    x >> 1
  }

  lemma HalvedIs(x: bv32)
    ensures N(Halved(x)) == N(x) / 2
  {
    hide N;
    Half(x);
  }

  function Down3(x: bv32): bv32 {
    Halved(Halved(Halved(x)))
  }

  function Down6(x: bv32): bv32 {
    Down3(Down3(x))
  }

  function Down12(x: bv32): bv32 {
    Down6(Down6(x))
  }

  lemma ShiftSteps(x: bv32)
    ensures x >> 12 == Down12(x) && x >> 22 == Halved(Down3(Down6(Down12(x))))
  {
  }

  lemma Down3Is(x: bv32)
    ensures N(Down3(x)) == N(x) / 8
  {
    hide N, Halved;
    HalvedIs(x);
    HalvedIs(Halved(x));
    HalvedIs(Halved(Halved(x)));
  }

  lemma Down6Is(x: bv32)
    ensures N(Down6(x)) == N(x) / 64
  {
    hide N, Down3;
    Down3Is(x);
    Down3Is(Down3(x));
  }

  // Shifting down by 12 or by 22 places is dividing.
  lemma ShiftDivides(x: bv32)
    ensures N(x >> 12) == N(x) / 0x1000 && N(x >> 22) == N(x) / 0x40_0000
  {
    ShiftSteps(x);
    hide N, Halved, Down3, Down6;
    var y := Down12(x);
    Down6Is(x);
    Down6Is(Down6(x));
    Down6Is(y);
    Down3Is(Down6(y));
    HalvedIs(Down3(Down6(y)));
  }
}
