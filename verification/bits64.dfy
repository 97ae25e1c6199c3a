/** Single bits of 64-bit words. */
module Bits64 {

  function Value(r: bv7): int {
    r as int
  }

  lemma NextValue(r: bv7)
    requires Value(r) < 63
    ensures r < 63 && Value(r + 1) == Value(r) + 1
  {
  }

  // A bit position as a shift amount.
  function Amount(j: nat): (r: bv7)
    requires j < 64
    ensures r < 64 && Value(r) == j
  {
    if j == 0 then 0
    else
      var r := Amount(j - 1);
      NextValue(r);
      r + 1
  }

  lemma AmountsDiffer(j: nat, k: nat)
    requires j < 64 && k < 64 && j != k
    ensures Amount(j) != Amount(k)
  {
    hide Amount, Value;
  }

  predicate TestAt(w: bv64, k: bv7)
    requires k < 64
  {
    (w >> k) & 1 == 1
  }

  function Or(a: bv64, b: bv64): bv64 {
    a | b
  }

  function And(a: bv64, b: bv64): bv64 {
    a & b
  }

  function Mask(k: bv7): bv64
    requires k < 64
  {
    1 << k
  }

  function NotMask(k: bv7): bv64
    requires k < 64
  {
    !(1 << k)
  }

  function SetAt(w: bv64, k: bv7): bv64
    requires k < 64
  {
    Or(w, Mask(k))
  }

  function ClearAt(w: bv64, k: bv7): bv64
    requires k < 64
  {
    And(w, NotMask(k))
  }

  lemma Masks(j: bv7, k: bv7)
    requires j < 64 && k < 64
    ensures TestAt(Mask(k), j) <==> j == k
    ensures TestAt(NotMask(k), j) <==> j != k
  {
  }

  lemma Spread(a: bv64, b: bv64, j: bv7)
    requires j < 64
    ensures TestAt(a | b, j) <==> TestAt(a, j) || TestAt(b, j)
    ensures TestAt(a & b, j) <==> TestAt(a, j) && TestAt(b, j)
  {
  }

  // A bit of the result is the or, or the and, of the bits.
  lemma OneBit(a: bv64, b: bv64, j: bv7)
    requires j < 64
    ensures TestAt(Or(a, b), j) <==> TestAt(a, j) || TestAt(b, j)
    ensures TestAt(And(a, b), j) <==> TestAt(a, j) && TestAt(b, j)
  {
    hide TestAt;
    Spread(a, b, j);
  }

  lemma SetTest(w: bv64, j: bv7, k: bv7)
    requires j < 64 && k < 64
    ensures TestAt(SetAt(w, k), j) <==> j == k || TestAt(w, j)
    ensures TestAt(ClearAt(w, k), j) <==> j != k && TestAt(w, j)
  {
    hide TestAt, Or, And, Mask, NotMask;
    Masks(j, k);
    OneBit(w, Mask(k), j);
    OneBit(w, NotMask(k), j);
  }

  // ---------- bitmaps ----------

  // Bit i of a bitmap of words.
  predicate Bit(words: seq<bv64>, i: nat)
    requires i / 64 < |words|
  {
    TestAt(words[i / 64], Amount(i % 64))
  }

  // Setting or clearing bit i changes no other bit.
  lemma BitSet(words: seq<bv64>, i: nat, j: nat)
    requires i / 64 < |words| && j / 64 < |words|
    ensures Bit(words[i / 64 := SetAt(words[i / 64], Amount(i % 64))], j) <==> i == j || Bit(words, j)
    ensures Bit(words[i / 64 := ClearAt(words[i / 64], Amount(i % 64))], j) <==> i != j && Bit(words, j)
  {
    hide TestAt, SetAt, ClearAt, Amount;
    if i / 64 == j / 64 {
      SetTest(words[i / 64], Amount(j % 64), Amount(i % 64));
      if i != j {
        AmountsDiffer(i % 64, j % 64);
      }
    }
  }
}
