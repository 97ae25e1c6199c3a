/** What strtol and atoi make of the parts of a text: blanks, signs, prefixes and digits. */
module Strtol {
  import opened Convert

  // ---------- characters ----------

  // The digits are the codes of '0' to '9', and letters of either case from 10 on.
  lemma DigitCodes(c: char)
    ensures var n := c as int;
            DigitOf(c) == if 48 <= n <= 57 then n - 48
                          else if 65 <= n <= 90 then n - 55
                          else if 97 <= n <= 122 then n - 87 else -1
  {
  }

  // strtol skips tabs, line ends and blanks; atoi skips vertical tabs, form feeds and carriage returns, too.
  lemma SpaceCodes(c: char)
    ensures Space(c, false) <==> c as int in {9, 10, 32}
    ensures Space(c, true) <==> c as int in {9, 10, 11, 12, 13, 32}
  {
  }

  // ---------- the same text further on ----------

  // r is what t is, read n places later.
  predicate Moved(r: Reading, t: Reading, n: nat) {
    r.value == t.value && r.end == t.end + n
  }

  lemma {:induction false} SpaceMoved(p: string, s: string, i: nat, wide: bool)
    requires i <= |s|
    ensures AfterSpace(p + s, |p| + i, wide) == |p| + AfterSpace(s, i, wide)
    decreases |s| - i
  {
    if i == |s| {
    } else {
      assert (p + s)[|p| + i] == s[i];
      SpaceMoved(p, s, i + 1, wide);
    }
  }

  lemma {:induction false} DigitsMoved(p: string, s: string, i: nat, base: int)
    requires i <= |s|
    ensures AfterDigits(p + s, |p| + i, base) == |p| + AfterDigits(s, i, base)
    decreases |s| - i
  {
    hide DigitOf;
    if i == |s| {
    } else {
      assert (p + s)[|p| + i] == s[i];
      DigitsMoved(p, s, i + 1, base);
    }
  }

  lemma ReadMoved(p: string, s: string, i: nat, base: int, neg: bool)
    requires i <= |s|
    ensures Moved(ReadAt(p + s, |p| + i, base, neg), ReadAt(s, i, base, neg), |p|)
  {
    hide AfterDigits, Value, Wrap;
    DigitsMoved(p, s, i, base);
    var end := AfterDigits(s, i, base);
    assert (p + s)[|p| + i..|p| + end] == s[i..end];
  }

  lemma PrefixMoved(p: string, s: string, i: nat, base: int)
    requires i <= |s|
    ensures AfterSign(p + s, |p| + i) == |p| + AfterSign(s, i) && (Minus(p + s, |p| + i) <==> Minus(s, i))
    ensures AfterPrefix(p + s, |p| + i, base) == |p| + AfterPrefix(s, i, base)
    ensures BaseAt(p + s, |p| + i, base) == BaseAt(s, i, base)
  {
    assert forall k | i <= k < |s| :: (p + s)[|p| + k] == s[k];
  }

  // ---------- blanks ----------

  // A leading blank changes nothing but the place.
  lemma BlankSkipped(c: char, s: string, base: int)
    ensures c in " \t\n" ==> Moved(Strtol([c] + s, base), Strtol(s, base), 1)
    ensures c in " \t\n\r\U{000B}\U{000C}" ==> Moved(Atoi([c] + s), Atoi(s), 1)
  {
    hide ReadAt, AfterPrefix, BaseAt, AfterSign, Minus;
    var p := [c];
    assert (p + s)[0] == c;
    SpaceMoved(p, s, 0, false);
    SpaceMoved(p, s, 0, true);
    var i, w := AfterSpace(s, 0, false), AfterSpace(s, 0, true);
    PrefixMoved(p, s, i, base);
    PrefixMoved(p, s, AfterSign(s, i), base);
    ReadMoved(p, s, AfterPrefix(s, AfterSign(s, i), base), BaseAt(s, AfterSign(s, i), base), Minus(s, i));
    PrefixMoved(p, s, w, base);
    ReadMoved(p, s, AfterSign(s, w), 10, Minus(s, w));
  }

  // ---------- signs ----------

  // Neither blank nor sign comes first.
  predicate Bare(s: string) {
    s == "" || (!Space(s[0], true) && s[0] != '-' && s[0] != '+')
  }

  lemma BareStart(s: string, base: int)
    requires Bare(s)
    ensures Strtol(s, base) == ReadAt(s, AfterPrefix(s, 0, base), BaseAt(s, 0, base), false)
    ensures Atoi(s) == ReadAt(s, 0, 10, false)
  {
    hide ReadAt, AfterPrefix, BaseAt;
  }

  lemma SignStart(c: char, s: string, base: int)
    requires Bare(s) && (c == '+' || c == '-')
    ensures Strtol([c] + s, base) == ReadAt([c] + s, AfterPrefix([c] + s, 1, base), BaseAt([c] + s, 1, base), c == '-')
    ensures Atoi([c] + s) == ReadAt([c] + s, 1, 10, c == '-')
  {
    hide ReadAt, AfterPrefix, BaseAt;
  }

  // A plus sign in front changes nothing but the place.
  lemma PlusSkipped(s: string, base: int)
    requires Bare(s)
    ensures Moved(Strtol("+" + s, base), Strtol(s, base), 1) && Moved(Atoi("+" + s), Atoi(s), 1)
  {
    hide Strtol, Atoi, ReadAt, AfterPrefix, BaseAt;
    BareStart(s, base);
    SignStart('+', s, base);
    PrefixMoved("+", s, 0, base);
    ReadMoved("+", s, AfterPrefix(s, 0, base), BaseAt(s, 0, base), false);
    ReadMoved("+", s, 0, 10, false);
  }

  // A minus sign in front negates the value, as 32-bit arithmetic does.
  lemma MinusNegates(s: string, base: int)
    requires Bare(s)
    ensures Strtol("-" + s, base) == Reading(Wrap(-Strtol(s, base).value), Strtol(s, base).end + 1)
    ensures Atoi("-" + s) == Reading(Wrap(-Atoi(s).value), Atoi(s).end + 1)
  {
    hide Strtol, Atoi, ReadAt, AfterPrefix, BaseAt;
    BareStart(s, base);
    SignStart('-', s, base);
    PrefixMoved("-", s, 0, base);
    ReadMoved("-", s, AfterPrefix(s, 0, base), BaseAt(s, 0, base), true);
    ReadMoved("-", s, 0, 10, true);
    Negated(s, AfterPrefix(s, 0, base), BaseAt(s, 0, base));
    Negated(s, 0, 10);
  }

  lemma Negated(s: string, i: nat, base: int)
    requires i <= |s|
    ensures ReadAt(s, i, base, true) == Reading(Wrap(-ReadAt(s, i, base, false).value), ReadAt(s, i, base, false).end)
  {
    hide Wrap, Value, AfterDigits;
    WrapSign(Value(s[i..AfterDigits(s, i, base)], base));
    assert -Wrap(Value(s[i..AfterDigits(s, i, base)], base)) == -1 * Wrap(Value(s[i..AfterDigits(s, i, base)], base));
  }

  // ---------- bases ----------

  // Base 0 stands for 16 behind 0x or 0X, for 8 behind another 0, and for 10 else.
  lemma BaseChosen(s: string)
    requires Bare(s)
    ensures Strtol(s, 0) ==
            if |s| > 1 && s[0] == '0' && s[1] in "xX" then Strtol(s, 16)
            else if s != "" && s[0] == '0' then Strtol(s, 8) else Strtol(s, 10)
  {
    hide ReadAt;
    BareStart(s, 0);
    BareStart(s, 16);
    BareStart(s, 8);
    BareStart(s, 10);
  }

  // Base 16 skips 0x and 0X.
  lemma HexSkipped(c: char, s: string)
    requires c in "xX" && Bare(s) && !HexPrefix(s, 0)
    ensures Moved(Strtol("0" + [c] + s, 16), Strtol(s, 16), 2)
  {
    var p := "0" + [c];
    BareStart(p + s, 16);
    BareStart(s, 16);
    hide Strtol, ReadAt;
    assert HexPrefix(p + s, 0);
    ReadMoved(p, s, 0, 16, false);
  }

  // Any base but 0 and 16 reads its digits from the start on.
  lemma NoPrefix(s: string, base: int)
    requires Bare(s) && base != 0 && base != 16
    ensures Strtol(s, base) == ReadAt(s, 0, base, false)
  {
    hide ReadAt;
    BareStart(s, base);
  }
}
