/** Printing integers in a base and reading them back. */
module Convert {
  import opened Arith
  import opened Seqs

  const INT_MIN := -0x8000_0000
  const INT_MAX := 0x7fff_ffff

  // A 32-bit value, as overflowing arithmetic leaves it.
  function Wrap(x: int): (r: int)
    ensures INT_MIN <= r <= INT_MAX && (INT_MIN <= x <= INT_MAX ==> r == x)
  {
    (x + 0x8000_0000) % 0x1_0000_0000 - 0x8000_0000
  }

  lemma Halved(n: nat, d: nat)
    requires d >= 2 && n > 0
    ensures 0 <= n / d < n && n == n / d * d + n % d
  {
    MulMono(2, d, n / d);
  }

  // Division that rounds toward zero, and its remainder.
  function Quot(n: int, d: nat): (q: int)
    requires d >= 2
    ensures (n > 0 ==> 0 <= q < n) && (n < 0 ==> n < q <= 0) && (n == 0 ==> q == 0)
  {
    if n > 0 then
      Halved(n, d);
      n / d
    else if n < 0 then
      Halved(-n, d);
      -(-n / d)
    else 0
  }

  function Rem(n: int, d: nat): (r: int)
    requires d >= 2
    ensures if n >= 0 then 0 <= r < d else r + d > 0 >= r
  {
    if n >= 0 then n % d else -(-n % d)
  }

  lemma QuotRem(n: int, d: nat)
    requires d >= 2
    ensures n == Quot(n, d) * d + Rem(n, d)
  {
    if n > 0 {
      Halved(n, d);
    } else if n < 0 {
      Halved(-n, d);
      assert -(-n / d * d) == -(-n / d) * d;
    }
  }

  // ---------- itoa ----------

  // The character for a remainder; a negative one gives a character below '0'.
  function DigitChar(rem: int): char
    requires -48 < rem < 36
  {
    if rem > 9 then (rem - 10 + 97) as char else (rem + 48) as char
  }

  // The characters of a number, most significant first; none for 0.
  function Digits(n: int, base: nat): string
    requires 2 <= base <= 36
    decreases if n < 0 then -n else n
  {
    if n == 0 then "" else Digits(Quot(n, base), base) + [DigitChar(Rem(n, base))]
  }

  // What itoa prints.
  function Text(num: int, base: nat): string
    requires 2 <= base <= 36
  {
    if num == 0 then "0"
    else if num < 0 && base == 10 then "-" + Digits(Wrap(-num), base)
    else Digits(num, base)
  }

  method Itoa(num: int, str: array<char>, base: nat)
    requires INT_MIN <= num <= INT_MAX && 2 <= base <= 36 && str.Length > |Text(num, base)|
    modifies str
    ensures str[..|Text(num, base)| + 1] == Text(num, base) + "\0"
    ensures forall k | |Text(num, base)| < k < str.Length :: str[k] == old(str[k])
  {
    hide Digits, Reverse;
    var i := 0;
    var isNegative := false;
    if num == 0 {
      str[0] := '0';
      str[1] := '\0';
      return;
    }
    var n := num;
    if n < 0 && base == 10 {
      isNegative := true;
      n := Wrap(-n);
    }
    SomeDigits(n, base);
    i := PutDigits(n, str, base);
    ghost var digits := str[..i];
    if isNegative {
      str[i] := '-';
      i := i + 1;
      SignLast(digits, str[..i]);
    }
    ghost var text := str[..i];
    str[i] := '\0';
    assert str[..i] == text;
    ReverseFront(str, i);
    assert str[..i + 1] == str[..i] + ['\0'];
  }

  lemma SomeDigits(n: int, base: nat)
    requires n != 0 && 2 <= base <= 36
    ensures |Digits(n, base)| > 0
  {
  }

  lemma SignLast(digits: string, s: string)
    requires |s| == |digits| + 1 && s[..|digits|] == digits && s[|digits|] == '-'
    ensures Reverse(s) == "-" + Reverse(digits)
  {
    hide Reverse;
    assert s == digits + ['-'];
    ReverseAppend(digits, ['-']);
    ReverseOne('-');
  }

  // The digit loop: writes the digits of num, least significant first.
  method PutDigits(num: int, str: array<char>, base: nat) returns (i: nat)
    requires 2 <= base <= 36 && str.Length >= |Digits(num, base)|
    modifies str
    ensures i == |Digits(num, base)| && Reverse(str[..i]) == Digits(num, base)
    ensures forall k | i <= k < str.Length :: str[k] == old(str[k])
  {
    hide DigitChar, Reverse;
    ReverseNone<char>();
    var n := num;
    i := 0;
    while n != 0
      invariant i + |Digits(n, base)| == |Digits(num, base)| && Digits(num, base) == Digits(n, base) + Reverse(str[..i])
      invariant forall k | |Digits(num, base)| <= k < str.Length :: str[k] == old(str[k])
      decreases if n < 0 then -n else n
    {
      ghost var before := str[..i];
      var rem := Rem(n, base);
      str[i] := DigitChar(rem);
      assert str[..i + 1] == before + [DigitChar(rem)];
      ReverseAppend(before, [DigitChar(rem)]);
      ReverseOne(DigitChar(rem));
      i := i + 1;
      n := Quot(n, base);
    }
  }

  // The loop at the end of itoa: turns the first n characters around.
  method ReverseFront(str: array<char>, n: nat)
    requires 0 < n <= str.Length
    modifies str
    ensures str[..n] == Reverse(old(str[..n])) && forall k | n <= k < str.Length :: str[k] == old(str[k])
  {
    var start, end := 0, n - 1;
    ghost var was := str[..];
    while start < end
      invariant 0 <= start <= end + 1 && start + end == n - 1
      invariant forall k | 0 <= k < start :: str[k] == was[n - 1 - k] && str[n - 1 - k] == was[k]
      invariant forall k | start <= k <= end :: str[k] == was[k]
      invariant forall k | n <= k < str.Length :: str[k] == was[k]
    {
      var temp := str[start];
      str[start] := str[end];
      str[end] := temp;
      start := start + 1;
      end := end - 1;
    }
    Turned(was, str[..], n, start);
    assert str[..][..n] == str[..n] && was[..n] == old(str[..n]);
  }

  lemma Turned(was: string, s: string, n: nat, start: nat)
    requires n <= |s| == |was| && n - 1 <= 2 * start <= n
    requires forall k | 0 <= k < start :: s[k] == was[n - 1 - k] && s[n - 1 - k] == was[k]
    requires forall k | start <= k < n - start :: s[k] == was[k]
    ensures s[..n] == Reverse(was[..n])
  {
    forall k | 0 <= k < n
      ensures s[k] == was[n - 1 - k]
    {
      assert k >= n - start ==> s[n - 1 - (n - 1 - k)] == was[n - 1 - k];
    }
  }

  // ---------- strtol and atoi ----------

  // The white space that strtol skips, and the rest that only atoi skips.
  predicate Space(c: char, wide: bool) {
    c == ' ' || c == '\t' || c == '\n' || (wide && (c == '\r' || c == '\U{000C}' || c == '\U{000B}'))
  }

  // The value of a digit in any base up to 36, or -1.
  function DigitOf(c: char): int {
    if '0' <= c <= '9' then c as int - '0' as int
    else if 'a' <= c <= 'z' then c as int - 'a' as int + 10
    else if 'A' <= c <= 'Z' then c as int - 'A' as int + 10
    else -1
  }

  // The first place from i on without white space.
  function AfterSpace(s: string, i: nat, wide: bool): (r: nat)
    requires i <= |s|
    ensures i <= r <= |s|
    decreases |s| - i
  {
    if i < |s| && Space(s[i], wide) then AfterSpace(s, i + 1, wide) else i
  }

  // The first place from i on without a digit of the base.
  function AfterDigits(s: string, i: nat, base: int): (r: nat)
    requires i <= |s|
    ensures i <= r <= |s| && (forall k | i <= k < r :: 0 <= DigitOf(s[k]) < base)
    decreases |s| - i
  {
    if i < |s| && 0 <= DigitOf(s[i]) < base then AfterDigits(s, i + 1, base) else i
  }

  // The number that digits stand for.
  function Value(digits: string, base: int): int {
    if digits == [] then 0 else Value(digits[..|digits| - 1], base) * base + DigitOf(digits[|digits| - 1])
  }

  // A sign at place i, and the place behind it.
  predicate Minus(s: string, i: nat) {
    i < |s| && s[i] == '-'
  }

  function AfterSign(s: string, i: nat): (r: nat)
    requires i <= |s|
    ensures i <= r <= |s|
  {
    if i < |s| && (s[i] == '-' || s[i] == '+') then i + 1 else i
  }

  predicate HexPrefix(s: string, i: nat) {
    i + 1 < |s| && s[i] == '0' && (s[i + 1] == 'x' || s[i + 1] == 'X')
  }

  // The base that the digits from i on are in, once base 0 is resolved.
  function BaseAt(s: string, i: nat, base: int): int {
    if base != 0 then base else if HexPrefix(s, i) then 16 else if i < |s| && s[i] == '0' then 8 else 10
  }

  function AfterPrefix(s: string, i: nat, base: int): (r: nat)
    requires i <= |s|
    ensures i <= r <= |s|
  {
    if (base == 0 || base == 16) && HexPrefix(s, i) then i + 2 else i
  }

  // Reading digits from place i on; neg is the sign. The value overflows as 32-bit arithmetic does.
  datatype Reading = Reading(value: int, end: nat)

  function ReadAt(s: string, i: nat, base: int, neg: bool): Reading
    requires i <= |s|
  {
    var end := AfterDigits(s, i, base);
    var v := Value(s[i..end], base);
    Reading(Wrap(if neg then -v else v), end)
  }

  // What strtol reads.
  function Strtol(s: string, base: int): Reading {
    var i := AfterSpace(s, 0, false);
    var j := AfterSign(s, i);
    ReadAt(s, AfterPrefix(s, j, base), BaseAt(s, j, base), Minus(s, i))
  }

  // What atoi reads.
  function Atoi(s: string): Reading {
    var i := AfterSpace(s, 0, true);
    ReadAt(s, AfterSign(s, i), 10, Minus(s, i))
  }

  // Wrapping early or late comes to the same.
  lemma WrapShift(x: int, m: int)
    ensures Wrap(x + 0x1_0000_0000 * m) == Wrap(x)
  {
    var y := x + 0x8000_0000;
    assert y == y / 0x1_0000_0000 * 0x1_0000_0000 + y % 0x1_0000_0000;
    DivModUnique(y + 0x1_0000_0000 * m, y / 0x1_0000_0000 + m, 0x1_0000_0000, y % 0x1_0000_0000);
  }

  lemma WrapTimes(v: int, b: int, d: int)
    ensures Wrap(Wrap(v) * b + d) == Wrap(v * b + d)
  {
    var m := (v + 0x8000_0000) / 0x1_0000_0000;
    assert Wrap(v) == v - 0x1_0000_0000 * m;
    Spread(v, m, b);
    WrapShift(v * b + d, -(m * b));
  }

  lemma WrapSign(v: int)
    ensures Wrap(-1 * Wrap(v)) == Wrap(-v) && Wrap(1 * Wrap(v)) == Wrap(v)
  {
    WrapTimes(v, -1, 0);
  }

  lemma Spread(v: int, m: int, b: int)
    ensures (v - 0x1_0000_0000 * m) * b == v * b - 0x1_0000_0000 * (m * b)
  {
  }

  method SkipSpace(s: string, wide: bool) returns (p: nat)
    ensures p == AfterSpace(s, 0, wide)
  {
    p := 0;
    while p < |s| && Space(s[p], wide)
      invariant p <= |s| && AfterSpace(s, 0, wide) == AfterSpace(s, p, wide)
    {
      p := p + 1;
    }
  }

  lemma NoDigits(s: string, start: nat, base: int)
    requires start <= |s|
    ensures Wrap(Value(s[start..start], base)) == 0
  {
  }

  lemma NextDigit(s: string, start: nat, p: nat, base: int)
    requires start <= p < |s|
    ensures Wrap(Wrap(Value(s[start..p], base)) * base + DigitOf(s[p])) == Wrap(Value(s[start..p + 1], base))
  {
    hide Wrap, DigitOf;
    WrapTimes(Value(s[start..p], base), base, DigitOf(s[p]));
    assert s[start..p + 1][..p - start] == s[start..p];
  }

  // The digit loop of strtol, and of atoi in base 10.
  method ReadDigits(s: string, start: nat, base: int) returns (result: int, p: nat)
    requires start <= |s|
    ensures p == AfterDigits(s, start, base) && result == Wrap(Value(s[start..p], base))
  {
    hide Value, Wrap, DigitOf;
    result, p := 0, start;
    NoDigits(s, start, base);
    while p < |s|
      invariant start <= p <= |s| && AfterDigits(s, start, base) == AfterDigits(s, p, base)
      invariant result == Wrap(Value(s[start..p], base))
    {
      var digit := DigitOf(s[p]);
      if digit < 0 {
        break;
      }
      if digit >= base {
        break;
      }
      NextDigit(s, start, p, base);
      result := Wrap(result * base + digit);
      p := p + 1;
    }
  }

  method ReadLong(str: string, base: int) returns (value: int, end: nat)
    ensures Reading(value, end) == Strtol(str, base)
  {
    hide Value, Wrap, AfterDigits, AfterSpace, DigitOf;
    var p := SkipSpace(str, false);
    var sign := 1;
    if p < |str| && str[p] == '-' {
      sign := -1;
      p := p + 1;
    } else if p < |str| && str[p] == '+' {
      p := p + 1;
    }
    var b := base;
    if b == 0 {
      if p < |str| && str[p] == '0' {
        if p + 1 < |str| && (str[p + 1] == 'x' || str[p + 1] == 'X') {
          b := 16;
          p := p + 2;
        } else {
          b := 8;
        }
      } else {
        b := 10;
      }
    } else if b == 16 && HexPrefix(str, p) {
      p := p + 2;
    }
    var result;
    ghost var start := p;
    result, end := ReadDigits(str, p, b);
    WrapSign(Value(str[start..end], b));
    value := Wrap(sign * result);
  }

  method ReadInt(str: string) returns (value: int)
    ensures value == Atoi(str).value
  {
    var i := SkipSpace(str, true);
    var sign := 1;
    if i < |str| && str[i] == '-' {
      sign := -1;
      i := i + 1;
    } else if i < |str| && str[i] == '+' {
      i := i + 1;
    }
    var result, end := ReadDigits(str, i, 10);
    WrapSign(Value(str[i..end], 10));
    value := Wrap(sign * result);
  }

  // ---------- reading back what was printed ----------

  lemma {:induction false} DigitsRead(n: int, base: nat)
    requires n > 0 && 2 <= base <= 36
    ensures Value(Digits(n, base), base) == n && Digits(n, base) != [] && Digits(n, base)[0] != '0'
    ensures forall k | 0 <= k < |Digits(n, base)| :: 0 <= DigitOf(Digits(n, base)[k]) < base
    decreases n
  {
    QuotRem(n, base);
    var q := Quot(n, base);
    var t := Digits(n, base);
    assert t[..|t| - 1] == Digits(q, base);
    assert DigitOf(DigitChar(Rem(n, base))) == Rem(n, base);
    if q > 0 {
      DigitsRead(q, base);
      assert t[0] == Digits(q, base)[0];
    } else {
      assert t == [DigitChar(n)];
    }
  }

  // Digits above 9 are printed as lower-case letters.
  lemma {:induction false} DigitsLower(n: int, base: nat)
    requires n >= 0 && 2 <= base <= 36
    ensures forall k | 0 <= k < |Digits(n, base)| ::
              '0' <= Digits(n, base)[k] <= '9' || 'a' <= Digits(n, base)[k] <= 'z'
    decreases n
  {
    if n == 0 {
    } else {
      DigitsLower(Quot(n, base), base);
    }
  }

  // The text of a negative number has, for each digit of its amount, the character that lies as far below '0'.
  lemma {:induction false} DigitsMirrored(n: int, base: nat)
    requires n >= 0 && 2 <= base <= 36
    ensures |Digits(-n, base)| == |Digits(n, base)|
    ensures forall k | 0 <= k < |Digits(n, base)| ::
              Digits(-n, base)[k] as int == '0' as int - DigitOf(Digits(n, base)[k])
    decreases n
  {
    if n == 0 {
    } else {
      DigitsMirrored(Quot(n, base), base);
      assert Quot(-n, base) == -Quot(n, base) && Rem(-n, base) == -Rem(n, base);
      DigitCode(Rem(n, base));
    }
  }

  lemma DigitCode(d: int)
    requires 0 <= d < 36
    ensures DigitOf(DigitChar(d)) == d && DigitChar(-d) as int == '0' as int - d
  {
  }

  // The characters of a negative number are '0' or below.
  lemma {:induction false} LowDigits(n: int, base: nat)
    requires n <= 0 && 2 <= base <= 36
    ensures forall k | 0 <= k < |Digits(n, base)| :: Digits(n, base)[k] <= '0'
    decreases -n
  {
    if n >= 0 {
    } else {
      LowDigits(Quot(n, base), base);
    }
  }

  lemma {:induction false} AllDigits(s: string, i: nat, base: int)
    requires i <= |s| && forall k | i <= k < |s| :: 0 <= DigitOf(s[k]) < base
    ensures AfterDigits(s, i, base) == |s|
    decreases |s| - i
  {
    if i == |s| {
    } else {
      AllDigits(s, i + 1, base);
    }
  }

  lemma {:induction false} ZeroValue(s: string, base: int)
    requires forall k | 0 <= k < |s| :: DigitOf(s[k]) == 0
    ensures Value(s, base) == 0
  {
    if s == [] {
    } else {
      ZeroValue(s[..|s| - 1], base);
    }
  }

  // A text without a digit other than 0 reads as 0.
  lemma LowReads(s: string, base: int)
    requires forall k | 0 <= k < |s| :: s[k] <= '0'
    ensures Strtol(s, base).value == 0 && Atoi(s).value == 0
  {
    var i := AfterSpace(s, 0, false);
    var j := AfterSign(s, i);
    LowReadsAt(s, AfterPrefix(s, j, base), BaseAt(s, j, base), Minus(s, i));
    var w := AfterSpace(s, 0, true);
    LowReadsAt(s, AfterSign(s, w), 10, Minus(s, w));
  }

  lemma LowReadsAt(s: string, i: nat, base: int, neg: bool)
    requires i <= |s| && forall k | 0 <= k < |s| :: s[k] <= '0'
    ensures ReadAt(s, i, base, neg).value == 0
  {
    var end := AfterDigits(s, i, base);
    forall k | 0 <= k < |s[i..end]|
      ensures DigitOf(s[i..end][k]) == 0
    {
      assert s[i..end][k] == s[i + k] && 0 <= DigitOf(s[i + k]);
    }
    ZeroValue(s[i..end], base);
  }

  // Where reading starts in digits after a minus sign or not.
  lemma PlainStart(s: string, neg: bool, base: nat, wide: bool)
    requires 2 <= base <= 36
    requires if neg then |s| > 1 && s[0] == '-' && 0 < DigitOf(s[1]) else s != [] && 0 < DigitOf(s[0])
    ensures AfterSpace(s, 0, wide) == 0 && Minus(s, 0) == neg && AfterSign(s, 0) == if neg then 1 else 0
    ensures var i := AfterSign(s, 0); AfterPrefix(s, i, base) == i && BaseAt(s, i, base) == base
  {
  }

  lemma PlainAt(s: string, i: nat, base: int, neg: bool, n: int)
    requires i <= |s| && (forall k | i <= k < |s| :: 0 <= DigitOf(s[k]) < base) && Value(s[i..], base) == n &&
      0 < n <= INT_MAX
    ensures ReadAt(s, i, base, neg) == Reading(if neg then -n else n, |s|)
  {
    hide Value, DigitOf;
    AllDigits(s, i, base);
    assert s[i..|s|] == s[i..];
  }

  // A text of digits, after a sign or not, reads as their value.
  lemma PlainReads(s: string, base: nat, neg: bool, n: int)
    requires 2 <= base <= 36 && 0 < n <= INT_MAX && s == (if neg then "-" else "") + Digits(n, base)
    ensures Strtol(s, base) == Reading(if neg then -n else n, |s|)
    ensures base == 10 ==> Atoi(s) == Reading(if neg then -n else n, |s|)
  {
    hide Value, Digits, Wrap, ReadAt, AfterSpace, AfterPrefix, BaseAt;
    var d := Digits(n, base);
    DigitsRead(n, base);
    var i := if neg then 1 else 0;
    assert s[i..] == d && s[i] == d[0];
    assert forall k | i <= k < |s| :: s[k] == d[k - i];
    PlainStart(s, neg, base, false);
    PlainStart(s, neg, base, true);
    PlainAt(s, i, base, neg, n);
  }

  lemma ZeroReads(base: nat)
    requires 2 <= base <= 36
    ensures Strtol("0", base) == Reading(0, 1) && Atoi("0") == Reading(0, 1)
  {
    AllDigits("0", 0, base);
    AllDigits("0", 0, 10);
    assert "0"[0..1] == "0";
    ZeroValue("0", base);
    ZeroValue("0", 10);
  }

  lemma TextIs(num: int, base: nat)
    requires 2 <= base <= 36
    ensures num == 0 ==> Text(num, base) == "0"
    ensures num > 0 ==> Text(num, base) == "" + Digits(num, base)
    ensures num < 0 ==> Text(num, base) == if base == 10 then "-" + Digits(Wrap(-num), base) else Digits(num, base)
    ensures INT_MIN < num < 0 ==> Wrap(-num) == -num
    ensures Wrap(-INT_MIN) == INT_MIN
  {
    hide Digits;
  }

  // strtol reads back what itoa printed, to the end, exactly for the numbers that are not negative and, in base 10,
  // for the negative ones but the least.
  lemma ReadsBack(num: int, base: nat)
    requires INT_MIN <= num <= INT_MAX && 2 <= base <= 36
    ensures Strtol(Text(num, base), base) == Reading(num, |Text(num, base)|)
            <==> num >= 0 || (base == 10 && num > INT_MIN)
    ensures base == 10 ==> (Atoi(Text(num, base)).value == num <==> num > INT_MIN)
  {
    hide Strtol, Atoi, Digits, Text, Wrap, Value;
    var t := Text(num, base);
    TextIs(num, base);
    if num == 0 {
      ZeroReads(base);
    } else if num > 0 {
      PlainReads(t, base, false, num);
    } else if base == 10 && num > INT_MIN {
      PlainReads(t, base, true, -num);
    } else {
      LowDigits(if base == 10 then Wrap(-num) else num, base);
      LowReads(t, base);
    }
  }
}
