/** The rand command: bounded numbers drawn by rejection from the generator. */
module Rand {
  import opened Lcg
  import Arith

  // ---------- what the generator visits ----------

  lemma Apart(x: nat, i: nat, j: nat)
    requires x < M && i < j < i + M
    ensures Iter(x, i) != Iter(x, j)
  {
    IterAdd(x, i, j - i);
    Period(Iter(x, i), j - i);
    SmallMod(j - i);
  }

  lemma SmallMod(d: nat)
    requires d < M
    ensures d % M == d
  {
  }

  // The numbers drawn at the given draws.
  ghost function Drawn(x: nat, draws: set<nat>): set<nat> {
    set i | i in draws :: Iter(x, i)
  }

  // Different draws of one cycle give different numbers.
  lemma {:induction false} DrawnSize(x: nat, draws: set<nat>)
    requires x < M && forall i | i in draws :: 1 <= i <= M
    ensures |Drawn(x, draws)| == |draws|
    decreases draws
  {
    if draws == {} {
    } else {
      var i :| i in draws;
      var rest := draws - {i};
      DrawnSize(x, rest);
      assert Iter(x, i) !in Drawn(x, rest) by {
        forall j | j in rest
          ensures Iter(x, j) != Iter(x, i)
        {
          if i < j {
            Apart(x, i, j);
          } else {
            Apart(x, j, i);
          }
        }
      }
      assert Drawn(x, draws) == Drawn(x, rest) + {Iter(x, i)};
    }
  }

  function Upto(n: nat): (s: set<nat>)
    ensures forall v | v in s :: v < n
    ensures forall v: nat {:trigger v in s} | v < n :: v in s
  {
    if n == 0 then {} else Upto(n - 1) + {n - 1}
  }

  function Cycle(n: nat): (s: set<nat>)
    ensures forall i | i in s :: 1 <= i <= n
    ensures forall i: nat {:trigger i in s} | 1 <= i <= n :: i in s
  {
    if n == 0 then {} else Cycle(n - 1) + {n}
  }

  lemma {:induction false} UptoSize(n: nat)
    ensures |Upto(n)| == n
  {
    if n == 0 {
    } else {
      UptoSize(n - 1);
    }
  }

  lemma {:induction false} CycleSize(n: nat)
    ensures |Cycle(n)| == n
  {
    if n == 0 {
    } else {
      CycleSize(n - 1);
    }
  }

  lemma {:induction false} SameSize<T>(a: set<T>, b: set<T>)
    requires a <= b && |a| == |b|
    ensures a == b
  {
    assert b == a + (b - a);
  }

  // Within one cycle every number is drawn, exactly once.
  lemma Visits(x: nat, v: nat) returns (i: nat)
    requires x < M && v < M
    ensures 1 <= i <= M && Iter(x, i) == v
    ensures forall j | 1 <= j <= M && Iter(x, j) == v :: j == i
  {
    UptoSize(M);
    CycleSize(M);
    DrawnSize(x, Cycle(M));
    SameSize(Drawn(x, Cycle(M)), Upto(M));
    assert v in Drawn(x, Cycle(M));
    i :| i in Cycle(M) && Iter(x, i) == v;
    forall j | 1 <= j <= M && Iter(x, j) == v
      ensures j == i
    {
      if i < j {
        Apart(x, i, j);
      } else if j < i {
        Apart(x, j, i);
      }
    }
  }

  // ---------- no bias ----------

  function MaxAllowed(range: nat): nat
    requires range > 0
  {
    (M - 1) / range * range
  }

  // The draws of one cycle that are accepted and yield r.
  ghost function Yielding(x: nat, range: nat, r: nat): set<nat>
    requires range > 0
  {
    set i | i in Cycle(M) && Iter(x, i) < MaxAllowed(range) && Iter(x, i) % range == r
  }

  // The numbers below max that are r modulo range.
  ghost function Residues(range: nat, r: nat, max: nat): set<nat>
    requires range > 0
  {
    set v | v in Upto(max) && v % range == r
  }

  lemma {:induction false} ResiduesSize(range: nat, r: nat, q: nat)
    requires r < range
    ensures |Residues(range, r, q * range)| == q
  {
    if q == 0 {
    } else {
      ResiduesSize(range, r, q - 1);
      Arith.MulNext(q - 1, range);
      ResiduesNext(range, r, q - 1, (q - 1) * range);
    }
  }

  lemma ResiduesNext(range: nat, r: nat, q: nat, lo: nat)
    requires r < range && lo == q * range
    ensures |Residues(range, r, lo + range)| == |Residues(range, r, lo)| + 1
  {
    forall v: nat | lo <= v < lo + range
      ensures v % range == v - lo
    {
      Remainder(v, q, range);
    }
    assert Residues(range, r, lo + range) == Residues(range, r, lo) + {lo + r};
  }

  lemma Remainder(v: nat, q: nat, range: nat)
    requires range > 0 && q * range <= v < q * range + range
    ensures v % range == v - q * range
  {
    var d := v / range;
    assert v == d * range + v % range;
    assert d < q ==> (d + 1) * range <= q * range;
    assert d > q ==> (q + 1) * range <= d * range;
  }

  // Over one cycle, from any seed, every result is accepted equally often.
  lemma Unbiased(x: nat, range: nat, r: nat)
    requires x < M && 0 < range < M && r < range
    ensures |Yielding(x, range, r)| == (M - 1) / range
  {
    var draws := Yielding(x, range, r);
    DrawnSize(x, draws);
    ResiduesSize(range, r, (M - 1) / range);
    YieldingDraws(x, range, r);
  }

  lemma YieldingDraws(x: nat, range: nat, r: nat)
    requires x < M && 0 < range < M && r < range
    ensures Drawn(x, Yielding(x, range, r)) == Residues(range, r, MaxAllowed(range))
  {
    var draws, values := Yielding(x, range, r), Residues(range, r, MaxAllowed(range));
    MaxAllowedBelow(range);
    forall v | v in values
      ensures v in Drawn(x, draws)
    {
      var i := Visits(x, v);
      assert i in draws;
    }
  }

  lemma MaxAllowedBelow(range: nat)
    requires range > 0
    ensures MaxAllowed(range) < M
  {
    assert M - 1 == (M - 1) / range * range + (M - 1) % range;
  }

  // ---------- the command ----------

  predicate AllDigits(s: string) {
    forall i | 0 <= i < |s| :: '0' <= s[i] <= '9'
  }

  // The number a string of digits stands for.
  function Value(s: string): nat {
    if s == [] then 0
    else 10 * Value(s[..|s| - 1]) + (if '0' <= s[|s| - 1] <= '9' then (s[|s| - 1] - '0') as nat else 0)
  }

  datatype Option<T> = None | Some(value: T)

  // What parse_uint32 makes of a string: the overflow test looks at the number before the last digit only.
  function Parsed(s: string): Option<nat> {
    if s == [] then Some(0)
    else
      var front, c := Parsed(s[..|s| - 1]), s[|s| - 1];
      if front.None? || c < '0' || c > '9' || front.value > 0xFFFFFFFF / 10 then None
      else Some((front.value * 10 + (c - '0') as nat) % M)
  }

  // The parser is right about a string exactly when it is a number of 32 bits.
  lemma {:induction false} ParsedValue(s: string)
    ensures Parsed(s) == Some(Value(s)) <==> AllDigits(s) && Value(s) < M
    ensures Parsed(s).Some? ==> AllDigits(s) && Parsed(s).value < M
  {
    if s == [] {
    } else {
      var f := s[..|s| - 1];
      ParsedValue(f);
      assert AllDigits(s) <==> AllDigits(f) && '0' <= s[|s| - 1] <= '9';
    }
  }

  lemma {:induction false} ParsedNone(s: string, i: nat)
    requires i <= |s| && Parsed(s[..i]).None?
    ensures Parsed(s).None?
    decreases |s|
  {
    if i < |s| {
      assert s[..|s| - 1][..i] == s[..i];
      ParsedNone(s[..|s| - 1], i);
    } else {
      assert s[..i] == s;
    }
  }

  // 2^32 is taken for 0.
  lemma ParsedWraps()
    ensures AllDigits("4294967296") && Value("4294967296") == M && Parsed("4294967296") == Some(0)
  {
    var s := "4294967296";
    assert s[..0] == "" && s[..10] == s;
    assert s[..1][..0] == s[..0] && Value(s[..1]) == 4;
    assert s[..2][..1] == s[..1] && Value(s[..2]) == 42;
    assert s[..3][..2] == s[..2] && Value(s[..3]) == 429;
    assert s[..4][..3] == s[..3] && Value(s[..4]) == 4294;
    assert s[..5][..4] == s[..4] && Value(s[..5]) == 42949;
    assert s[..6][..5] == s[..5] && Value(s[..6]) == 429496;
    assert s[..7][..6] == s[..6] && Value(s[..7]) == 4294967;
    assert s[..8][..7] == s[..7] && Value(s[..8]) == 42949672;
    assert s[..9][..8] == s[..8] && Value(s[..9]) == 429496729;
    ParsedValue(s[..9]);
    assert s[..10][..9] == s[..9] && Value(s[..10]) == 4294967296;
  }

  datatype Outcome =
    | Printed(number: nat)
    | NotANumber
    | BoundTooSmall
    | DivisionByZero

  class Generator {
    var seed: nat

    constructor ()
      ensures seed == 12345
    {
      seed := 12345;
    }

    method Next() returns (r: nat)
      requires seed < M
      modifies this
      ensures r == seed == Step(old(seed)) < M
    {
      seed := (1664525 * seed + 1013904223) % M;
      r := seed;
    }

    // Draws until a number is accepted, which happens within one cycle.
    method Bounded(upperBound: nat) returns (r: nat, ghost draws: nat)
      requires seed < M && 1 <= upperBound <= M - 2
      modifies this
      ensures 1 <= draws <= M && seed == Iter(old(seed), draws)
      ensures seed < MaxAllowed(upperBound + 1) && r == seed % (upperBound + 1) <= upperBound
      ensures forall i | 1 <= i < draws :: Iter(old(seed), i) >= MaxAllowed(upperBound + 1)
    {
      var range := upperBound + 1;
      var maxAllowed := 0xFFFFFFFF / range * range;
      assert maxAllowed >= range by {
        assert 0xFFFFFFFF / range >= 1;
      }
      ghost var hit := Visits(seed, 0);
      var randomNumber := Next();
      draws := 1;
      while randomNumber >= maxAllowed
        invariant seed < M && 1 <= draws <= hit && seed == randomNumber == Iter(old(seed), draws)
        invariant forall i | 1 <= i < draws :: Iter(old(seed), i) >= maxAllowed
        decreases hit - draws
      {
        randomNumber := Next();
        draws := draws + 1;
      }
      r := randomNumber % range;
    }

    // parse_uint32.
    static method Parse(str: string) returns (ok: bool, result: nat)
      ensures Parsed(str) == if ok then Some(result) else None
    {
      result := 0;
      for i := 0 to |str|
        invariant Parsed(str[..i]) == Some(result)
      {
        assert str[..i + 1][..i] == str[..i];
        if str[i] < '0' || str[i] > '9' {
          ParsedNone(str, i + 1);
          return false, result;
        }
        if result > 0xFFFFFFFF / 10 {
          ParsedNone(str, i + 1);
          return false, result;
        }
        result := (result * 10 + (str[i] - '0') as nat) % M;
      }
      assert str[..|str|] == str;
      ok := true;
    }

    // The command with its arguments, of which the first is the name of the command.
    method Run(args: seq<string>) returns (o: Outcome, ghost draws: nat)
      requires seed < M && |args| >= 1
      modifies this
      ensures seed < M
      ensures |args| == 1 ==> o == Printed(seed) && seed == Step(old(seed))
      ensures |args| > 1 && Parsed(args[1]).None? ==> o == NotANumber
      ensures |args| > 1 && Parsed(args[1]) == Some(0) ==> o == BoundTooSmall
      ensures |args| > 1 && Parsed(args[1]) == Some(M - 1) ==> o == DivisionByZero
      ensures |args| > 1 && Parsed(args[1]).Some? && 0 < Parsed(args[1]).value < M - 1 ==>
        var range := Parsed(args[1]).value + 1;
        && o == Printed(seed % range) && 1 <= draws <= M && seed == Iter(old(seed), draws) && seed < MaxAllowed(range)
        && forall i | 1 <= i < draws :: Iter(old(seed), i) >= MaxAllowed(range)
      ensures o.Printed? || seed == old(seed)
    {
      draws := 0;
      if |args| == 1 {
        var r := Next();
        return Printed(r), 1;
      }
      var ok, upperBound := Parse(args[1]);
      ParsedValue(args[1]);
      if !ok {
        return NotANumber, draws;
      }
      if upperBound == 0 {
        return BoundTooSmall, draws;
      }
      // In 32 bits the range of the largest bound is 0.
      if (upperBound + 1) % M == 0 {
        return DivisionByZero, draws;
      }
      var r;
      r, draws := Bounded(upperBound);
      o := Printed(r);
    }
  }
}
