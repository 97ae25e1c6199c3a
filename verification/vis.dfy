/** The visual encoding of bytes, and when it can be read back. */
module Vis {
  import opened Arith

  datatype Flags = Flags(octal: bool, cstyle: bool, sp: bool, tab: bool, nl: bool, dq: bool, all: bool, noslash: bool)

  const BACKSLASH: octet := 92
  const ZERO: octet := 48
  const INT_MAX := 0x7FFF_FFFF

  predicate Printable(c: octet) {
    32 <= c <= 126
  }

  // ---------- the encoding ----------

  // The escapes with a letter or the byte itself behind the backslash, where the flags allow them.
  function Letter(f: Flags, c: octet): (r: seq<octet>)
    ensures |r| <= 1
  {
    if c == 10 && !f.nl then [110]
    else if c == 13 then [114]
    else if c == 8 then [98]
    else if c == 7 then [97]
    else if c == 11 then [118]
    else if c == 9 && !f.tab then [116]
    else if c == 12 then [102]
    else if c == 32 && f.sp then [115]
    else if c == 34 && f.dq then [34]
    else if c == BACKSLASH then [BACKSLASH]
    else []
  }

  function Octal(c: octet): (r: seq<octet>)
    ensures |r| == 4
  {
    [BACKSLASH, c / 64 % 8 + ZERO, c / 8 % 8 + ZERO, c % 8 + ZERO]
  }

  // The second characters of the table of control names.
  function Control(c: octet): octet
    requires c < 32
  {
    if c == 0 then 94 else 64 + c
  }

  predicate Raw(f: Flags, c: octet) {
    !f.all && Printable(c) && !((f.sp || f.tab || f.nl) && (c == 32 || c == 9 || c == 10))
  }

  // What vis makes of one byte.
  function Encoded(f: Flags, c: octet): (r: seq<octet>)
    ensures 1 <= |r| <= 4
  {
    if !f.noslash && Letter(f, c) != [] then [BACKSLASH] + Letter(f, c)
    else if Raw(f, c) then [c]
    else if f.cstyle && (c < 32 || c == 127) then [BACKSLASH, if c == 127 then 63 else Control(c)]
    else Octal(c)
  }

  function Encode(f: Flags, s: seq<octet>): (r: seq<octet>)
    ensures |r| <= 4 * |s|
  {
    if s == [] then [] else Encode(f, s[..|s| - 1]) + Encoded(f, s[|s| - 1])
  }

  // vis: writes the encoding of one byte at the given place and returns the place behind it.
  method Put(dst: array<octet>, at: nat, f: Flags, c: octet) returns (next: nat)
    requires at + |Encoded(f, c)| <= dst.Length
    modifies dst
    ensures next == at + |Encoded(f, c)| && dst[..next] == old(dst[..at]) + Encoded(f, c)
    ensures dst[next..] == old(dst[next..])
  {
    var letter := Letter(f, c);
    if !f.noslash && |letter| > 0 {
      dst[at] := BACKSLASH;
      dst[at + 1] := letter[0];
      return at + 2;
    }
    if Raw(f, c) {
      dst[at] := c;
      return at + 1;
    }
    dst[at] := BACKSLASH;
    if f.cstyle && (c < 32 || c == 127) {
      dst[at + 1] := if c == 127 then 63 else Control(c);
      return at + 2;
    }
    dst[at + 1] := c / 64 % 8 + ZERO;
    dst[at + 2] := c / 8 % 8 + ZERO;
    dst[at + 3] := c % 8 + ZERO;
    return at + 4;
  }

  // strvisx: the encoding of all bytes, and a byte 0 behind it.
  method Strvisx(dst: array<octet>, src: seq<octet>, f: Flags) returns (n: nat)
    requires |Encode(f, src)| < dst.Length
    modifies dst
    ensures n == |Encode(f, src)| && dst[..n + 1] == Encode(f, src) + [0]
  {
    n := 0;
    for i := 0 to |src|
      invariant n == |Encode(f, src[..i])| <= |Encode(f, src)| && dst[..n] == Encode(f, src[..i])
    {
      hide Encode;
      EncodeNext(f, src, i);
      EncodePart(f, src, i + 1);
      n := Put(dst, n, f, src[i]);
    }
    assert src[..|src|] == src;
    dst[n] := 0;
  }

  // stravis: four bytes for each and one more always suffice.
  // overflow says that the size of the buffer does not fit in an int, which C leaves undefined.
  method Stravis(src: seq<octet>, f: Flags, room: bool) returns (r: int, dst: array?<octet>, overflow: bool)
    ensures overflow <==> 4 * |src| + 1 > INT_MAX
    ensures !overflow ==> r == if room then 0 else -1
    ensures dst == null <==> overflow || !room
    ensures dst != null ==> fresh(dst) && dst.Length == 4 * |src| + 1 &&
                            dst[..|Encode(f, src)| + 1] == Encode(f, src) + [0]
  {
    if |src| * 4 + 1 > INT_MAX {
      return 0, null, true;
    }
    if !room {
      return -1, null, false;
    }
    var data := new octet[|src| * 4 + 1](_ => 0);
    var n := Strvisx(data, src, f);
    return 0, data, false;
  }

  lemma EncodeNone(f: Flags, s: seq<octet>)
    requires s == []
    ensures Encode(f, s) == []
  {
  }

  lemma EncodeNext(f: Flags, s: seq<octet>, i: nat)
    requires i < |s|
    ensures Encode(f, s[..i + 1]) == Encode(f, s[..i]) + Encoded(f, s[i])
  {
    assert s[..i + 1][..i] == s[..i];
  }

  lemma {:induction false} EncodePart(f: Flags, s: seq<octet>, i: nat)
    requires i <= |s|
    ensures |Encode(f, s[..i])| <= |Encode(f, s)|
    decreases |s|
  {
    if i < |s| {
      EncodePart(f, s[..|s| - 1], i);
      assert s[..|s| - 1][..i] == s[..i];
    } else {
      assert s[..i] == s;
    }
  }

  // ---------- reading back ----------

  function Unescape(c: octet): octet {
    match c
    case 110 => 10
    case 114 => 13
    case 98 => 8
    case 97 => 7
    case 118 => 11
    case 116 => 9
    case 102 => 12
    case 115 => 32
    case _ => c
  }

  // A decoder that knows nothing of the flags.
  function Decode(e: seq<octet>): seq<octet> {
    if e == [] then []
    else if e[0] != BACKSLASH || |e| == 1 then [e[0]] + Decode(e[1..])
    else if ZERO <= e[1] < ZERO + 4 && |e| >= 4 && ZERO <= e[2] < ZERO + 8 && ZERO <= e[3] < ZERO + 8 then
      [(e[1] - ZERO) * 64 + (e[2] - ZERO) * 8 + (e[3] - ZERO)] + Decode(e[4..])
    else [Unescape(e[1])] + Decode(e[2..])
  }

  // With these flags every backslash in the encoding starts an escape, and no two escapes are the same.
  predicate Readable(f: Flags) {
    !f.cstyle && (!f.noslash || f.all)
  }

  lemma DecodeFirst(f: Flags, c: octet, rest: seq<octet>)
    requires Readable(f)
    ensures Decode(Encoded(f, c) + rest) == [c] + Decode(rest)
  {
    var e := Encoded(f, c) + rest;
    if !f.noslash && Letter(f, c) != [] {
      assert e[2..] == rest;
    } else if Raw(f, c) {
      assert e[1..] == rest;
    } else {
      assert e[4..] == rest && e[0] == BACKSLASH;
      OctalDigits(c);
    }
  }

  lemma OctalDigits(c: octet)
    ensures c / 64 < 4 && c == c / 64 % 8 * 64 + c / 8 % 8 * 8 + c % 8
  {
  }

  lemma {:induction false} DecodeAll(f: Flags, s: seq<octet>, rest: seq<octet>)
    requires Readable(f)
    ensures Decode(Encode(f, s) + rest) == s + Decode(rest)
  {
    hide Decode, Encoded, Readable;
    if s == [] {
      assert Encode(f, s) + rest == rest && s + Decode(rest) == Decode(rest);
    } else {
      var a, c := s[..|s| - 1], s[|s| - 1];
      assert Encode(f, s) == Encode(f, a) + Encoded(f, c);
      assert Encode(f, s) + rest == Encode(f, a) + (Encoded(f, c) + rest);
      DecodeAll(f, a, Encoded(f, c) + rest);
      DecodeFirst(f, c, rest);
      assert s + Decode(rest) == a + ([c] + Decode(rest));
    }
  }

  lemma ReadBack(f: Flags, s: seq<octet>)
    requires Readable(f)
    ensures Decode(Encode(f, s)) == s
  {
    DecodeAll(f, s, []);
    assert Encode(f, s) + [] == Encode(f, s) && s + Decode([]) == s;
  }

  ghost predicate Injective(f: Flags) {
    forall a, b :: Encode(f, a) == Encode(f, b) ==> a == b
  }

  // The encoding tells all byte strings apart exactly with those flags.
  lemma InjectiveFlags(f: Flags)
    ensures Injective(f) <==> Readable(f)
  {
    if Readable(f) {
      forall a, b | Encode(f, a) == Encode(f, b)
        ensures a == b
      {
        ReadBack(f, a);
        ReadBack(f, b);
      }
    } else if f.cstyle {
      Single(f, 0);
      Single(f, 30);
      var a: seq<octet>, b: seq<octet> := [0], [30];
      assert Encode(f, a) == Encode(f, b) && a[0] != b[0];
    } else {
      Digits(f);
      var a: seq<octet>, b: seq<octet> := [BACKSLASH, 48, 48, 49], [1];
      assert Encode(f, a) == Encode(f, b) && |a| != |b|;
    }
  }

  lemma Single(f: Flags, c: octet)
    ensures Encode(f, [c]) == Encoded(f, c)
  {
    var s: seq<octet> := [c];
    assert s[..0] == [];
  }

  // Without an escape for the backslash, the byte 1 looks like the text of its own escape.
  lemma Digits(f: Flags)
    requires f.noslash && !f.all && !f.cstyle
    ensures Encode(f, [BACKSLASH, 48, 48, 49]) == Encode(f, [1])
  {
    hide Encode;
    var s: seq<octet> := [BACKSLASH, 48, 48, 49];
    EncodeNone(f, s[..0]);
    EncodeNext(f, s, 0);
    EncodeNext(f, s, 1);
    EncodeNext(f, s, 2);
    EncodeNext(f, s, 3);
    Single(f, 1);
    assert s[..4] == s;
  }
}
