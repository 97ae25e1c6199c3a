/** The RC4 stream cipher on its context. */
module Arc4 {
  import opened Arith
  import opened Seqs

  const STATE := 256

  // A context as a value.
  datatype Rc4 = Rc4(s: seq<octet>, x: octet, y: octet)

  // Every value from 0 to 255 stands in the state exactly once.
  ghost predicate Permutation(s: seq<octet>) {
    |s| == STATE && (forall i, j | 0 <= i < j < STATE :: s[i] != s[j]) && forall v: octet :: v in s
  }

  lemma PermutationSize(s: seq<octet>)
    requires Permutation(s)
    ensures |s| == STATE
  {
  }

  lemma SwapPermutes(s: seq<octet>, i: nat, j: nat)
    requires Permutation(s) && i < STATE && j < STATE
    ensures Permutation(Swapped(s, i, j))
  {
    var r := Swapped(s, i, j);
    forall v: octet
      ensures v in r
    {
      assert v in s;
      var k :| 0 <= k < STATE && s[k] == v;
      assert r[if k == i then j else if k == j then i else k] == v;
    }
  }

  // ---------- the key stream ----------

  function Step(c: Rc4): (r: Rc4)
    requires |c.s| == STATE
    ensures |r.s| == STATE
  {
    var x := (c.x + 1) % STATE;
    var y := (c.s[x] + c.y) % STATE;
    Rc4(Swapped(c.s, x, y), x, y)
  }

  // The byte that a context gives after a step.
  function Output(c: Rc4): octet
    requires |c.s| == STATE
  {
    c.s[(c.s[c.x] + c.s[c.y]) % STATE]
  }

  function After(c: Rc4, n: nat): (r: Rc4)
    requires |c.s| == STATE
    ensures |r.s| == STATE
  {
    if n == 0 then c else Step(After(c, n - 1))
  }

  // The first n bytes of the key stream.
  function Stream(c: Rc4, n: nat): (r: seq<octet>)
    requires |c.s| == STATE
    ensures |r| == n
  {
    if n == 0 then [] else Stream(c, n - 1) + [Output(After(c, n))]
  }

  // Taking the stream in two parts is taking it at once.
  lemma {:induction false} StreamSplit(c: Rc4, m: nat, n: nat)
    requires |c.s| == STATE
    ensures After(c, m + n) == After(After(c, m), n)
    ensures Stream(c, m + n) == Stream(c, m) + Stream(After(c, m), n)
  {
    hide Step, Output;
    if n == 0 {
      assert Stream(c, m) + [] == Stream(c, m);
    } else {
      StreamSplit(c, m, n - 1);
      Associate(Stream(c, m), Stream(After(c, m), n - 1), [Output(After(c, m + n))]);
    }
  }

  lemma StepPermutes(c: Rc4)
    requires Permutation(c.s)
    ensures Permutation(Step(c).s)
  {
    var x := (c.x + 1) % STATE;
    SwapPermutes(c.s, x, (c.s[x] + c.y) % STATE);
  }

  lemma {:induction false} AfterPermutes(c: Rc4, n: nat)
    requires Permutation(c.s)
    ensures Permutation(After(c, n).s)
  {
    hide Permutation, Step;
    assert |c.s| == STATE by { PermutationSize(c.s); }
    if n == 0 {
    } else {
      AfterPermutes(c, n - 1);
      StepPermutes(After(c, n - 1));
    }
  }

  // The first three bytes from the state in which every byte stands at its own place, computed by hand.
  lemma FirstBytes()
    ensures Stream(Rc4(Identity(), 0, 0), 3) == [2, 5, 7]
  {
    var s := Identity();
    var t := s[2 := 3][3 := 2];
    var u := t[3 := 5][5 := 2];
    hide Step, Output, Identity;
    assert Swapped(s, 1, 1) == s && Swapped(s, 2, 3) == t && Swapped(t, 3, 5) == u;
    OneByte(Rc4(s, 0, 0), 1, 1, 2);
    OneByte(Rc4(s, 1, 1), 2, 3, 5);
    OneByte(Rc4(t, 2, 3), 3, 5, 7);
    ThreeBytes(Rc4(s, 0, 0), Rc4(s, 1, 1), Rc4(t, 2, 3), Rc4(u, 3, 5));
  }

  // A step that leads to the indices x and y, and the place k of the byte it gives.
  lemma OneByte(c: Rc4, x: octet, y: octet, k: octet)
    requires |c.s| == STATE && x == (c.x + 1) % STATE && y == (c.s[x] + c.y) % STATE
    requires k == (c.s[x] + c.s[y]) % STATE
    ensures Step(c) == Rc4(Swapped(c.s, x, y), x, y) && Output(Step(c)) == Swapped(c.s, x, y)[k]
  {
  }

  lemma ThreeBytes(c: Rc4, d: Rc4, e: Rc4, f: Rc4)
    requires |c.s| == |d.s| == |e.s| == |f.s| == STATE && Step(c) == d && Step(d) == e && Step(e) == f
    ensures Stream(c, 3) == [Output(d), Output(e), Output(f)]
  {
    hide Step, Output;
    assert After(c, 1) == d && After(c, 2) == e && After(c, 3) == f;
    assert Stream(c, 1) == [Output(d)] && Stream(c, 2) == [Output(d), Output(e)];
  }

  // ---------- data ----------

  function Masked(b: bv8, k: octet): bv8 {
    b ^ (k as bv8)
  }

  function Crypted(data: seq<bv8>, stream: seq<octet>): (r: seq<bv8>)
    requires |stream| == |data|
    ensures |r| == |data|
  {
    seq(|data|, i requires 0 <= i < |data| => Masked(data[i], stream[i]))
  }

  lemma MaskedTwice(b: bv8, k: octet)
    ensures Masked(Masked(b, k), k) == b
  {
    var w := k as bv8;
    assert b ^ w ^ w == b;
  }

  // Crypting a byte 0 gives the byte of the stream, and any other byte differs from that by exactly its own bits.
  lemma MaskedBits(b: bv8, k: octet)
    ensures Masked(0, k) == k as bv8 && Masked(b, k) ^ Masked(0, k) == b
  {
    var w := k as bv8;
    assert b ^ w ^ (0 ^ w) == b && 0 ^ w == w;
  }

  // Crypting again with the same stream gives the data back.
  lemma CryptedTwice(data: seq<bv8>, stream: seq<octet>)
    requires |stream| == |data|
    ensures Crypted(Crypted(data, stream), stream) == data
  {
    hide Masked;
    forall i | 0 <= i < |data|
      ensures Crypted(Crypted(data, stream), stream)[i] == data[i]
    {
      MaskedTwice(data[i], stream[i]);
    }
  }

  // ---------- the key ----------

  function Identity(): (s: seq<octet>)
    ensures |s| == STATE
  {
    seq(STATE, i requires 0 <= i < STATE => i)
  }

  // The state and the last y after the first n rounds of mixing in the key.
  function Mixed(key: seq<octet>, n: nat): (r: (seq<octet>, octet))
    requires key != [] && n <= STATE
    ensures |r.0| == STATE
  {
    if n == 0 then (Identity(), 0)
    else
      var (s, y) := Mixed(key, n - 1);
      var y' := (key[(n - 1) % |key|] + s[n - 1] + y) % STATE;
      (Swapped(s, n - 1, y'), y')
  }

  // The first three rounds for the key of the bytes 1 and 2, computed by hand.
  lemma FirstRounds()
    ensures Mixed([1, 2], 1) == (Identity()[0 := 1][1 := 0], 1)
    ensures Mixed([1, 2], 2) == (Identity()[0 := 1][1 := 3][3 := 0], 3)
    ensures Mixed([1, 2], 3) == (Identity()[0 := 1][1 := 3][3 := 0][2 := 6][6 := 2], 6)
  {
    var key: seq<octet>, s, t, u := [1, 2], Identity()[0 := 1][1 := 0], Identity()[0 := 1][1 := 3][3 := 0],
      Identity()[0 := 1][1 := 3][3 := 0][2 := 6][6 := 2];
    hide Mixed;
    assert Swapped(Identity(), 0, 1) == s && Swapped(s, 1, 3) == t && Swapped(t, 2, 6) == u;
    MixedStart(key);
    MixedNext(key, 0, Identity(), 0);
    MixedNext(key, 1, s, 1);
    MixedNext(key, 2, t, 3);
  }

  lemma MixedStart(key: seq<octet>)
    requires key != []
    ensures Mixed(key, 0) == (Identity(), 0)
  {
  }

  lemma MixedNext(key: seq<octet>, n: nat, s: seq<octet>, y: octet)
    requires key != [] && n < STATE && (s, y) == Mixed(key, n)
    ensures |s| == STATE
    ensures var y' := (key[n % |key|] + s[n] + y) % STATE; Mixed(key, n + 1) == (Swapped(s, n, y'), y')
  {
  }

  function Keyed(key: seq<octet>): Rc4
    requires key != []
  {
    Rc4(Mixed(key, STATE).0, 0, 0)
  }

  lemma {:induction false} MixedPermutes(key: seq<octet>, n: nat)
    requires key != [] && n <= STATE
    ensures Permutation(Mixed(key, n).0)
  {
    if n == 0 {
      forall v: octet
        ensures v in Identity()
      {
        assert Identity()[v] == v;
      }
    } else {
      MixedPermutes(key, n - 1);
      var (s, y) := Mixed(key, n - 1);
      SwapPermutes(s, n - 1, (key[(n - 1) % |key|] + s[n - 1] + y) % STATE);
    }
  }

  // ---------- the context ----------

  class Context {
    const state: array<octet>
    var x: octet
    var y: octet

    ghost predicate Valid()
      reads state
    {
      state.Length == STATE && Permutation(state[..])
    }

    ghost function Value(): Rc4
      reads this, state
    {
      Rc4(state[..], x, y)
    }

    // rc4_keysetup; an empty key would divide by zero.
    constructor (key: seq<octet>)
      requires key != []
      ensures Valid() && Value() == Keyed(key) && fresh(state)
    {
      state := new octet[STATE](i => i % 256);
      x, y := 0, 0;
      new;
      assert state[..] == Identity();
      MixIn(key);
      MixedPermutes(key, STATE);
    }

    // The loop that mixes in the key.
    method MixIn(key: seq<octet>)
      requires key != [] && state.Length == STATE && state[..] == Identity()
      modifies state
      ensures state[..] == Mixed(key, STATE).0
    {
      hide Mixed;
      MixedStart(key);
      var i, k, j := 0, 0, 0;
      while i < STATE
        invariant i <= STATE && (state[..], j) == Mixed(key, i) && k == i % |key|
      {
        MixedNext(key, i, state[..], j);
        j := (key[k] + state[i] + j) % STATE;
        state[i], state[j] := state[j], state[i];
        NextIndex(i, |key|);
        k := (k + 1) % |key|;
        i := i + 1;
      }
    }

    // The part of the loops that moves the context on.
    method Advance()
      requires Valid()
      modifies this, state
      ensures Valid() && Value() == Step(old(Value()))
    {
      SwapPermutes(state[..], (x + 1) % STATE, (state[(x + 1) % STATE] + y) % STATE);
      x := (x + 1) % STATE;
      y := (state[x] + y) % STATE;
      var t := state[x];
      state[x] := state[y];
      state[y] := t;
    }

    // The expression that picks the byte of the stream.
    method Byte() returns (k: octet)
      requires Valid()
      ensures |Value().s| == STATE && k == Output(Value())
    {
      k := state[(state[x] + state[y]) % STATE];
    }

    // rc4_crypt; source and destination may be the same.
    method Crypt(src: array<bv8>, dst: array<bv8>, len: nat)
      requires Valid() && len <= src.Length && len <= dst.Length
      requires src as object != state && dst as object != state
      modifies this, state, dst
      ensures Valid() && Value() == After(old(Value()), len)
      ensures dst[..len] == Crypted(old(src[..len]), Stream(old(Value()), len)) && dst[len..] == old(dst[len..])
      ensures src != dst ==> src[..] == old(src[..])
    {
      hide Masked, Step, Output, Permutation;
      ghost var c, data, was := Value(), src[..], dst[..];
      for i := 0 to len
        invariant Valid() && Value() == After(c, i)
        invariant forall k | 0 <= k < i :: dst[k] == Masked(data[k], Stream(c, i)[k])
        invariant forall k | i <= k < dst.Length :: dst[k] == was[k]
        invariant if src == dst then forall k | i <= k < src.Length :: src[k] == data[k] else src[..] == data
      {
        Advance();
        NextByte(c, i);
        var k := Byte();
        dst[i] := Masked(src[i], k);
      }
      assert dst[len..] == was[len..];
    }

    // rc4_getbytes
    method GetBytes(dst: array<octet>, len: nat)
      requires Valid() && len <= dst.Length && dst != state
      modifies this, state, dst
      ensures Valid() && Value() == After(old(Value()), len)
      ensures dst[..len] == Stream(old(Value()), len) && dst[len..] == old(dst[len..])
    {
      hide Step, Output, Permutation;
      ghost var c, was := Value(), dst[..];
      for i := 0 to len
        invariant Valid() && Value() == After(c, i) && dst[..i] == Stream(c, i)
        invariant forall k | i <= k < dst.Length :: dst[k] == was[k]
      {
        Advance();
        NextByte(c, i);
        dst[i] := Byte();
        assert dst[..i + 1] == dst[..i] + [dst[i]];
      }
      assert dst[len..] == was[len..];
    }

    // rc4_skip leaves the context where rc4_getbytes leaves it.
    method Skip(len: nat)
      requires Valid()
      modifies this, state
      ensures Valid() && Value() == After(old(Value()), len)
    {
      hide Step, Permutation;
      ghost var c := Value();
      for i := 0 to len
        invariant Valid() && Value() == After(c, i)
      {
        Advance();
      }
    }
  }

  lemma NextIndex(i: nat, n: nat)
    requires n > 0
    ensures (i % n + 1) % n == (i + 1) % n
  {
    NextOf(i, i / n, i % n, n);
  }

  lemma NextOf(i: nat, q: nat, r: nat, n: nat)
    requires r < n && i == q * n + r
    ensures (r + 1) % n == (i + 1) % n
  {
    if r + 1 < n {
      DivModUnique(r + 1, 0, n, r + 1);
      DivModUnique(i + 1, q, n, r + 1);
    } else {
      MulNext(q, n);
      DivModUnique(r + 1, 1, n, 0);
      DivModUnique(i + 1, q + 1, n, 0);
    }
  }

  lemma NextByte(c: Rc4, i: nat)
    requires |c.s| == STATE
    ensures Stream(c, i + 1)[..i] == Stream(c, i) && Stream(c, i + 1)[i] == Output(After(c, i + 1))
  {
    hide Output;
  }

  // Two contexts with the same key: what one crypts, the other crypts back.
  method ThereAndBack(key: seq<octet>, data: array<bv8>)
    requires key != []
    modifies data
    ensures data[..] == old(data[..])
  {
    hide Keyed, Crypted, Stream, Permutation;
    var sender := new Context(key);
    var receiver := new Context(key);
    ghost var plain, stream := data[..], Stream(Keyed(key), data.Length);
    assert data[..data.Length] == plain;
    sender.Crypt(data, data, data.Length);
    ghost var crypted := data[..];
    assert data[..data.Length] == crypted;
    receiver.Crypt(data, data, data.Length);
    assert data[..data.Length] == data[..];
    CryptedTwice(plain, stream);
  }

  lemma CryptedJoin(a: seq<bv8>, b: seq<bv8>, s: seq<octet>, t: seq<octet>)
    requires |s| == |a| && |t| == |b|
    ensures Crypted(a + b, s + t) == Crypted(a, s) + Crypted(b, t)
  {
    hide Masked;
  }

  // Two calls crypt the two parts as one call crypts the whole.
  method InTwoCalls(c: Context, a: array<bv8>, b: array<bv8>)
    requires c.Valid() && a != b && a as object != c.state && b as object != c.state
    modifies c, c.state, a, b
    ensures c.Valid() && c.Value() == After(old(c.Value()), a.Length + b.Length)
    ensures a[..] + b[..] == Crypted(old(a[..] + b[..]), Stream(old(c.Value()), a.Length + b.Length))
  {
    hide Crypted, Stream, After, Permutation;
    ghost var v, x, y := c.Value(), a[..], b[..];
    assert a[..a.Length] == x && b[..b.Length] == y;
    c.Crypt(a, a, a.Length);
    assert a[..a.Length] == a[..] && b[..b.Length] == y;
    ghost var m := c.Value();
    c.Crypt(b, b, b.Length);
    assert b[..b.Length] == b[..];
    StreamSplit(v, a.Length, b.Length);
    CryptedJoin(x, y, Stream(v, a.Length), Stream(m, b.Length));
  }
}
