/** The streaming form of SHA-256: a context with a buffer of one block. */
module Sha2 {
  import opened Fips180

  // The 64-bit counter after n bytes in whole blocks.
  function Counter(n: nat): nat {
    8 * n % 0x1_0000_0000_0000_0000
  }

  // After the bytes m the hash is v, the counter bits, and rest waits in the buffer.
  ghost predicate Held(m: seq<byte>, v: Hash, bits: nat, rest: seq<byte>) {
    && |rest| <= |m| && (|m| - |rest|) % 64 == 0 && v == HashBlocks(m[..|m| - |rest|]) && rest == m[|m| - |rest|..]
    && bits == Counter(|m| - |rest|)
  }

  lemma HeldMore(m: seq<byte>, v: Hash, bits: nat, rest: seq<byte>, b: byte)
    requires Held(m, v, bits, rest)
    ensures Held(m + [b], v, bits, rest + [b])
  {
    hide HashBlocks, Counter;
    var m', n := m + [b], |m| - |rest|;
    assert m'[..n] == m[..n] && m'[n..] == m[n..] + [b];
  }

  lemma HeldFlushed(m: seq<byte>, v: Hash, bits: nat, block: seq<byte>)
    requires Held(m, v, bits, block) && |block| == 64
    ensures Held(m, Compress(v, block), (bits + 512) % 0x1_0000_0000_0000_0000, [])
  {
    hide HashBlocks, Compress, Counter;
    var q := m[..|m| - 64];
    assert m == q + block;
    HashBlocksAppend(q, block);
    Counted(|q|);
    AllOf(m);
  }

  // What final finds: whole blocks, the rest, and a counter that makes up the length.
  lemma HeldEnd(m: seq<byte>, v: Hash, bits: nat, rest: seq<byte>)
    requires Held(m, v, bits, rest) && |m| < 0x2000_0000_0000_0000
    ensures bits + |rest| * 8 == 8 * |m| < 0x1_0000_0000_0000_0000
  {
    hide HashBlocks;
  }

  class Context {
    const state: array<word>
    var bitlen: nat  // a 64-bit counter
    const data: array<byte>
    var datalen: nat

    // The eight words of the state.
    ghost function Value(): Hash
      requires state.Length == 8
      reads state
    {
      Hash(state[0], state[1], state[2], state[3], state[4], state[5], state[6], state[7])
    }

    // The context has taken in the bytes m.
    ghost predicate Absorbed(m: seq<byte>)
      reads this, state, data
    {
      && state.Length == 8 && data.Length == 64 && datalen < 64
      && Held(m, Value(), bitlen, data[..datalen])
    }

    constructor ()
      ensures Absorbed([]) && fresh(state) && fresh(data)
    {
      state := new word[8];
      data := new byte[64];
      datalen, bitlen := 0, 0;
      new;
      state[0] := 0x6a09e667;
      state[1] := 0xbb67ae85;
      state[2] := 0x3c6ef372;
      state[3] := 0xa54ff53a;
      state[4] := 0x510e527f;
      state[5] := 0x9b05688c;
      state[6] := 0x1f83d9ab;
      state[7] := 0x5be0cd19;
    }

    // ---------- one block ----------

    // The message schedule of the buffered block.
    method Schedule() returns (m: array<word>)
      requires data.Length == 64
      ensures fresh(m) && m.Length == 64 && forall j | 0 <= j < 64 :: m[j] == W(data[..], j)
    {
      hide Add, SmallSigma0, SmallSigma1, WordOf, W;
      m := new word[64];
      for i := 0 to 16
        invariant forall j | 0 <= j < i :: m[j] == W(data[..], j)
      {
        WStep(data[..], i);
        m[i] := WordOf(data[i * 4], data[i * 4 + 1], data[i * 4 + 2], data[i * 4 + 3]);
      }
      for i := 16 to 64
        invariant forall j | 0 <= j < i :: m[j] == W(data[..], j)
      {
        ghost var was := m[..];
        WStep(data[..], i);
        m[i] := Add(Add(Add(SmallSigma1(m[i - 2]), m[i - 7]), SmallSigma0(m[i - 15])), m[i - 16]);
        assert forall j | 0 <= j < 64 :: m[j] == m[..][j] && (j != i ==> m[j] == was[j]);
      }
    }

    // The main loop, on the working variables.
    method Mix(m: array<word>, ghost block: seq<byte>) returns (v: Hash)
      requires state.Length == 8 && m.Length == 64 && |block| == 64 && forall j | 0 <= j < 64 :: m[j] == W(block, j)
      ensures v == Rounds(Value(), block, 64)
    {
      hide Add, BigSigma0, BigSigma1, Ch, Maj;
      var a, b, c, d := state[0], state[1], state[2], state[3];
      var e, f, g, h := state[4], state[5], state[6], state[7];
      for i := 0 to 64
        invariant Hash(a, b, c, d, e, f, g, h) == Rounds(Value(), block, i)
      {
        var t1 := Add(Add(Add(Add(h, BigSigma1(e)), Ch(e, f, g)), K[i]), m[i]);
        var t2 := Add(BigSigma0(a), Maj(a, b, c));
        h := g;
        g := f;
        f := e;
        e := Add(d, t1);
        d := c;
        c := b;
        b := a;
        a := Add(t1, t2);
      }
      v := Hash(a, b, c, d, e, f, g, h);
    }

    method AddToState(v: Hash)
      requires state.Length == 8
      modifies state
      ensures Value() == Plus(old(Value()), v)
    {
      hide Add;
      state[0] := Add(state[0], v.a);
      state[1] := Add(state[1], v.b);
      state[2] := Add(state[2], v.c);
      state[3] := Add(state[3], v.d);
      state[4] := Add(state[4], v.e);
      state[5] := Add(state[5], v.f);
      state[6] := Add(state[6], v.g);
      state[7] := Add(state[7], v.h);
    }

    method Transform()
      requires state.Length == 8 && data.Length == 64
      modifies state
      ensures Value() == Compress(old(Value()), data[..])
    {
      hide Plus, Rounds, W;
      var m := Schedule();
      var v := Mix(m, data[..]);
      AddToState(v);
    }

    // ---------- streaming ----------

    // Takes in one byte.
    method UpdateByte(b: byte, ghost m: seq<byte>)
      requires Absorbed(m)
      modifies `datalen, `bitlen, state, data
      ensures Absorbed(m + [b])
    {
      hide Compress, Held;
      HeldMore(m, Value(), bitlen, data[..datalen], b);
      data[datalen] := b;
      datalen := datalen + 1;
      assert data[..datalen] == old(data[..datalen]) + [b];
      if datalen == 64 {
        assert data[..64] == data[..];
        HeldFlushed(m + [b], Value(), bitlen, data[..]);
        Transform();
        bitlen := (bitlen + 512) % 0x1_0000_0000_0000_0000;
        datalen := 0;
      }
    }

    // Takes in more bytes.
    method Update(bytes: seq<byte>, ghost m: seq<byte>)
      requires Absorbed(m)
      modifies `datalen, `bitlen, state, data
      ensures Absorbed(m + bytes)
    {
      hide Absorbed;
      assert m + bytes[..0] == m;
      for i := 0 to |bytes|
        invariant Absorbed(m + bytes[..i])
      {
        UpdateByte(bytes[i], m + bytes[..i]);
        assert m + bytes[..i + 1] == m + bytes[..i] + [bytes[i]];
      }
      assert bytes[..|bytes|] == bytes;
    }

    // ---------- the end of the message ----------

    // Writes the byte 0x80 and then zeros up to the index end.
    method Fill(end: nat)
      requires data.Length == 64 && datalen < end <= 64
      modifies data
      ensures data[..end] == old(data[..datalen]) + [0x80] + Zeros(end - datalen - 1)
    {
      var i := datalen;
      data[i] := 0x80;
      i := i + 1;
      while i < end
        invariant datalen < i <= end
        invariant data[..i] == old(data[..datalen]) + [0x80] + Zeros(i - datalen - 1)
      {
        data[i] := 0;
        i := i + 1;
      }
    }

    // No room for the length: closes this block with zeros and starts one of zeros.
    method PadOver(ghost q: seq<byte>)
      requires state.Length == 8 && data.Length == 64 && datalen < 64 && |q| % 64 == 0 && Value() == HashBlocks(q)
      modifies state, data
      ensures var block := old(data[..datalen]) + [0x80] + Zeros(63 - datalen);
              Value() == HashBlocks(q + block) && data[..56] == Zeros(56)
    {
      hide HashBlocks, Compress;
      Fill(64);
      ghost var block := data[..];
      assert block == data[..64];
      HashBlocksAppend(q, block);
      Transform();
      for i := 0 to 56
        invariant Value() == HashBlocks(q + block)
        invariant forall j | 0 <= j < i :: data[j] == 0
      {
        data[i] := 0;
      }
    }

    // Leaves the last block of the padded message in the buffer, but for its eight length bytes.
    method PadBuffer(ghost m: seq<byte>) returns (ghost q: seq<byte>)
      requires Absorbed(m)
      modifies state, data
      ensures |q| % 64 == 0 && Value() == HashBlocks(q) && Pad(m) == q + data[..56] + BigEndian(8 * |m|, 8)
    {
      hide HashBlocks, BigEndian, Pad, Counter, Zeros;
      q := m[..|m| - datalen];
      ghost var rest := data[..datalen];
      if datalen < 56 {
        Fill(56);
        PadInside(m, q, rest, BigEndian(8 * |m|, 8));
      } else {
        PadOver(q);
        PadAcross(m, q, rest, BigEndian(8 * |m|, 8));
        q := q + (rest + [0x80] + Zeros(63 - datalen));
      }
    }

    method PutOctets()
      requires data.Length == 64
      modifies data
      ensures forall j | 0 <= j < 56 :: data[j] == old(data[j])
      ensures data[63] == LowByte(bitlen)
      ensures data[62] == Octet(bitlen, 0x100) && data[61] == Octet(bitlen, 0x1_0000) &&
        data[60] == Octet(bitlen, 0x100_0000)
      ensures data[59] == Octet(bitlen, 0x1_0000_0000) && data[58] == Octet(bitlen, 0x100_0000_0000) &&
        data[57] == Octet(bitlen, 0x1_0000_0000_0000)
      ensures data[56] == Octet(bitlen, 0x100_0000_0000_0000)
    {
      hide LowByte, Octet;
      data[63] := LowByte(bitlen);
      data[62] := Octet(bitlen, 0x100);
      data[61] := Octet(bitlen, 0x1_0000);
      data[60] := Octet(bitlen, 0x100_0000);
      data[59] := Octet(bitlen, 0x1_0000_0000);
      data[58] := Octet(bitlen, 0x100_0000_0000);
      data[57] := Octet(bitlen, 0x1_0000_0000_0000);
      data[56] := Octet(bitlen, 0x100_0000_0000_0000);
    }

    // Writes the length into the last eight bytes of the block.
    method PutLength()
      requires data.Length == 64
      modifies data
      ensures data[..] == old(data[..56]) + BigEndian(bitlen, 8)
    {
      hide LowByte, BigEndian, Octet;
      PutOctets();
      EightBytes(bitlen);
    }

    // Writes the state out as the digest.
    method Emit(digest: array<byte>)
      requires state.Length == 8 && digest.Length >= 32 && digest != data
      modifies digest
      ensures digest[..32] == Digest(Value()) && digest[32..] == old(digest[32..])
    {
      hide ByteOf, Concat;
      ConcatNone();
      assert state[..0] == [];
      for i := 0 to 8
        invariant digest[..4 * i] == Concat(state[..i]) && digest[32..] == old(digest[32..])
      {
        ghost var written := digest[..4 * i];
        digest[i * 4] := ByteOf(state[i], 24);
        digest[i * 4 + 1] := ByteOf(state[i], 16);
        digest[i * 4 + 2] := ByteOf(state[i], 8);
        digest[i * 4 + 3] := ByteOf(state[i], 0);
        assert digest[..4 * (i + 1)] == written + Bytes(state[i]);
        ConcatMore(state[..], i);
      }
      assert state[..8] == [state[0], state[1], state[2], state[3], state[4], state[5], state[6], state[7]];
    }

    method Final(digest: array<byte>, ghost m: seq<byte>)
      requires Absorbed(m) && |m| < 0x2000_0000_0000_0000 && digest.Length >= 32 && digest != data
      modifies this, state, data, digest
      ensures digest[..32] == Sha256(m) && digest[32..] == old(digest[32..])
    {
      hide HashBlocks, Compress, BigEndian, Pad, Digest, Held;
      HeldEnd(m, Value(), bitlen, data[..datalen]);
      ghost var q := PadBuffer(m);
      bitlen := (bitlen + datalen * 8) % 0x1_0000_0000_0000_0000;
      PutLength();
      HashBlocksAppend(q, data[..]);
      assert Pad(m) == q + data[..];
      Transform();
      Emit(digest);
    }
  }

  lemma ConcatNone()
    ensures Concat([]) == []
  {
  }

  lemma ConcatMore(ws: seq<word>, i: nat)
    requires i < |ws|
    ensures Concat(ws[..i + 1]) == Concat(ws[..i]) + Bytes(ws[i])
  {
    assert ws[..i + 1][..i] == ws[..i];
  }

  lemma Counted(n: nat)
    ensures Counter(n + 64) == (Counter(n) + 512) % 0x1_0000_0000_0000_0000
  {
  }

  lemma AllOf(m: seq<byte>)
    ensures m[..|m|] == m && m[|m|..] == []
  {
  }

  lemma PadCount(n: nat, r: nat)
    requires n % 64 == 0 && r < 64
    ensures PadZeros(n + r) == if r < 56 then 55 - r else 119 - r
  {
  }

  // Padding that ends in the block at hand.
  lemma PadInside(m: seq<byte>, q: seq<byte>, rest: seq<byte>, length: seq<byte>)
    requires m == q + rest && |q| % 64 == 0 && |rest| < 56 && length == BigEndian(8 * |m|, 8)
    ensures Pad(m) == q + (rest + [0x80] + Zeros(55 - |rest|)) + length
  {
    hide BigEndian, Zeros, PadZeros;
    PadCount(|q|, |rest|);
    PaddedRegrouped(q, rest, [0x80], Zeros(55 - |rest|), [], length);
    assert Zeros(55 - |rest|) + [] == Zeros(55 - |rest|);
    var block := rest + [0x80] + Zeros(55 - |rest|);
    assert q + block + [] == q + block;
  }

  // Padding that needs one more block.
  lemma PadAcross(m: seq<byte>, q: seq<byte>, rest: seq<byte>, length: seq<byte>)
    requires m == q + rest && |q| % 64 == 0 && 56 <= |rest| < 64 && length == BigEndian(8 * |m|, 8)
    ensures Pad(m) == q + (rest + [0x80] + Zeros(63 - |rest|)) + Zeros(56) + length
  {
    hide BigEndian, Zeros, PadZeros;
    PadCount(|q|, |rest|);
    ZerosJoin(63 - |rest|, 56);
    PaddedRegrouped(q, rest, [0x80], Zeros(63 - |rest|), Zeros(56), length);
  }

  lemma ZerosJoin(a: nat, b: nat)
    ensures Zeros(a + b) == Zeros(a) + Zeros(b)
  {
  }

  lemma PaddedRegrouped(a: seq<byte>, b: seq<byte>, c: seq<byte>, d: seq<byte>, e: seq<byte>, f: seq<byte>)
    ensures a + b + c + (d + e) + f == a + (b + c + d) + e + f
  {
    assert b + c + d == b + (c + d);
    assert a + b + c + (d + e) == a + (b + c + d) + e;
  }

  // The low eight bits of n divided by a power of two.
  function Octet(n: nat, d: nat): byte
    requires d > 0
  {
    LowByte(n / d)
  }

  lemma BigEndianMore(n: nat, k: nat)
    ensures BigEndian(n, k + 1) == BigEndian(n / 256, k) + [LowByte(n)]
  {
  }

  lemma Quotients(n: nat)
    ensures n / 0x1_0000 == n / 0x100 / 256 && n / 0x100_0000 == n / 0x1_0000 / 256
    ensures n / 0x1_0000_0000 == n / 0x100_0000 / 256 && n / 0x100_0000_0000 == n / 0x1_0000_0000 / 256
    ensures n / 0x1_0000_0000_0000 == n / 0x100_0000_0000 / 256
    ensures n / 0x100_0000_0000_0000 == n / 0x1_0000_0000_0000 / 256
  {
  }

  // The length bytes most significant first.
  function Octets(n: nat): seq<byte> {
    [Octet(n, 0x100_0000_0000_0000), Octet(n, 0x1_0000_0000_0000), Octet(n, 0x100_0000_0000), Octet(n, 0x1_0000_0000)] +
    [Octet(n, 0x100_0000), Octet(n, 0x1_0000), Octet(n, 0x100), LowByte(n)]
  }

  lemma EightBytes(n: nat)
    ensures BigEndian(n, 8) == Octets(n)
  {
    hide BigEndian, LowByte;
    Quotients(n);
    BigEndianMore(n, 7);
    BigEndianMore(n / 0x100, 6);
    BigEndianMore(n / 0x1_0000, 5);
    BigEndianMore(n / 0x100_0000, 4);
    FourBytes(n / 0x1_0000_0000, n);
  }

  lemma FourBytes(q: nat, n: nat)
    requires q == n / 0x1_0000_0000
    ensures BigEndian(q, 4) == Octets(n)[..4]
  {
    hide BigEndian, LowByte;
    Quotients(n);
    BigEndianMore(q, 3);
    BigEndianMore(n / 0x100_0000_0000, 2);
    BigEndianMore(n / 0x1_0000_0000_0000, 1);
    BigEndianMore(n / 0x100_0000_0000_0000, 0);
    assert BigEndian(n / 0x100_0000_0000_0000 / 256, 0) == [];
  }

  // One call for the whole message.
  method Sha256Of(data: seq<byte>, digest: array<byte>)
    requires |data| < 0x2000_0000_0000_0000 && digest.Length >= 32
    modifies digest
    ensures digest[..32] == Sha256(data) && digest[32..] == old(digest[32..])
  {
    var ctx := new Context();
    ctx.Update(data, []);
    assert [] + data == data;
    ctx.Final(digest, data);
  }

  // A message in pieces.
  function Joined(pieces: seq<seq<byte>>): seq<byte> {
    if pieces == [] then [] else Joined(pieces[..|pieces| - 1]) + pieces[|pieces| - 1]
  }

  lemma JoinedNone()
    ensures Joined([]) == []
  {
  }

  lemma JoinedMore(pieces: seq<seq<byte>>, i: nat)
    requires i < |pieces|
    ensures Joined(pieces[..i + 1]) == Joined(pieces[..i]) + pieces[i]
  {
    assert pieces[..i + 1][..i] == pieces[..i];
  }

  // However the message is split into updates, the digest is that of the whole.
  method InPieces(pieces: seq<seq<byte>>, digest: array<byte>)
    requires |Joined(pieces)| < 0x2000_0000_0000_0000 && digest.Length >= 32
    modifies digest
    ensures digest[..32] == Sha256(Joined(pieces)) && digest[32..] == old(digest[32..])
  {
    hide Context.Absorbed, Sha256, Joined;
    var ctx := new Context();
    JoinedNone();
    assert pieces[..0] == [];
    for i := 0 to |pieces|
      invariant ctx.Absorbed(Joined(pieces[..i])) && fresh(ctx) && fresh(ctx.state) && fresh(ctx.data)
      invariant digest[..] == old(digest[..])
    {
      ctx.Update(pieces[i], Joined(pieces[..i]));
      JoinedMore(pieces, i);
    }
    assert pieces[..|pieces|] == pieces;
    ctx.Final(digest, Joined(pieces));
  }
}
