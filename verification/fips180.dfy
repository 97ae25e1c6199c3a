/** SHA-256 as FIPS 180-4 defines it, on whole messages of bytes. */
module Fips180 {

  type byte = bv8
  type word = bv32

  // ---------- section 4.1.2 and 4.2.2: functions and constants ----------

  // Addition modulo 2^32.
  function Add(x: word, y: word): word {
    x + y
  }

  function Rotr(x: word, n: bv6): word
    requires n < 32
  {
    (x >> n) | (x << (32 - n))
  }

  function Ch(x: word, y: word, z: word): word {
    (x & y) ^ (!x & z)
  }

  function Maj(x: word, y: word, z: word): word {
    (x & y) ^ (x & z) ^ (y & z)
  }

  function Shr(x: word, n: bv6): word
    requires n < 32
  {
    x >> n
  }

  function Xor3(x: word, y: word, z: word): word {
    x ^ y ^ z
  }

  function BigSigma0(x: word): word {
    Xor3(Rotr(x, 2), Rotr(x, 13), Rotr(x, 22))
  }

  function BigSigma1(x: word): word {
    Xor3(Rotr(x, 6), Rotr(x, 11), Rotr(x, 25))
  }

  function SmallSigma0(x: word): word {
    Xor3(Rotr(x, 7), Rotr(x, 18), Shr(x, 3))
  }

  function SmallSigma1(x: word): word {
    Xor3(Rotr(x, 17), Rotr(x, 19), Shr(x, 10))
  }

  const K: seq<word> :=
    [0x428a2f98, 0x71374491, 0xb5c0fbcf, 0xe9b5dba5, 0x3956c25b, 0x59f111f1, 0x923f82a4, 0xab1c5ed5] +
    [0xd807aa98, 0x12835b01, 0x243185be, 0x550c7dc3, 0x72be5d74, 0x80deb1fe, 0x9bdc06a7, 0xc19bf174] +
    [0xe49b69c1, 0xefbe4786, 0x0fc19dc6, 0x240ca1cc, 0x2de92c6f, 0x4a7484aa, 0x5cb0a9dc, 0x76f988da] +
    [0x983e5152, 0xa831c66d, 0xb00327c8, 0xbf597fc7, 0xc6e00bf3, 0xd5a79147, 0x06ca6351, 0x14292967] +
    [0x27b70a85, 0x2e1b2138, 0x4d2c6dfc, 0x53380d13, 0x650a7354, 0x766a0abb, 0x81c2c92e, 0x92722c85] +
    [0xa2bfe8a1, 0xa81a664b, 0xc24b8b70, 0xc76c51a3, 0xd192e819, 0xd6990624, 0xf40e3585, 0x106aa070] +
    [0x19a4c116, 0x1e376c08, 0x2748774c, 0x34b0bcb5, 0x391c0cb3, 0x4ed8aa4a, 0x5b9cca4f, 0x682e6ff3] +
    [0x748f82ee, 0x78a5636f, 0x84c87814, 0x8cc70208, 0x90befffa, 0xa4506ceb, 0xbef9a3f7, 0xc67178f2]

  // ---------- section 5.1.1: padding ----------

  // The low eight bits.
  function LowByte(n: nat): byte {
    (n % 256) as byte
  }

  // n as a big-endian number of k bytes.
  function BigEndian(n: nat, k: nat): (s: seq<byte>)
    ensures |s| == k
  {
    if k == 0 then [] else BigEndian(n / 256, k - 1) + [LowByte(n)]
  }

  function Zeros(k: nat): (s: seq<byte>)
    ensures |s| == k
  {
    seq(k, _ => 0)
  }

  // The number of zero bytes that, after the byte 0x80, leave eight bytes to the end of a block.
  function PadZeros(len: nat): (k: nat)
    ensures k < 64 && (len + 1 + k) % 64 == 56
  {
    (119 - len % 64) % 64
  }

  lemma WholeBlocks(n: nat)
    requires n % 64 == 56
    ensures (n + 8) % 64 == 0
  {
  }

  function Pad(m: seq<byte>): (p: seq<byte>)
    ensures |p| % 64 == 0
  {
    var k := PadZeros(|m|);
    WholeBlocks(|m| + 1 + k);
    m + [0x80] + Zeros(k) + BigEndian(8 * |m|, 8)
  }

  // ---------- section 5.2.1 and 6.2.2: hashing block by block ----------

  datatype Hash = Hash(a: word, b: word, c: word, d: word, e: word, f: word, g: word, h: word)

  // Section 5.3.3.
  const INITIAL := Hash(0x6a09e667, 0xbb67ae85, 0x3c6ef372, 0xa54ff53a, 0x510e527f, 0x9b05688c, 0x1f83d9ab, 0x5be0cd19)

  function WordOf(b0: byte, b1: byte, b2: byte, b3: byte): word {
    ((b0 as word) << 24) | ((b1 as word) << 16) | ((b2 as word) << 8) | (b3 as word)
  }

  // The message schedule.
  function W(block: seq<byte>, t: nat): word
    requires |block| == 64 && t < 64
  {
    if t < 16 then WordOf(block[4 * t], block[4 * t + 1], block[4 * t + 2], block[4 * t + 3])
    else Extension(W(block, t - 2), W(block, t - 7), W(block, t - 15), W(block, t - 16))
  }

  lemma WStep(block: seq<byte>, t: nat)
    requires |block| == 64 && t < 64
    ensures t < 16 ==> W(block, t) == WordOf(block[4 * t], block[4 * t + 1], block[4 * t + 2], block[4 * t + 3])
    ensures t >= 16 ==> W(block, t) == Extension(W(block, t - 2), W(block, t - 7), W(block, t - 15), W(block, t - 16))
  {
    hide WordOf, Extension;
  }

  function Extension(w2: word, w7: word, w15: word, w16: word): word {
    Add(Add(Add(SmallSigma1(w2), w7), SmallSigma0(w15)), w16)
  }

  function Round(v: Hash, k: word, w: word): Hash {
    var t1 := Add(Add(Add(Add(v.h, BigSigma1(v.e)), Ch(v.e, v.f, v.g)), k), w);
    var t2 := Add(BigSigma0(v.a), Maj(v.a, v.b, v.c));
    Hash(Add(t1, t2), v.a, v.b, v.c, Add(v.d, t1), v.e, v.f, v.g)
  }

  // The working variables after the first t rounds.
  function Rounds(v: Hash, block: seq<byte>, t: nat): Hash
    requires |block| == 64 && t <= 64
  {
    if t == 0 then v else Round(Rounds(v, block, t - 1), K[t - 1], W(block, t - 1))
  }

  function Compress(v: Hash, block: seq<byte>): Hash
    requires |block| == 64
  {
    Plus(v, Rounds(v, block, 64))
  }

  function Plus(v: Hash, r: Hash): Hash {
    Hash(Add(v.a, r.a), Add(v.b, r.b), Add(v.c, r.c), Add(v.d, r.d), Add(v.e, r.e), Add(v.f, r.f), Add(v.g, r.g),
      Add(v.h, r.h))
  }

  // All blocks of p in order.
  function HashBlocks(p: seq<byte>): Hash
    requires |p| % 64 == 0
  {
    if p == [] then INITIAL else Compress(HashBlocks(p[..|p| - 64]), p[|p| - 64..])
  }

  function ByteOf(w: word, shift: nat): byte
    requires shift <= 24
  {
    ((w >> shift) & 0xff) as byte
  }

  function Bytes(w: word): seq<byte> {
    [ByteOf(w, 24), ByteOf(w, 16), ByteOf(w, 8), ByteOf(w, 0)]
  }

  // The words one after the other, each with its most significant byte first.
  function Concat(ws: seq<word>): (s: seq<byte>)
    ensures |s| == 4 * |ws|
  {
    if ws == [] then [] else Concat(ws[..|ws| - 1]) + Bytes(ws[|ws| - 1])
  }

  function Digest(v: Hash): (s: seq<byte>)
    ensures |s| == 32
  {
    Concat([v.a, v.b, v.c, v.d, v.e, v.f, v.g, v.h])
  }

  function Sha256(m: seq<byte>): seq<byte> {
    Digest(HashBlocks(Pad(m)))
  }

  lemma HashBlocksAppend(p: seq<byte>, block: seq<byte>)
    requires |p| % 64 == 0 && |block| == 64
    ensures HashBlocks(p + block) == Compress(HashBlocks(p), block)
  {
    hide Compress;
    var q := p + block;
    assert q[..|q| - 64] == p && q[|q| - 64..] == block;
  }
}
