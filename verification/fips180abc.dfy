/** The digest of "abc", round by round. */
module Fips180Abc {
  import opened Fips180

  const ABC: seq<byte> := [0x61, 0x62, 0x63]

  // The message with its padding.
  function Block(): seq<byte> {
    ABC + [0x80] + Zeros(52) + [0, 0, 0, 0, 0, 0, 0, 24]
  }

  lemma Padded()
    ensures |Block()| == 64 && Pad(ABC) == Block()
  {
    assert PadZeros(3) == 52;
    assert BigEndian(24, 8) == [0, 0, 0, 0, 0, 0, 0, 24];
  }

  // The schedule has the word w at place t.
  predicate Has(t: int, w: word) {
    |Block()| == 64 && 0 <= t < 64 && W(Block(), t) == w
  }

  lemma Extend(t: nat, w: word)
    requires |Block()| == 64 && 16 <= t < 64
    requires Extension(W(Block(), t - 2), W(Block(), t - 7), W(Block(), t - 15), W(Block(), t - 16)) == w
    ensures Has(t, w)
  {
  }

  lemma Schedule0()
    requires |Block()| == 64
    ensures Has(0, 0x61626380) && Has(1, 0x00000000) && Has(2, 0x00000000) && Has(3, 0x00000000)
    ensures Has(4, 0x00000000) && Has(5, 0x00000000) && Has(6, 0x00000000) && Has(7, 0x00000000)
    ensures Has(8, 0x00000000) && Has(9, 0x00000000) && Has(10, 0x00000000) && Has(11, 0x00000000)
    ensures Has(12, 0x00000000) && Has(13, 0x00000000) && Has(14, 0x00000000) && Has(15, 0x00000018)
  {
  }

  lemma Schedule1()
    requires |Block()| == 64
    ensures Has(16, 0x61626380) && Has(17, 0x000f0000) && Has(18, 0x7da86405) && Has(19, 0x600003c6)
    ensures Has(20, 0x3e9d7b78) && Has(21, 0x0183fc00) && Has(22, 0x12dcbfdb) && Has(23, 0xe2e2c38e)
    ensures Has(24, 0xc8215c1a) && Has(25, 0xb73679a2) && Has(26, 0xe5bc3909) && Has(27, 0x32663c5b)
    ensures Has(28, 0x9d209d67) && Has(29, 0xec8726cb) && Has(30, 0x702138a4) && Has(31, 0xd3b7973b)
  {
    hide Block, W;
    Schedule0();
    Extend(16, 0x61626380);
    Extend(17, 0x000f0000);
    Extend(18, 0x7da86405);
    Extend(19, 0x600003c6);
    Extend(20, 0x3e9d7b78);
    Extend(21, 0x0183fc00);
    Extend(22, 0x12dcbfdb);
    Extend(23, 0xe2e2c38e);
    Extend(24, 0xc8215c1a);
    Extend(25, 0xb73679a2);
    Extend(26, 0xe5bc3909);
    Extend(27, 0x32663c5b);
    Extend(28, 0x9d209d67);
    Extend(29, 0xec8726cb);
    Extend(30, 0x702138a4);
    Extend(31, 0xd3b7973b);
  }

  lemma Schedule2()
    requires |Block()| == 64
    ensures Has(32, 0x93f5997f) && Has(33, 0x3b68ba73) && Has(34, 0xaff4ffc1) && Has(35, 0xf10a5c62)
    ensures Has(36, 0x0a8b3996) && Has(37, 0x72af830a) && Has(38, 0x9409e33e) && Has(39, 0x24641522)
    ensures Has(40, 0x9f47bf94) && Has(41, 0xf0a64f5a) && Has(42, 0x3e246a79) && Has(43, 0x27333ba3)
    ensures Has(44, 0x0c4763f2) && Has(45, 0x840abf27) && Has(46, 0x7a290d5d) && Has(47, 0x065c43da)
  {
    hide Block, W;
    Schedule1();
    Extend(32, 0x93f5997f);
    Extend(33, 0x3b68ba73);
    Extend(34, 0xaff4ffc1);
    Extend(35, 0xf10a5c62);
    Extend(36, 0x0a8b3996);
    Extend(37, 0x72af830a);
    Extend(38, 0x9409e33e);
    Extend(39, 0x24641522);
    Extend(40, 0x9f47bf94);
    Extend(41, 0xf0a64f5a);
    Extend(42, 0x3e246a79);
    Extend(43, 0x27333ba3);
    Extend(44, 0x0c4763f2);
    Extend(45, 0x840abf27);
    Extend(46, 0x7a290d5d);
    Extend(47, 0x065c43da);
  }

  lemma Schedule3()
    requires |Block()| == 64
    ensures Has(48, 0xfb3e89cb) && Has(49, 0xcc7617db) && Has(50, 0xb9e66c34) && Has(51, 0xa9993667)
    ensures Has(52, 0x84badedd) && Has(53, 0xc21462bc) && Has(54, 0x1487472c) && Has(55, 0xb20f7a99)
    ensures Has(56, 0xef57b9cd) && Has(57, 0xebe6b238) && Has(58, 0x9fe3095e) && Has(59, 0x78bc8d4b)
    ensures Has(60, 0xa43fcf15) && Has(61, 0x668b2ff8) && Has(62, 0xeeaba2cc) && Has(63, 0x12b1edeb)
  {
    hide Block, W;
    Schedule2();
    Extend(48, 0xfb3e89cb);
    Extend(49, 0xcc7617db);
    Extend(50, 0xb9e66c34);
    Extend(51, 0xa9993667);
    Extend(52, 0x84badedd);
    Extend(53, 0xc21462bc);
    Extend(54, 0x1487472c);
    Extend(55, 0xb20f7a99);
    Extend(56, 0xef57b9cd);
    Extend(57, 0xebe6b238);
    Extend(58, 0x9fe3095e);
    Extend(59, 0x78bc8d4b);
    Extend(60, 0xa43fcf15);
    Extend(61, 0x668b2ff8);
    Extend(62, 0xeeaba2cc);
    Extend(63, 0x12b1edeb);
  }

  // One round, which gives a and e new values and moves the others on.
  lemma Next(t: nat, v: Hash, w: word, a: word, e: word) returns (r: Hash)
    requires |Block()| == 64 && t < 64 && v == Rounds(INITIAL, Block(), t) && w == W(Block(), t)
    requires Round(v, K[t], w).a == a && Round(v, K[t], w).e == e
    ensures r == Rounds(INITIAL, Block(), t + 1) && r == Hash(a, v.a, v.b, v.c, e, v.e, v.f, v.g)
  {
    r := Rounds(INITIAL, Block(), t + 1);
  }

  lemma Rounds0()
    requires |Block()| == 64
    ensures Rounds(INITIAL, Block(), 4) ==
            Hash(0xd550f666, 0xc8c347a7, 0x5a6ad9ad, 0x5d6aebcd, 0x24e00850, 0xf92939eb, 0x78ce7989, 0xfa2a4622)
  {
    hide Block, W, Rounds;
    Schedule0();
    var v := Start();
    v := Next(0, v, 0x61626380, 0x5d6aebcd, 0xfa2a4622);
    v := Next(1, v, 0x00000000, 0x5a6ad9ad, 0x78ce7989);
    v := Next(2, v, 0x00000000, 0xc8c347a7, 0xf92939eb);
    v := Next(3, v, 0x00000000, 0xd550f666, 0x24e00850);
  }

  lemma Rounds4()
    requires |Block()| == 64
    ensures Rounds(INITIAL, Block(), 8) ==
            Hash(0x85a07b5f, 0xe5030380, 0x2b4209f5, 0x04409a6a, 0x0c657a79, 0x9b27a401, 0x714260ad, 0x43ada245)
  {
    hide Block, W, Rounds;
    Schedule0();
    Rounds0();
    var v := Rounds(INITIAL, Block(), 4);
    v := Next(4, v, 0x00000000, 0x04409a6a, 0x43ada245);
    v := Next(5, v, 0x00000000, 0x2b4209f5, 0x714260ad);
    v := Next(6, v, 0x00000000, 0xe5030380, 0x9b27a401);
    v := Next(7, v, 0x00000000, 0x85a07b5f, 0x0c657a79);
  }

  lemma Rounds8()
    requires |Block()| == 64
    ensures Rounds(INITIAL, Block(), 12) ==
            Hash(0xf71fc5a9, 0x4798a3f4, 0x8c87346b, 0x8e04ecb9, 0x816fd6e9, 0x436b23e8, 0x1cc92596, 0x32ca2d8c)
  {
    hide Block, W, Rounds;
    Schedule0();
    Rounds4();
    var v := Rounds(INITIAL, Block(), 8);
    v := Next(8, v, 0x00000000, 0x8e04ecb9, 0x32ca2d8c);
    v := Next(9, v, 0x00000000, 0x8c87346b, 0x1cc92596);
    v := Next(10, v, 0x00000000, 0x4798a3f4, 0x436b23e8);
    v := Next(11, v, 0x00000000, 0xf71fc5a9, 0x816fd6e9);
  }

  lemma Rounds12()
    requires |Block()| == 64
    ensures Rounds(INITIAL, Block(), 16) ==
            Hash(0xb0fa238e, 0xc0645fde, 0xd932eb16, 0x87912990, 0x07590dcd, 0x0b92f20c, 0x745a48de, 0x1e578218)
  {
    hide Block, W, Rounds;
    Schedule0();
    Rounds8();
    var v := Rounds(INITIAL, Block(), 12);
    v := Next(12, v, 0x00000000, 0x87912990, 0x1e578218);
    v := Next(13, v, 0x00000000, 0xd932eb16, 0x745a48de);
    v := Next(14, v, 0x00000000, 0xc0645fde, 0x0b92f20c);
    v := Next(15, v, 0x00000018, 0xb0fa238e, 0x07590dcd);
  }

  lemma Rounds16()
    requires |Block()| == 64
    ensures Rounds(INITIAL, Block(), 20) ==
            Hash(0xe1f20c33, 0xfe777bbf, 0xc2fbd9d1, 0x21da9a9b, 0xb0638179, 0xcc899961, 0x846ee454, 0x8034229c)
  {
    hide Block, W, Rounds;
    Schedule1();
    Rounds12();
    var v := Rounds(INITIAL, Block(), 16);
    v := Next(16, v, 0x61626380, 0x21da9a9b, 0x8034229c);
    v := Next(17, v, 0x000f0000, 0xc2fbd9d1, 0x846ee454);
    v := Next(18, v, 0x7da86405, 0xfe777bbf, 0xcc899961);
    v := Next(19, v, 0x600003c6, 0xe1f20c33, 0xb0638179);
  }

  lemma Rounds20()
    requires |Block()| == 64
    ensures Rounds(INITIAL, Block(), 24) ==
            Hash(0xc5d53d8d, 0xa7a3623f, 0xc2606d6d, 0x9dc68b63, 0xaa47c347, 0x49f5114a, 0xe1257970, 0x8ada8930)
  {
    hide Block, W, Rounds;
    Schedule1();
    Rounds16();
    var v := Rounds(INITIAL, Block(), 20);
    v := Next(20, v, 0x3e9d7b78, 0x9dc68b63, 0x8ada8930);
    v := Next(21, v, 0x0183fc00, 0xc2606d6d, 0xe1257970);
    v := Next(22, v, 0x12dcbfdb, 0xa7a3623f, 0x49f5114a);
    v := Next(23, v, 0xe2e2c38e, 0xc5d53d8d, 0xaa47c347);
  }

  lemma Rounds24()
    requires |Block()| == 64
    ensures Rounds(INITIAL, Block(), 28) ==
            Hash(0x77d37528, 0xb62ec4bc, 0xcde8037d, 0x1c2c2838, 0xedffbff8, 0xc74c6516, 0x14383d8e, 0x2823ef91)
  {
    hide Block, W, Rounds;
    Schedule1();
    Rounds20();
    var v := Rounds(INITIAL, Block(), 24);
    v := Next(24, v, 0xc8215c1a, 0x1c2c2838, 0x2823ef91);
    v := Next(25, v, 0xb73679a2, 0xcde8037d, 0x14383d8e);
    v := Next(26, v, 0xe5bc3909, 0xb62ec4bc, 0xc74c6516);
    v := Next(27, v, 0x32663c5b, 0x77d37528, 0xedffbff8);
  }

  lemma Rounds28()
    requires |Block()| == 64
    ensures Rounds(INITIAL, Block(), 32) ==
            Hash(0x73b33bf5, 0xea992a22, 0xa0060b30, 0x363482c9, 0xba591112, 0x0109ab3a, 0xade79437, 0x6112a3b7)
  {
    hide Block, W, Rounds;
    Schedule1();
    Rounds24();
    var v := Rounds(INITIAL, Block(), 28);
    v := Next(28, v, 0x9d209d67, 0x363482c9, 0x6112a3b7);
    v := Next(29, v, 0xec8726cb, 0xa0060b30, 0xade79437);
    v := Next(30, v, 0x702138a4, 0xea992a22, 0x0109ab3a);
    v := Next(31, v, 0xd3b7973b, 0x73b33bf5, 0xba591112);
  }

  lemma Rounds32()
    requires |Block()| == 64
    ensures Rounds(INITIAL, Block(), 36) ==
            Hash(0x65a0cfe4, 0xa9a7738c, 0xfe604df5, 0x98e12507, 0xf4b002d6, 0x085f3833, 0x59249dd3, 0x9cd9f5f6)
  {
    hide Block, W, Rounds;
    Schedule2();
    Rounds28();
    var v := Rounds(INITIAL, Block(), 32);
    v := Next(32, v, 0x93f5997f, 0x98e12507, 0x9cd9f5f6);
    v := Next(33, v, 0x3b68ba73, 0xfe604df5, 0x59249dd3);
    v := Next(34, v, 0xaff4ffc1, 0xa9a7738c, 0x085f3833);
    v := Next(35, v, 0xf10a5c62, 0x65a0cfe4, 0xf4b002d6);
  }

  lemma Rounds36()
    requires |Block()| == 64
    ensures Rounds(INITIAL, Block(), 40) ==
            Hash(0x79ea687a, 0x6dc57a8a, 0x34df1604, 0x41a65cb1, 0x1efbc0a0, 0xf0781bc8, 0xa507a53d, 0x0772a26b)
  {
    hide Block, W, Rounds;
    Schedule2();
    Rounds32();
    var v := Rounds(INITIAL, Block(), 36);
    v := Next(36, v, 0x0a8b3996, 0x41a65cb1, 0x0772a26b);
    v := Next(37, v, 0x72af830a, 0x34df1604, 0xa507a53d);
    v := Next(38, v, 0x9409e33e, 0x6dc57a8a, 0xf0781bc8);
    v := Next(39, v, 0x24641522, 0x79ea687a, 0x1efbc0a0);
  }

  lemma Rounds40()
    requires |Block()| == 64
    ensures Rounds(INITIAL, Block(), 44) ==
            Hash(0x9d4baf93, 0x17aa0dfe, 0xdf46652f, 0xd6670766, 0xfda24c2e, 0xdecd4715, 0x838b2711, 0x26352d63)
  {
    hide Block, W, Rounds;
    Schedule2();
    Rounds36();
    var v := Rounds(INITIAL, Block(), 40);
    v := Next(40, v, 0x9f47bf94, 0xd6670766, 0x26352d63);
    v := Next(41, v, 0xf0a64f5a, 0xdf46652f, 0x838b2711);
    v := Next(42, v, 0x3e246a79, 0x17aa0dfe, 0xdecd4715);
    v := Next(43, v, 0x27333ba3, 0x9d4baf93, 0xfda24c2e);
  }

  lemma Rounds44()
    requires |Block()| == 64
    ensures Rounds(INITIAL, Block(), 48) ==
            Hash(0x4172328d, 0xa14c14b0, 0x72ab4b91, 0x26628815, 0xfecf0bc6, 0xd57b94a9, 0xb7755da1, 0xa80f11f0)
  {
    hide Block, W, Rounds;
    Schedule2();
    Rounds40();
    var v := Rounds(INITIAL, Block(), 44);
    v := Next(44, v, 0x0c4763f2, 0x26628815, 0xa80f11f0);
    v := Next(45, v, 0x840abf27, 0x72ab4b91, 0xb7755da1);
    v := Next(46, v, 0x7a290d5d, 0xa14c14b0, 0xd57b94a9);
    v := Next(47, v, 0x065c43da, 0x4172328d, 0xfecf0bc6);
  }

  lemma Rounds48()
    requires |Block()| == 64
    ensures Rounds(INITIAL, Block(), 52) ==
            Hash(0x886e7a22, 0x7a0508a1, 0xf11bfaa8, 0x05757ceb, 0x49231c1e, 0x52f1ccf7, 0x6e5c390c, 0xbd714038)
  {
    hide Block, W, Rounds;
    Schedule3();
    Rounds44();
    var v := Rounds(INITIAL, Block(), 48);
    v := Next(48, v, 0xfb3e89cb, 0x05757ceb, 0xbd714038);
    v := Next(49, v, 0xcc7617db, 0xf11bfaa8, 0x6e5c390c);
    v := Next(50, v, 0xb9e66c34, 0x7a0508a1, 0x52f1ccf7);
    v := Next(51, v, 0xa9993667, 0x886e7a22, 0x49231c1e);
  }

  lemma Rounds52()
    requires |Block()| == 64
    ensures Rounds(INITIAL, Block(), 56) ==
            Hash(0x38cc9913, 0x3ec45cdb, 0xf5702fdb, 0x101fd28f, 0x54cb266b, 0xe50e1b4f, 0x9f4787c3, 0x529e7d00)
  {
    hide Block, W, Rounds;
    Schedule3();
    Rounds48();
    var v := Rounds(INITIAL, Block(), 52);
    v := Next(52, v, 0x84badedd, 0x101fd28f, 0x529e7d00);
    v := Next(53, v, 0xc21462bc, 0xf5702fdb, 0x9f4787c3);
    v := Next(54, v, 0x1487472c, 0x3ec45cdb, 0xe50e1b4f);
    v := Next(55, v, 0xb20f7a99, 0x38cc9913, 0x54cb266b);
  }

  lemma Rounds56()
    requires |Block()| == 64
    ensures Rounds(INITIAL, Block(), 60) ==
            Hash(0xb6ae8fff, 0xffb70472, 0xc062d46f, 0xfcd1887b, 0xb21bad3d, 0x6d83bfc6, 0x7e44008e, 0x9b5e906c)
  {
    hide Block, W, Rounds;
    Schedule3();
    Rounds52();
    var v := Rounds(INITIAL, Block(), 56);
    v := Next(56, v, 0xef57b9cd, 0xfcd1887b, 0x9b5e906c);
    v := Next(57, v, 0xebe6b238, 0xc062d46f, 0x7e44008e);
    v := Next(58, v, 0x9fe3095e, 0xffb70472, 0x6d83bfc6);
    v := Next(59, v, 0x78bc8d4b, 0xb6ae8fff, 0xb21bad3d);
  }

  lemma Rounds60()
    requires |Block()| == 64
    ensures Rounds(INITIAL, Block(), 64) ==
            Hash(0x506e3058, 0xd39a2165, 0x04d24d6c, 0xb85e2ce9, 0x5ef50f24, 0xfb121210, 0x948d25b6, 0x961f4894)
  {
    hide Block, W, Rounds;
    Schedule3();
    Rounds56();
    var v := Rounds(INITIAL, Block(), 60);
    v := Next(60, v, 0xa43fcf15, 0xb85e2ce9, 0x961f4894);
    v := Next(61, v, 0x668b2ff8, 0x04d24d6c, 0x948d25b6);
    v := Next(62, v, 0xeeaba2cc, 0xd39a2165, 0xfb121210);
    v := Next(63, v, 0x12b1edeb, 0x506e3058, 0x5ef50f24);
  }

  lemma Start() returns (v: Hash)
    requires |Block()| == 64
    ensures v == INITIAL == Rounds(INITIAL, Block(), 0)
  {
    v := INITIAL;
  }

  lemma OneBlock(p: seq<byte>)
    requires |p| == 64
    ensures HashBlocks(p) == Plus(INITIAL, Rounds(INITIAL, p, 64))
  {
    assert p[..0] == [] && p[0..] == p;
    assert HashBlocks(p[..0]) == INITIAL;
  }

  lemma Summed()
    ensures Plus(INITIAL,
                 Hash(0x506e3058, 0xd39a2165, 0x04d24d6c, 0xb85e2ce9,
                      0x5ef50f24, 0xfb121210, 0x948d25b6, 0x961f4894)) ==
            Hash(0xba7816bf, 0x8f01cfea, 0x414140de, 0x5dae2223, 0xb00361a3, 0x96177a9c, 0xb410ff61, 0xf20015ad)
  {
  }

  lemma {:induction false} ConcatAppend(ws: seq<word>, vs: seq<word>)
    ensures Concat(ws + vs) == Concat(ws) + Concat(vs)
  {
    hide Bytes;
    if vs == [] {
      assert ws + vs == ws;
    } else {
      var n := |vs| - 1;
      ConcatAppend(ws, vs[..n]);
      assert (ws + vs)[..|ws| + n] == ws + vs[..n];
    }
  }

  lemma TwoWords(v: word, w: word)
    ensures Concat([v, w]) == Bytes(v) + Bytes(w)
  {
    hide Bytes;
    assert [v, w][..1] == [v] && [v][..0] == [];
  }

  lemma FourWords(u: word, v: word, w: word, x: word)
    ensures Concat([u, v, w, x]) == Bytes(u) + Bytes(v) + (Bytes(w) + Bytes(x))
  {
    hide Bytes, Concat;
    assert [u, v] + [w, x] == [u, v, w, x];
    ConcatAppend([u, v], [w, x]);
    TwoWords(u, v);
    TwoWords(w, x);
  }

  lemma EightWords(v: Hash)
    ensures Digest(v) ==
            (Bytes(v.a) + Bytes(v.b) + (Bytes(v.c) + Bytes(v.d))) +
            (Bytes(v.e) + Bytes(v.f) + (Bytes(v.g) + Bytes(v.h)))
  {
    hide Bytes, Concat;
    assert [v.a, v.b, v.c, v.d] + [v.e, v.f, v.g, v.h] == [v.a, v.b, v.c, v.d, v.e, v.f, v.g, v.h];
    ConcatAppend([v.a, v.b, v.c, v.d], [v.e, v.f, v.g, v.h]);
    FourWords(v.a, v.b, v.c, v.d);
    FourWords(v.e, v.f, v.g, v.h);
  }

  // The digest of "abc" that FIPS 180-4's examples give.
  lemma AbcDigest()
    ensures Sha256(ABC) ==
            [0xba, 0x78, 0x16, 0xbf, 0x8f, 0x01, 0xcf, 0xea] +
            [0x41, 0x41, 0x40, 0xde, 0x5d, 0xae, 0x22, 0x23] +
            [0xb0, 0x03, 0x61, 0xa3, 0x96, 0x17, 0x7a, 0x9c] +
            [0xb4, 0x10, 0xff, 0x61, 0xf2, 0x00, 0x15, 0xad]
  {
    hide Rounds, Plus, Digest, Block, Bytes, Pad, HashBlocks, Concat;
    Padded();
    Rounds60();
    OneBlock(Block());
    Summed();
    EightWords(HashBlocks(Block()));
    Written();
  }

  lemma Written()
    ensures Bytes(0xba7816bf) == [0xba, 0x78, 0x16, 0xbf]
    ensures Bytes(0x8f01cfea) == [0x8f, 0x01, 0xcf, 0xea]
    ensures Bytes(0x414140de) == [0x41, 0x41, 0x40, 0xde]
    ensures Bytes(0x5dae2223) == [0x5d, 0xae, 0x22, 0x23]
    ensures Bytes(0xb00361a3) == [0xb0, 0x03, 0x61, 0xa3]
    ensures Bytes(0x96177a9c) == [0x96, 0x17, 0x7a, 0x9c]
    ensures Bytes(0xb410ff61) == [0xb4, 0x10, 0xff, 0x61]
    ensures Bytes(0xf20015ad) == [0xf2, 0x00, 0x15, 0xad]
  {
  }
}
