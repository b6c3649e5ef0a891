/**
 Hashes worked out step by step: fixed keys, with every word of state on the way. The text is the one that the
 author of the hash gives with its results.
 */
module KnownHashes {
  import opened Numbers
  import opened Lookup3
  import opened MachineWords
  import opened HashBytes

  /** The powers of two that the rotations need. */
  lemma Table()
    ensures Pow2(4) == 16 && Pow2(6) == 64 && Pow2(7) == 128 && Pow2(8) == 256 && Pow2(11) == 2048 && Pow2(13) == 8192
    ensures Pow2(14) == 16384 && Pow2(16) == 65536 && Pow2(18) == 262144 && Pow2(19) == 524288 && Pow2(21) == 2097152
    ensures Pow2(24) == 16777216 && Pow2(25) == 33554432 && Pow2(26) == 67108864 && Pow2(28) == 268435456
  {
  }

  /** `y` rotated by `k`, where `m` and `n` are the powers of `k` and of the rest of the word. */
  function Turned(y: Uint32, m: int, n: int): int
    requires n > 0
  {
    y % n * m + y / n
  }

  lemma Turns(y: Uint32, k: nat, m: int, n: int)
    requires 0 < k < 32 && m == Pow2(k) && n == Pow2(32 - k)
    ensures Rot(y, k) == Turned(y, m, n)
  {
    hide Pow2, Rot;
    RotParts(y, k);
  }

  /** An exclusive or, of words given once as words and once as numbers. */
  lemma XorOf(x: bv32, y: bv32, a: Uint32, b: Uint32, c: Uint32)
    requires Val(x) == a && Val(y) == b && Val(x ^ y) == c
    ensures Xor(a, b) == c
  {
    hide Xor, Val;
    XorIsMachine(x, y);
  }

  lemma {:induction false} NoDifference(x: nat, n: nat)
    ensures XorBits(x, x, n) == 0
  {
    if n > 0 { NoDifference(x / 2, n - 1); }
  }

  lemma XorSelf(x: Uint32)
    ensures Xor(x, x) == 0
  {
    NoDifference(x, 32);
  }

  /** One step of `final`: `w` is the exclusive or, `z` the result. */
  lemma FoldTo(x: Uint32, y: Uint32, k: nat, m: int, n: int, w: Uint32, z: Uint32)
    requires 0 < k < 32 && m == Pow2(k) && n == Pow2(32 - k)
    requires Xor(x, y) == w && z == (w - Turned(y, m, n)) % TWO32
    ensures Fold(x, y, k) == z
  {
    hide Pow2, Rot, Xor, Turned;
    Turns(y, k, m, n);
  }

  /** One step of `mix`: `d` is the difference, `r` the rotated word, `w` and `v` the results. */
  lemma StirTo(x: Uint32, y: Uint32, z: Uint32, k: nat, m: int, n: int, d: Uint32, r: Uint32, w: Uint32, v: Uint32)
    requires 0 < k < 32 && m == Pow2(k) && n == Pow2(32 - k)
    requires d == (x - z) % TWO32 && r == Turned(z, m, n) && Xor(d, r) == w && v == (z + y) % TWO32
    ensures Stir(Triple(x, y, z), k) == Triple(w, y, v)
  {
    hide Pow2, Rot, Xor, Turned;
    Turns(z, k, m, n);
  }

  // ---- Nothing ----

  /** An empty key is not mixed, and leaves the second result as it came. */
  lemma HashOfNothing(initval: Uint32)
    ensures WordHash([], initval).c == (3735928559 + initval) % 4294967296
    ensures ByteHash([], initval) == ((3735928559 + initval) % 4294967296, initval)
  {
  }

  // ---- The key 0 ----

  lemma XorsOfFinalOfZero()
    ensures Xor(0xdeadbef3, 0xdeadbef3) == 0x00000000 && Xor(0xdeadbef3, 0x90430855) == 0x4eeeb6a6
    ensures Xor(0xdeadbef3, 0x36ac0a24) == 0xe801b4d7 && Xor(0x90430855, 0x9f945cc3) == 0x0fd75496
    ensures Xor(0x36ac0a24, 0xb313b502) == 0x85bfbf26 && Xor(0x9f945cc3, 0x54846efb) == 0xcb103238
    ensures Xor(0xb313b502, 0xaf515d17) == 0x1c42e815
  {
    hide Xor;
    XorSelf(0xdeadbef3);
    XorOf(0xdeadbef3, 0x90430855, 0xdeadbef3, 0x90430855, 0x4eeeb6a6);
    XorOf(0xdeadbef3, 0x36ac0a24, 0xdeadbef3, 0x36ac0a24, 0xe801b4d7);
    XorOf(0x90430855, 0x9f945cc3, 0x90430855, 0x9f945cc3, 0x0fd75496);
    XorOf(0x36ac0a24, 0xb313b502, 0x36ac0a24, 0xb313b502, 0x85bfbf26);
    XorOf(0x9f945cc3, 0x54846efb, 0x9f945cc3, 0x54846efb, 0xcb103238);
    XorOf(0xb313b502, 0xaf515d17, 0xb313b502, 0xaf515d17, 0x1c42e815);
  }

  lemma FinalOfZero()
    ensures Final(State(0xdeadbef3, 0xdeadbef3, 0xdeadbef3)) == State(0x54846efb, 0xaf515d17, 0x049396b8)
  {
    hide Fold, Xor, Pow2;
    Table();
    XorsOfFinalOfZero();
    FoldTo(0xdeadbef3, 0xdeadbef3, 14, 16384, 262144, 0x00000000, 0x90430855);
    FoldTo(0xdeadbef3, 0x90430855, 11, 2048, 2097152, 0x4eeeb6a6, 0x36ac0a24);
    FoldTo(0xdeadbef3, 0x36ac0a24, 25, 33554432, 128, 0xe801b4d7, 0x9f945cc3);
    FoldTo(0x90430855, 0x9f945cc3, 16, 65536, 65536, 0x0fd75496, 0xb313b502);
    FoldTo(0x36ac0a24, 0xb313b502, 4, 16, 268435456, 0x85bfbf26, 0x54846efb);
    FoldTo(0x9f945cc3, 0x54846efb, 14, 16384, 262144, 0xcb103238, 0xaf515d17);
    FoldTo(0xb313b502, 0xaf515d17, 24, 16777216, 256, 0x1c42e815, 0x049396b8);
  }

  lemma HashOfZero()
    ensures WordHash([0], 0).c == 76781240
  {
    hide Final, Mix;
    FinalOfZero();
  }

  // ---- The key 1, 2, 3, 4 ----

  lemma XorsOfMixOfFour()
    ensures Xor(0xfffffffe, 0xeadbf02d) == 0x15240fd3 && Xor(0xc989af2e, 0x4903f4c5) == 0x808a5beb
    ensures Xor(0x3cd12218, 0x8a5beb80) == 0xb68ac998 && Xor(0x1bf4c43e, 0xc998b68a) == 0xd26c72b4
    ensures Xor(0x809d770d, 0x95a69363) == 0x153be46e && Xor(0xf458ceeb, 0x53be46e1) == 0xa7e6880a
  {
    hide Xor;
    XorOf(0xfffffffe, 0xeadbf02d, 0xfffffffe, 0xeadbf02d, 0x15240fd3);
    XorOf(0xc989af2e, 0x4903f4c5, 0xc989af2e, 0x4903f4c5, 0x808a5beb);
    XorOf(0x3cd12218, 0x8a5beb80, 0x3cd12218, 0x8a5beb80, 0xb68ac998);
    XorOf(0x1bf4c43e, 0xc998b68a, 0x1bf4c43e, 0xc998b68a, 0xd26c72b4);
    XorOf(0x809d770d, 0x95a69363, 0x809d770d, 0x95a69363, 0x153be46e);
    XorOf(0xf458ceeb, 0x53be46e1, 0xf458ceeb, 0x53be46e1, 0xa7e6880a);
  }

  lemma MixOfFour()
    ensures Mix(State(0xdeadbf00, 0xdeadbf01, 0xdeadbf02)) == State(0xdc01260d, 0xf13d0a7b, 0xa7e6880a)
  {
    hide Stir, Xor, Pow2;
    Table();
    XorsOfMixOfFour();
    StirTo(0xdeadbf00, 0xdeadbf01, 0xdeadbf02, 4, 16, 268435456, 0xfffffffe, 0xeadbf02d, 0x15240fd3, 0xbd5b7e03);
    StirTo(0xdeadbf01, 0xbd5b7e03, 0x15240fd3, 6, 64, 67108864, 0xc989af2e, 0x4903f4c5, 0x808a5beb, 0xd27f8dd6);
    StirTo(0xbd5b7e03, 0xd27f8dd6, 0x808a5beb, 8, 256, 16777216, 0x3cd12218, 0x8a5beb80, 0xb68ac998, 0x5309e9c1);
    StirTo(0xd27f8dd6, 0x5309e9c1, 0xb68ac998, 16, 65536, 65536, 0x1bf4c43e, 0xc998b68a, 0xd26c72b4, 0x0994b359);
    StirTo(0x5309e9c1, 0x0994b359, 0xd26c72b4, 19, 524288, 8192, 0x809d770d, 0x95a69363, 0x153be46e, 0xdc01260d);
    StirTo(0x0994b359, 0xdc01260d, 0x153be46e, 4, 16, 268435456, 0xf458ceeb, 0x53be46e1, 0xa7e6880a, 0xf13d0a7b);
  }

  lemma XorsOfFinalOfFour()
    ensures Xor(0xa7e6880a, 0xf13d0a7b) == 0x56db8271 && Xor(0xdc012611, 0x143c8622) == 0xc83da033
    ensures Xor(0xf13d0a7b, 0xe40c8f92) == 0x153185e9 && Xor(0x143c8622, 0xef696cca) == 0xfb55eae8
    ensures Xor(0xe40c8f92, 0x8e8afb7f) == 0x6a8674ed && Xor(0xef696cca, 0x81d6bcf5) == 0x6ebfd03f
    ensures Xor(0x8e8afb7f, 0xbf826fca) == 0x310894b5
  {
    hide Xor;
    XorOf(0xa7e6880a, 0xf13d0a7b, 0xa7e6880a, 0xf13d0a7b, 0x56db8271);
    XorOf(0xdc012611, 0x143c8622, 0xdc012611, 0x143c8622, 0xc83da033);
    XorOf(0xf13d0a7b, 0xe40c8f92, 0xf13d0a7b, 0xe40c8f92, 0x153185e9);
    XorOf(0x143c8622, 0xef696cca, 0x143c8622, 0xef696cca, 0xfb55eae8);
    XorOf(0xe40c8f92, 0x8e8afb7f, 0xe40c8f92, 0x8e8afb7f, 0x6a8674ed);
    XorOf(0xef696cca, 0x81d6bcf5, 0xef696cca, 0x81d6bcf5, 0x6ebfd03f);
    XorOf(0x8e8afb7f, 0xbf826fca, 0x8e8afb7f, 0xbf826fca, 0x310894b5);
  }

  lemma FinalOfFour()
    ensures Final(State(0xdc012611, 0xf13d0a7b, 0xa7e6880a)) == State(0x81d6bcf5, 0xbf826fca, 0x66491246)
  {
    hide Fold, Xor, Pow2;
    Table();
    XorsOfFinalOfFour();
    FoldTo(0xa7e6880a, 0xf13d0a7b, 14, 16384, 262144, 0x56db8271, 0x143c8622);
    FoldTo(0xdc012611, 0x143c8622, 11, 2048, 2097152, 0xc83da033, 0xe40c8f92);
    FoldTo(0xf13d0a7b, 0xe40c8f92, 25, 33554432, 128, 0x153185e9, 0xef696cca);
    FoldTo(0x143c8622, 0xef696cca, 16, 65536, 65536, 0xfb55eae8, 0x8e8afb7f);
    FoldTo(0xe40c8f92, 0x8e8afb7f, 4, 16, 268435456, 0x6a8674ed, 0x81d6bcf5);
    FoldTo(0xef696cca, 0x81d6bcf5, 14, 16384, 262144, 0x6ebfd03f, 0xbf826fca);
    FoldTo(0x8e8afb7f, 0xbf826fca, 24, 16777216, 256, 0x310894b5, 0x66491246);
  }

  lemma HashOfFour()
    ensures WordHash([1, 2, 3, 4], 0).c == 1716064838
  {
    hide Final, Mix, AddBlock;
    var k := [1, 2, 3, 4];
    FirstBlockOfFour();
    LastBlockOfFour();
    ResultOfFour();
    MixOfFour();
    FinalOfFour();
    assert AfterBlocks(k, Begin(16, 0), 0) == Begin(16, 0);
    assert AfterBlocks(k, Begin(16, 0), 1) == State(0xdc01260d, 0xf13d0a7b, 0xa7e6880a);
  }

  lemma FirstBlockOfFour()
    ensures AddBlock(Begin(16, 0), 1, 2, 3) == State(0xdeadbf00, 0xdeadbf01, 0xdeadbf02)
  {
  }

  lemma LastBlockOfFour()
    ensures AddBlock(State(0xdc01260d, 0xf13d0a7b, 0xa7e6880a), 4, 0, 0) ==
      State(0xdc012611, 0xf13d0a7b, 0xa7e6880a)
  {
  }

  lemma ResultOfFour()
    ensures State(0x81d6bcf5, 0xbf826fca, 0x66491246).c == 1716064838
  {
  }

  // ---- A text ----

  /** "Four score and seven years ago". */
  function Text(): seq<Byte> {
    [70, 111, 117, 114, 32, 115, 99, 111, 114, 101, 32, 97, 110, 100, 32, 115, 101, 118, 101, 110, 32, 121, 101, 97,
     114, 115, 32, 97, 103, 111]
  }

  lemma XorsOfFirstMixOfText()
    ensures Xor(0x115509d4, 0xfce247f3) == 0xedb74e27 && Xor(0x6059e406, 0x6dd389fb) == 0x0d8a6dfd
    ensures Xor(0x8054e8af, 0x8a6dfd0d) == 0x0a3915a2 && Xor(0x715d8f31, 0x15a20a39) == 0x64ff8508
    ensures Xor(0x24218dc8, 0x284327fc) == 0x0c62aa34 && Xor(0x86f77e3e, 0xc62aa340) == 0x40dddd7e
  {
    hide Xor;
    XorOf(0x115509d4, 0xfce247f3, 0x115509d4, 0xfce247f3, 0xedb74e27);
    XorOf(0x6059e406, 0x6dd389fb, 0x6059e406, 0x6dd389fb, 0x0d8a6dfd);
    XorOf(0x8054e8af, 0x8a6dfd0d, 0x8054e8af, 0x8a6dfd0d, 0x0a3915a2);
    XorOf(0x715d8f31, 0x15a20a39, 0x715d8f31, 0x15a20a39, 0x64ff8508);
    XorOf(0x24218dc8, 0x284327fc, 0x24218dc8, 0x284327fc, 0x0c62aa34);
    XorOf(0x86f77e3e, 0xc62aa340, 0x86f77e3e, 0xc62aa340, 0x40dddd7e);
  }

  lemma FirstMixOfText()
    ensures Mix(State(0x51232e53, 0x4e11322d, 0x3fce247f)) == State(0xf859ad7a, 0x04bc57ae, 0x40dddd7e)
  {
    hide Stir, Xor, Pow2;
    Table();
    XorsOfFirstMixOfText();
    StirTo(0x51232e53, 0x4e11322d, 0x3fce247f, 4, 16, 268435456, 0x115509d4, 0xfce247f3, 0xedb74e27, 0x8ddf56ac);
    StirTo(0x4e11322d, 0x8ddf56ac, 0xedb74e27, 6, 64, 67108864, 0x6059e406, 0x6dd389fb, 0x0d8a6dfd, 0x7b96a4d3);
    StirTo(0x8ddf56ac, 0x7b96a4d3, 0x0d8a6dfd, 8, 256, 16777216, 0x8054e8af, 0x8a6dfd0d, 0x0a3915a2, 0x892112d0);
    StirTo(0x7b96a4d3, 0x892112d0, 0x0a3915a2, 16, 65536, 65536, 0x715d8f31, 0x15a20a39, 0x64ff8508, 0x935a2872);
    StirTo(0x892112d0, 0x935a2872, 0x64ff8508, 19, 524288, 8192, 0x24218dc8, 0x284327fc, 0x0c62aa34, 0xf859ad7a);
    StirTo(0x935a2872, 0xf859ad7a, 0x0c62aa34, 4, 16, 268435456, 0x86f77e3e, 0xc62aa340, 0x40dddd7e, 0x04bc57ae);
  }

  lemma XorsOfSecondMixOfText()
    ensures Xor(0xc936bb4a, 0x243569ea) == 0xed03d2a0 && Xor(0x861dfb73, 0x40f4a83b) == 0xc6e95348
    ensures Xor(0x4e7bd169, 0xe95348c6) == 0xa72899af && Xor(0x5b405da2, 0x99afa728) == 0xc2effa8a
    ensures Xor(0x0662500f, 0xd456177f) == 0xd2344770 && Xor(0x9e469cd8, 0x2344770d) == 0xbd02ebd5
  {
    hide Xor;
    XorOf(0xc936bb4a, 0x243569ea, 0xc936bb4a, 0x243569ea, 0xed03d2a0);
    XorOf(0x861dfb73, 0x40f4a83b, 0x861dfb73, 0x40f4a83b, 0xc6e95348);
    XorOf(0x4e7bd169, 0xe95348c6, 0x4e7bd169, 0xe95348c6, 0xa72899af);
    XorOf(0x5b405da2, 0x99afa728, 0x5b405da2, 0x99afa728, 0xc2effa8a);
    XorOf(0x0662500f, 0xd456177f, 0x0662500f, 0xd456177f, 0xd2344770);
    XorOf(0x9e469cd8, 0x2344770d, 0x9e469cd8, 0x2344770d, 0xbd02ebd5);
  }

  lemma SecondMixOfText()
    ensures Mix(State(0x6b7a11e8, 0x7321ce13, 0xa243569e)) == State(0x336aded2, 0x059f2642, 0xbd02ebd5)
  {
    hide Stir, Xor, Pow2;
    Table();
    XorsOfSecondMixOfText();
    StirTo(0x6b7a11e8, 0x7321ce13, 0xa243569e, 4, 16, 268435456, 0xc936bb4a, 0x243569ea, 0xed03d2a0, 0x156524b1);
    StirTo(0x7321ce13, 0x156524b1, 0xed03d2a0, 6, 64, 67108864, 0x861dfb73, 0x40f4a83b, 0xc6e95348, 0x0268f751);
    StirTo(0x156524b1, 0x0268f751, 0xc6e95348, 8, 256, 16777216, 0x4e7bd169, 0xe95348c6, 0xa72899af, 0xc9524a99);
    StirTo(0x0268f751, 0xc9524a99, 0xa72899af, 16, 65536, 65536, 0x5b405da2, 0x99afa728, 0xc2effa8a, 0x707ae448);
    StirTo(0xc9524a99, 0x707ae448, 0xc2effa8a, 19, 524288, 8192, 0x0662500f, 0xd456177f, 0xd2344770, 0x336aded2);
    StirTo(0x707ae448, 0x336aded2, 0xd2344770, 4, 16, 268435456, 0x9e469cd8, 0x2344770d, 0xbd02ebd5, 0x059f2642);
  }

  lemma XorsOfFinalOfText()
    ensures Xor(0xbd02ebd5, 0x059f95a9) == 0xb89d7e7c && Xor(0x948b5244, 0xd3333d15) == 0x47b86f51
    ensures Xor(0x059f95a9, 0xadcfc0b8) == 0xa8505511 && Xor(0xd3333d15, 0x36f4b590) == 0xe5c78885
    ensures Xor(0xadcfc0b8, 0x30375191) == 0x9df89129 && Xor(0x36f4b590, 0x9a837816) == 0xac77cd86
    ensures Xor(0x30375191, 0xce7226e6) == 0xfe457777
  {
    hide Xor;
    XorOf(0xbd02ebd5, 0x059f95a9, 0xbd02ebd5, 0x059f95a9, 0xb89d7e7c);
    XorOf(0x948b5244, 0xd3333d15, 0x948b5244, 0xd3333d15, 0x47b86f51);
    XorOf(0x059f95a9, 0xadcfc0b8, 0x059f95a9, 0xadcfc0b8, 0xa8505511);
    XorOf(0xd3333d15, 0x36f4b590, 0xd3333d15, 0x36f4b590, 0xe5c78885);
    XorOf(0xadcfc0b8, 0x30375191, 0xadcfc0b8, 0x30375191, 0x9df89129);
    XorOf(0x36f4b590, 0x9a837816, 0x36f4b590, 0x9a837816, 0xac77cd86);
    XorOf(0x30375191, 0xce7226e6, 0x30375191, 0xce7226e6, 0xfe457777);
  }

  lemma FinalOfText()
    ensures Final(State(0x948b5244, 0x059f95a9, 0xbd02ebd5)) == State(0x9a837816, 0xce7226e6, 0x17770551)
  {
    hide Fold, Xor, Pow2;
    Table();
    XorsOfFinalOfText();
    FoldTo(0xbd02ebd5, 0x059f95a9, 14, 16384, 262144, 0xb89d7e7c, 0xd3333d15);
    FoldTo(0x948b5244, 0xd3333d15, 11, 2048, 2097152, 0x47b86f51, 0xadcfc0b8);
    FoldTo(0x059f95a9, 0xadcfc0b8, 25, 33554432, 128, 0xa8505511, 0x36f4b590);
    FoldTo(0xd3333d15, 0x36f4b590, 16, 65536, 65536, 0xe5c78885, 0x30375191);
    FoldTo(0xadcfc0b8, 0x30375191, 4, 16, 268435456, 0x9df89129, 0x9a837816);
    FoldTo(0x36f4b590, 0x9a837816, 14, 16384, 262144, 0xac77cd86, 0xce7226e6);
    FoldTo(0x30375191, 0xce7226e6, 24, 16777216, 256, 0xfe457777, 0x17770551);
  }

  lemma WordOf(k: seq<Byte>, i: nat, a: Byte, b: Byte, c: Byte, d: Byte)
    requires KeyByte(k, i) == a && KeyByte(k, i + 1) == b && KeyByte(k, i + 2) == c && KeyByte(k, i + 3) == d
    ensures WordAt(k, i) == a + 256 * b + 65536 * c + 16777216 * d
  {
  }

  lemma FirstWordsOfText()
    ensures WordAt(Text(), 0) == 0x72756f46
  {
    hide WordAt;
    WordOf(Text(), 0, 70, 111, 117, 114);
  }

  lemma SecondWordsOfText()
    ensures WordAt(Text(), 4) == 0x6f637320 && WordAt(Text(), 8) == 0x61206572
  {
    hide WordAt;
    WordOf(Text(), 4, 32, 115, 99, 111);
    WordOf(Text(), 8, 114, 101, 32, 97);
  }

  lemma ThirdWordsOfText()
    ensures WordAt(Text(), 12) == 0x7320646e && WordAt(Text(), 16) == 0x6e657665
  {
    hide WordAt;
    WordOf(Text(), 12, 110, 100, 32, 115);
    WordOf(Text(), 16, 101, 118, 101, 110);
  }

  lemma FourthWordsOfText()
    ensures WordAt(Text(), 20) == 0x61657920 && WordAt(Text(), 24) == 0x61207372
  {
    hide WordAt;
    WordOf(Text(), 20, 32, 121, 101, 97);
    WordOf(Text(), 24, 114, 115, 32, 97);
  }

  lemma LastWordsOfText()
    ensures WordAt(Text(), 28) == 0x6f67 && WordAt(Text(), 32) == 0x0
  {
    hide WordAt;
    WordOf(Text(), 28, 103, 111, 0, 0);
    WordOf(Text(), 32, 0, 0, 0, 0);
  }

  lemma FirstBlockOfText()
    ensures Begin(30, 0) == State(3735928589, 3735928589, 3735928589)
    ensures AddBlock(Begin(30, 0), 0x72756f46, 0x6f637320, 0x61206572) == State(0x51232e53, 0x4e11322d, 0x3fce247f)
  {
  }

  lemma SecondBlockOfText()
    ensures AddBlock(State(0xf859ad7a, 0x04bc57ae, 0x40dddd7e), 0x7320646e, 0x6e657665, 0x61657920) ==
      State(0x6b7a11e8, 0x7321ce13, 0xa243569e)
  {
  }

  lemma LastBlockOfText()
    ensures AddBlock(State(0x336aded2, 0x059f2642, 0xbd02ebd5), 0x61207372, 0x6f67, 0) ==
      State(0x948b5244, 0x059f95a9, 0xbd02ebd5)
  {
  }

  lemma ResultOfText()
    ensures State(0x9a837816, 0xce7226e6, 0x17770551).c == 0x17770551
    ensures State(0x9a837816, 0xce7226e6, 0x17770551).b == 0xce7226e6
  {
  }

  /** Both results for the text. */
  lemma HashOfText()
    ensures ByteHash(Text(), 0) == (0x17770551, 0xce7226e6)
  {
    hide Final, Mix, WordAt, Text, AddBlock;
    var s := Begin(30, 0);
    TextLength();
    FirstWordsOfText();
    SecondWordsOfText();
    ThirdWordsOfText();
    FourthWordsOfText();
    LastWordsOfText();
    FirstBlockOfText();
    SecondBlockOfText();
    LastBlockOfText();
    ResultOfText();
    FirstMixOfText();
    SecondMixOfText();
    FinalOfText();
    assert AfterByteBlocks(Text(), s, 0) == s;
    assert AfterByteBlocks(Text(), s, 1) == State(0xf859ad7a, 0x04bc57ae, 0x40dddd7e);
    assert AfterByteBlocks(Text(), s, 2) == State(0x336aded2, 0x059f2642, 0xbd02ebd5);
  }

  lemma TextLength()
    ensures |Text()| == 30
  {
  }
}
