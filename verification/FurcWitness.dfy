/**
 A key on which the search gives up: among 16 shards it lives on shard 7, and adding a seventeenth
 shard sends it to shard 0, which is neither its old shard nor the new one.
 */
module FurcWitness {
  import opened Murmur
  import opened Furc

  const KEY: seq<bv8> := [0x0e, 0xeb, 0x0a, 0x90, 0xcf, 0xc9, 0x10, 0x6e]

  lemma NextWord(n: nat, w: bv64, v: bv64)
    requires Word(KEY, n) == w && Rehash(w) == v
    ensures Word(KEY, n + 1) == v
  {
    hide Rehash, Hash;
  }

  lemma FirstWord()
    ensures Word(KEY, 0) == 0x2a761e08c40e84ed
  {
    hide Hash;
    RehashIsHash(KEY);
    assert Load(KEY, 0) == 0x6e10c9cf900aeb0e;
    assert Rehash(0x6e10c9cf900aeb0e) == 0x2a761e08c40e84ed;
  }

  lemma Words0()
    ensures Word(KEY, 1) == 0x7fd5191bed969c7f
    ensures Word(KEY, 2) == 0xa66f37955cc453cc
    ensures Word(KEY, 3) == 0x68859935478a50c0
  {
    hide Word;
    FirstWord();
    NextWord(0, 0x2a761e08c40e84ed, 0x7fd5191bed969c7f);
    NextWord(1, 0x7fd5191bed969c7f, 0xa66f37955cc453cc);
    NextWord(2, 0xa66f37955cc453cc, 0x68859935478a50c0);
  }

  lemma Words1()
    ensures Word(KEY, 4) == 0x4b9fd39a594e0a60
    ensures Word(KEY, 5) == 0xaeef19ab7af88db8
    ensures Word(KEY, 6) == 0xa01e11e37b0d9367
  {
    hide Word;
    Words0();
    NextWord(3, 0x68859935478a50c0, 0x4b9fd39a594e0a60);
    NextWord(4, 0x4b9fd39a594e0a60, 0xaeef19ab7af88db8);
    NextWord(5, 0xaeef19ab7af88db8, 0xa01e11e37b0d9367);
  }

  lemma Words2()
    ensures Word(KEY, 7) == 0xbf464742d07661fe
    ensures Word(KEY, 8) == 0x8b82a8df51c17f01
    ensures Word(KEY, 9) == 0x59aaab92c7e77d3f
  {
    hide Word;
    Words1();
    NextWord(6, 0xa01e11e37b0d9367, 0xbf464742d07661fe);
    NextWord(7, 0xbf464742d07661fe, 0x8b82a8df51c17f01);
    NextWord(8, 0x8b82a8df51c17f01, 0x59aaab92c7e77d3f);
  }

  lemma Words3()
    ensures Word(KEY, 10) == 0x108c0b83de958c65
    ensures Word(KEY, 11) == 0x01e2f69ffac548fd
    ensures Word(KEY, 12) == 0x30d1956e3ae257cd
  {
    hide Word;
    Words2();
    NextWord(9, 0x59aaab92c7e77d3f, 0x108c0b83de958c65);
    NextWord(10, 0x108c0b83de958c65, 0x01e2f69ffac548fd);
    NextWord(11, 0x01e2f69ffac548fd, 0x30d1956e3ae257cd);
  }

  lemma Words4()
    ensures Word(KEY, 13) == 0x5b2d3ce9e1d30335
    ensures Word(KEY, 14) == 0x66b5159dece4981e
    ensures Word(KEY, 15) == 0xb5635916f9f48f3c
  {
    hide Word;
    Words3();
    NextWord(12, 0x30d1956e3ae257cd, 0x5b2d3ce9e1d30335);
    NextWord(13, 0x5b2d3ce9e1d30335, 0x66b5159dece4981e);
    NextWord(14, 0x66b5159dece4981e, 0xb5635916f9f48f3c);
  }

  lemma Words5()
    ensures Word(KEY, 16) == 0x975deb3ba6d38a05
    ensures Word(KEY, 17) == 0x089b7389d2f27bd3
    ensures Word(KEY, 18) == 0x562945f7db51171f
  {
    hide Word;
    Words4();
    NextWord(15, 0xb5635916f9f48f3c, 0x975deb3ba6d38a05);
    NextWord(16, 0x975deb3ba6d38a05, 0x089b7389d2f27bd3);
    NextWord(17, 0x089b7389d2f27bd3, 0x562945f7db51171f);
  }

  lemma Words6()
    ensures Word(KEY, 19) == 0x1561e5b835bf1339
    ensures Word(KEY, 20) == 0x251d60fb8700a8a3
    ensures Word(KEY, 21) == 0x406aeb718d4fd2ee
  {
    hide Word;
    Words5();
    NextWord(18, 0x562945f7db51171f, 0x1561e5b835bf1339);
    NextWord(19, 0x1561e5b835bf1339, 0x251d60fb8700a8a3);
    NextWord(20, 0x251d60fb8700a8a3, 0x406aeb718d4fd2ee);
  }

  lemma Words7()
    ensures Word(KEY, 22) == 0x8687f99668184841
    ensures Word(KEY, 23) == 0x7224db2f3ed84043
    ensures Word(KEY, 24) == 0x7f45d55a99d8b3d7
  {
    hide Word;
    Words6();
    NextWord(21, 0x406aeb718d4fd2ee, 0x8687f99668184841);
    NextWord(22, 0x8687f99668184841, 0x7224db2f3ed84043);
    NextWord(23, 0x7224db2f3ed84043, 0x7f45d55a99d8b3d7);
  }

  lemma Words8()
    ensures Word(KEY, 25) == 0xc193bb77c750bfdd
    ensures Word(KEY, 26) == 0x1b908d57b3130014
    ensures Word(KEY, 27) == 0x20c2898046c0f32e
  {
    hide Word;
    Words7();
    NextWord(24, 0x7f45d55a99d8b3d7, 0xc193bb77c750bfdd);
    NextWord(25, 0xc193bb77c750bfdd, 0x1b908d57b3130014);
    NextWord(26, 0x1b908d57b3130014, 0x20c2898046c0f32e);
  }

  lemma Words9()
    ensures Word(KEY, 28) == 0x80fceb9a5bde889c
    ensures Word(KEY, 29) == 0x9b63d41218f67ac3
    ensures Word(KEY, 30) == 0xb025cd8e9e5f25c3
  {
    hide Word;
    Words8();
    NextWord(27, 0x20c2898046c0f32e, 0x80fceb9a5bde889c);
    NextWord(28, 0x80fceb9a5bde889c, 0x9b63d41218f67ac3);
    NextWord(29, 0x9b63d41218f67ac3, 0xb025cd8e9e5f25c3);
  }

  lemma Words10()
    ensures Word(KEY, 31) == 0xe3319f61952037c7
    ensures Word(KEY, 32) == 0xc4d7b7982ad02ec3
    ensures Word(KEY, 33) == 0x36d7aa50092417ba
  {
    hide Word;
    Words9();
    NextWord(30, 0xb025cd8e9e5f25c3, 0xe3319f61952037c7);
    NextWord(31, 0xe3319f61952037c7, 0xc4d7b7982ad02ec3);
    NextWord(32, 0xc4d7b7982ad02ec3, 0x36d7aa50092417ba);
  }

  lemma Words11()
    ensures Word(KEY, 34) == 0x0ab2e0723f9e4669
    ensures Word(KEY, 35) == 0x9f2a623780db6af7
    ensures Word(KEY, 36) == 0x13d10e299f4b3dca
  {
    hide Word;
    Words10();
    NextWord(33, 0x36d7aa50092417ba, 0x0ab2e0723f9e4669);
    NextWord(34, 0x0ab2e0723f9e4669, 0x9f2a623780db6af7);
    NextWord(35, 0x9f2a623780db6af7, 0x13d10e299f4b3dca);
  }

  lemma Words12()
    ensures Word(KEY, 37) == 0xc6b335af926bb522
    ensures Word(KEY, 38) == 0x6d311bc167db639e
    ensures Word(KEY, 39) == 0x3b03bfe322110a45
  {
    hide Word;
    Words11();
    NextWord(36, 0x13d10e299f4b3dca, 0xc6b335af926bb522);
    NextWord(37, 0xc6b335af926bb522, 0x6d311bc167db639e);
    NextWord(38, 0x6d311bc167db639e, 0x3b03bfe322110a45);
  }

  lemma Words13()
    ensures Word(KEY, 40) == 0xb7d3d565c475e38d
    ensures Word(KEY, 41) == 0x1217614f8d1f82b2
    ensures Word(KEY, 42) == 0x97d96dff55889867
  {
    hide Word;
    Words12();
    NextWord(39, 0x3b03bfe322110a45, 0xb7d3d565c475e38d);
    NextWord(40, 0xb7d3d565c475e38d, 0x1217614f8d1f82b2);
    NextWord(41, 0x1217614f8d1f82b2, 0x97d96dff55889867);
  }

  lemma Words14()
    ensures Word(KEY, 43) == 0x6b5c141373aee8e8
    ensures Word(KEY, 44) == 0x4e8e3c6ab0ee9409
    ensures Word(KEY, 45) == 0x56b3e9f0f8a8d0bf
  {
    hide Word;
    Words13();
    NextWord(42, 0x97d96dff55889867, 0x6b5c141373aee8e8);
    NextWord(43, 0x6b5c141373aee8e8, 0x4e8e3c6ab0ee9409);
    NextWord(44, 0x4e8e3c6ab0ee9409, 0x56b3e9f0f8a8d0bf);
  }

  lemma Words15()
    ensures Word(KEY, 46) == 0x3f8f78071c599994
    ensures Word(KEY, 47) == 0x02c2c3cddcfd7e9a
    ensures Word(KEY, 48) == 0x8d8df4c34894df28
  {
    hide Word;
    Words14();
    NextWord(45, 0x56b3e9f0f8a8d0bf, 0x3f8f78071c599994);
    NextWord(46, 0x3f8f78071c599994, 0x02c2c3cddcfd7e9a);
    NextWord(47, 0x02c2c3cddcfd7e9a, 0x8d8df4c34894df28);
  }

  lemma Words16()
    ensures Word(KEY, 49) == 0xbabfda0a019705aa
    ensures Word(KEY, 50) == 0xa8fcb590fe4866f1
    ensures Word(KEY, 51) == 0xe0f35e5e448dd50e
  {
    hide Word;
    Words15();
    NextWord(48, 0x8d8df4c34894df28, 0xbabfda0a019705aa);
    NextWord(49, 0xbabfda0a019705aa, 0xa8fcb590fe4866f1);
    NextWord(50, 0xa8fcb590fe4866f1, 0xe0f35e5e448dd50e);
  }

  lemma Words17()
    ensures Word(KEY, 52) == 0x139e728aca8dd9f9
    ensures Word(KEY, 53) == 0x8ddd699bfa055587
    ensures Word(KEY, 54) == 0x5fcde244f4b02251
  {
    hide Word;
    Words16();
    NextWord(51, 0xe0f35e5e448dd50e, 0x139e728aca8dd9f9);
    NextWord(52, 0x139e728aca8dd9f9, 0x8ddd699bfa055587);
    NextWord(53, 0x8ddd699bfa055587, 0x5fcde244f4b02251);
  }

  lemma Words18()
    ensures Word(KEY, 55) == 0x1c3f8232dca78021
    ensures Word(KEY, 56) == 0x86a5f4e3ae9c98ee
  {
    hide Word;
    Words17();
    NextWord(54, 0x5fcde244f4b02251, 0x1c3f8232dca78021);
    NextWord(55, 0x1c3f8232dca78021, 0x86a5f4e3ae9c98ee);
  }

  function Bits(): Stream { StreamOf(Bytes(KEY)) }

  lemma KnownBit(i: nat, w: bv64)
    requires Word(KEY, i / 64) == w
    ensures Bits()(i) == (ShiftRight(w, i % 64) & 1 == 1)
  {
    hide ShiftRight, Word;
  }

  /** A set lead bit and one more set bit among the five write a number of at least 17. */
  lemma TooLarge(s: Stream, a: nat, j: nat)
    requires 1 <= j < 5 && s(a) && s(a + FURC_SHIFT * j)
    ensures Digits(s, a, 5) >= 17
  {
    assert Digits(s, a, 1) == 1;
    assert Digits(s, a, 2) == 2 + if s(a + FURC_SHIFT) then 1 else 0;
    assert Digits(s, a, 3) == 2 * Digits(s, a, 2) + if s(a + FURC_SHIFT * 2) then 1 else 0;
  }

  lemma NoTries()
    ensures Rejected(Bits(), 17, 5, 0, 0)
  {
  }

  /** One more rejected try: word `w` holds its lead bit, word `v` another set bit. */
  lemma OneMore(t: nat, a: nat, j: nat, w: bv64, v: bv64)
    requires a == 5 + 115 * t && 1 <= j < 5
    requires Word(KEY, a / 64) == w && ShiftRight(w, a % 64) & 1 == 1
    requires Word(KEY, (a + 23 * j) / 64) == v && ShiftRight(v, (a + 23 * j) % 64) & 1 == 1
    requires Rejected(Bits(), 17, 5, 0, t)
    ensures Rejected(Bits(), 17, 5, 0, t + 1)
  {
    hide ShiftRight, Word, Digits;
    TooLarge(Bits(), a, j);
    assert Start(5, t) == a;
    assert OutOfRange(Bits(), 17, 5, t);
  }

  lemma Try0()
    ensures Rejected(Bits(), 17, 5, 0, 1)
  {
    hide Word, Rejected, Bits;
    NoTries();
    FirstWord();
    Words0();
    OneMore(0, 5, 3, 0x2a761e08c40e84ed, 0x7fd5191bed969c7f);
  }

  lemma Try1()
    ensures Rejected(Bits(), 17, 5, 0, 2)
  {
    hide Word, Rejected, Bits;
    Try0();
    Words0();
    OneMore(1, 120, 3, 0x7fd5191bed969c7f, 0xa66f37955cc453cc);
  }

  lemma Try2()
    ensures Rejected(Bits(), 17, 5, 0, 3)
  {
    hide Word, Rejected, Bits;
    Try1();
    Words0();
    Words1();
    OneMore(2, 235, 3, 0x68859935478a50c0, 0x4b9fd39a594e0a60);
  }

  lemma Try3()
    ensures Rejected(Bits(), 17, 5, 0, 4)
  {
    hide Word, Rejected, Bits;
    Try2();
    Words1();
    OneMore(3, 350, 1, 0xaeef19ab7af88db8, 0xaeef19ab7af88db8);
  }

  lemma Try4()
    ensures Rejected(Bits(), 17, 5, 0, 5)
  {
    hide Word, Rejected, Bits;
    Try3();
    Words2();
    OneMore(4, 465, 1, 0xbf464742d07661fe, 0xbf464742d07661fe);
  }

  lemma Try5()
    ensures Rejected(Bits(), 17, 5, 0, 6)
  {
    hide Word, Rejected, Bits;
    Try4();
    Words2();
    Words3();
    OneMore(5, 580, 4, 0x59aaab92c7e77d3f, 0x108c0b83de958c65);
  }

  lemma Try6()
    ensures Rejected(Bits(), 17, 5, 0, 7)
  {
    hide Word, Rejected, Bits;
    Try5();
    Words3();
    OneMore(6, 695, 1, 0x108c0b83de958c65, 0x01e2f69ffac548fd);
  }

  lemma Try7()
    ensures Rejected(Bits(), 17, 5, 0, 8)
  {
    hide Word, Rejected, Bits;
    Try6();
    Words3();
    Words4();
    OneMore(7, 810, 2, 0x30d1956e3ae257cd, 0x5b2d3ce9e1d30335);
  }

  lemma Try8()
    ensures Rejected(Bits(), 17, 5, 0, 9)
  {
    hide Word, Rejected, Bits;
    Try7();
    Words4();
    OneMore(8, 925, 1, 0x66b5159dece4981e, 0x66b5159dece4981e);
  }

  lemma Try9()
    ensures Rejected(Bits(), 17, 5, 0, 10)
  {
    hide Word, Rejected, Bits;
    Try8();
    Words5();
    OneMore(9, 1040, 3, 0x975deb3ba6d38a05, 0x089b7389d2f27bd3);
  }

  lemma Try10()
    ensures Rejected(Bits(), 17, 5, 0, 11)
  {
    hide Word, Rejected, Bits;
    Try9();
    Words5();
    Words6();
    OneMore(10, 1155, 3, 0x562945f7db51171f, 0x1561e5b835bf1339);
  }

  lemma Try11()
    ensures Rejected(Bits(), 17, 5, 0, 12)
  {
    hide Word, Rejected, Bits;
    Try10();
    Words6();
    OneMore(11, 1270, 1, 0x1561e5b835bf1339, 0x251d60fb8700a8a3);
  }

  lemma Try12()
    ensures Rejected(Bits(), 17, 5, 0, 13)
  {
    hide Word, Rejected, Bits;
    Try11();
    Words6();
    Words7();
    OneMore(12, 1385, 1, 0x406aeb718d4fd2ee, 0x8687f99668184841);
  }

  lemma Try13()
    ensures Rejected(Bits(), 17, 5, 0, 14)
  {
    hide Word, Rejected, Bits;
    Try12();
    Words7();
    OneMore(13, 1500, 3, 0x7224db2f3ed84043, 0x7f45d55a99d8b3d7);
  }

  lemma Try14()
    ensures Rejected(Bits(), 17, 5, 0, 15)
  {
    hide Word, Rejected, Bits;
    Try13();
    Words8();
    OneMore(14, 1615, 1, 0xc193bb77c750bfdd, 0xc193bb77c750bfdd);
  }

  lemma Try15()
    ensures Rejected(Bits(), 17, 5, 0, 16)
  {
    hide Word, Rejected, Bits;
    Try14();
    Words8();
    OneMore(15, 1730, 1, 0x20c2898046c0f32e, 0x20c2898046c0f32e);
  }

  lemma Try16()
    ensures Rejected(Bits(), 17, 5, 0, 17)
  {
    hide Word, Rejected, Bits;
    Try15();
    Words9();
    OneMore(16, 1845, 1, 0x80fceb9a5bde889c, 0x9b63d41218f67ac3);
  }

  lemma Try17()
    ensures Rejected(Bits(), 17, 5, 0, 18)
  {
    hide Word, Rejected, Bits;
    Try16();
    Words9();
    OneMore(17, 1960, 1, 0xb025cd8e9e5f25c3, 0xb025cd8e9e5f25c3);
  }

  lemma Try18()
    ensures Rejected(Bits(), 17, 5, 0, 19)
  {
    hide Word, Rejected, Bits;
    Try17();
    Words10();
    OneMore(18, 2075, 1, 0xc4d7b7982ad02ec3, 0xc4d7b7982ad02ec3);
  }

  lemma Try19()
    ensures Rejected(Bits(), 17, 5, 0, 20)
  {
    hide Word, Rejected, Bits;
    Try18();
    Words11();
    OneMore(19, 2190, 1, 0x0ab2e0723f9e4669, 0x0ab2e0723f9e4669);
  }

  lemma Try20()
    ensures Rejected(Bits(), 17, 5, 0, 21)
  {
    hide Word, Rejected, Bits;
    Try19();
    Words11();
    OneMore(20, 2305, 1, 0x13d10e299f4b3dca, 0x13d10e299f4b3dca);
  }

  lemma Try21()
    ensures Rejected(Bits(), 17, 5, 0, 22)
  {
    hide Word, Rejected, Bits;
    Try20();
    Words12();
    OneMore(21, 2420, 4, 0xc6b335af926bb522, 0x3b03bfe322110a45);
  }

  lemma Try22()
    ensures Rejected(Bits(), 17, 5, 0, 23)
  {
    hide Word, Rejected, Bits;
    Try21();
    Words12();
    Words13();
    OneMore(22, 2535, 2, 0x3b03bfe322110a45, 0xb7d3d565c475e38d);
  }

  lemma Try23()
    ensures Rejected(Bits(), 17, 5, 0, 24)
  {
    hide Word, Rejected, Bits;
    Try22();
    Words13();
    OneMore(23, 2650, 1, 0x1217614f8d1f82b2, 0x1217614f8d1f82b2);
  }

  lemma Try24()
    ensures Rejected(Bits(), 17, 5, 0, 25)
  {
    hide Word, Rejected, Bits;
    Try23();
    Words14();
    OneMore(24, 2765, 1, 0x6b5c141373aee8e8, 0x6b5c141373aee8e8);
  }

  lemma Try25()
    ensures Rejected(Bits(), 17, 5, 0, 26)
  {
    hide Word, Rejected, Bits;
    Try24();
    Words14();
    OneMore(25, 2880, 1, 0x56b3e9f0f8a8d0bf, 0x56b3e9f0f8a8d0bf);
  }

  lemma Try26()
    ensures Rejected(Bits(), 17, 5, 0, 27)
  {
    hide Word, Rejected, Bits;
    Try25();
    Words15();
    OneMore(26, 2995, 1, 0x3f8f78071c599994, 0x02c2c3cddcfd7e9a);
  }

  lemma Try27()
    ensures Rejected(Bits(), 17, 5, 0, 28)
  {
    hide Word, Rejected, Bits;
    Try26();
    Words15();
    Words16();
    OneMore(27, 3110, 2, 0x8d8df4c34894df28, 0xbabfda0a019705aa);
  }

  lemma Try28()
    ensures Rejected(Bits(), 17, 5, 0, 29)
  {
    hide Word, Rejected, Bits;
    Try27();
    Words16();
    OneMore(28, 3225, 3, 0xa8fcb590fe4866f1, 0xe0f35e5e448dd50e);
  }

  lemma Try29()
    ensures Rejected(Bits(), 17, 5, 0, 30)
  {
    hide Word, Rejected, Bits;
    Try28();
    Words17();
    OneMore(29, 3340, 1, 0x139e728aca8dd9f9, 0x139e728aca8dd9f9);
  }

  lemma Try30()
    ensures Rejected(Bits(), 17, 5, 0, 31)
  {
    hide Word, Rejected, Bits;
    Try29();
    Words17();
    OneMore(30, 3455, 2, 0x8ddd699bfa055587, 0x5fcde244f4b02251);
  }

  lemma Try31()
    ensures Rejected(Bits(), 17, 5, 0, 32)
  {
    hide Word, Rejected, Bits;
    Try30();
    Words18();
    OneMore(31, 3570, 2, 0x1c3f8232dca78021, 0x86a5f4e3ae9c98ee);
  }

  lemma ThreeOnes(s: Stream)
    requires !s(4) && s(3) && s(26) && s(49)
    ensures Descend(s, 4) == 7
  {
    assert Digits(s, 3, 1) == 1;
    assert Digits(s, 3, 2) == 3;
    assert Digits(s, 3, 3) == 7;
  }

  lemma SixteenShards()
    ensures Descend(Bits(), 4) == 7
  {
    hide Word, Bits;
    FirstWord();
    KnownBit(4, 0x2a761e08c40e84ed);
    KnownBit(3, 0x2a761e08c40e84ed);
    KnownBit(26, 0x2a761e08c40e84ed);
    KnownBit(49, 0x2a761e08c40e84ed);
    ThreeOnes(Bits());
  }

  /** Growing from 16 to 17 shards moves this key from shard 7 to shard 0. */
  lemma SeventeenthShardDisrupts()
    ensures Shard(StreamOf(Bytes(KEY)), 16) == 7
    ensures Shard(StreamOf(Bytes(KEY)), 17) == 0
    ensures !Minimal(StreamOf(Bytes(KEY)), 16, 17)
  {
    hide Word;
    LevelOfPow2(4);
    assert Pow2(4) == 16;
    Try31();
    assert Exhausts(Bits(), 17);
    ZeroShard(Bits(), 17);
    PowerOfTwoPool(Bits(), 4);
    SixteenShards();
  }
}
