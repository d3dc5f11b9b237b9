/**
 The check values of the two codes: the checksums of the nine bytes "123456789", worked out bit by bit.
 */
module CrcWitness {
  import Lfsr
  import Word64
  import Crc32c
  import Crc64

  const DIGITS: seq<bv8> := [0x31, 0x32, 0x33, 0x34, 0x35, 0x36, 0x37, 0x38, 0x39]

  // ----- CRC-32C

  lemma ZerosNext32(c: bv32, n: nat)
    ensures Crc32c.Serial(c, Lfsr.Zeros(0)) == c
    ensures Crc32c.Serial(c, Lfsr.Zeros(n + 1)) == Crc32c.Serial(Crc32c.Step(c, false), Lfsr.Zeros(n))
  {
    hide Crc32c.Step;
    assert Lfsr.Zeros(n + 1)[1..] == Lfsr.Zeros(n);
  }

  /** Eight zero bits, given the registers in between. */
  lemma EightZeros32(c0: bv32, c1: bv32, c2: bv32, c3: bv32, c4: bv32, c5: bv32, c6: bv32, c7: bv32, c8: bv32)
    requires Crc32c.Step(c0, false) == c1 && Crc32c.Step(c1, false) == c2 && Crc32c.Step(c2, false) == c3
    requires Crc32c.Step(c3, false) == c4 && Crc32c.Step(c4, false) == c5 && Crc32c.Step(c5, false) == c6
    requires Crc32c.Step(c6, false) == c7 && Crc32c.Step(c7, false) == c8
    ensures Crc32c.Serial(c0, Lfsr.Zeros(8)) == c8
  {
    hide Crc32c.Step, Crc32c.Serial;
    ZerosNext32(c0, 7);
    ZerosNext32(c1, 6);
    ZerosNext32(c2, 5);
    ZerosNext32(c3, 4);
    ZerosNext32(c4, 3);
    ZerosNext32(c5, 2);
    ZerosNext32(c6, 1);
    ZerosNext32(c7, 0);
    ZerosNext32(c8, 0);
  }

  lemma Byte32At0()
    ensures Crc32c.Serial(0xffffffff, Crc32c.ByteBits(0x31)) == 0x6f0a661c
  {
    hide Crc32c.Serial, Crc32c.ByteBits;
    Crc32c.ByteIsTick(0xffffffff, 0x31);
    assert Crc32c.Plus(0xffffffff, Crc32c.Wide(0x31)) == 0xffffffce;
    EightZeros32(0xffffffce, 0x7fffffe7, 0xbd09c48b, 0xdc72d93d, 0xeccf57e6,
                 0x7667abf3, 0xb9c5ee81, 0xde14cc38, 0x6f0a661c);
  }

  lemma Byte32At1()
    ensures Crc32c.Serial(0x6f0a661c, Crc32c.ByteBits(0x32)) == 0x8caa3b9f
  {
    hide Crc32c.Serial, Crc32c.ByteBits;
    Crc32c.ByteIsTick(0x6f0a661c, 0x32);
    assert Crc32c.Plus(0x6f0a661c, Crc32c.Wide(0x32)) == 0x6f0a662e;
    EightZeros32(0x6f0a662e, 0x37853317, 0x9934a2f3, 0xce6c6a01, 0xe5c00e78,
                 0x72e0073c, 0x3970039e, 0x1cb801cf, 0x8caa3b9f);
  }

  lemma Byte32At2()
    ensures Crc32c.Serial(0x8caa3b9f, Crc32c.ByteBits(0x33)) == 0xef84d04d
  {
    hide Crc32c.Serial, Crc32c.ByteBits;
    Crc32c.ByteIsTick(0x8caa3b9f, 0x33);
    assert Crc32c.Plus(0x8caa3b9f, Crc32c.Wide(0x33)) == 0x8caa3bac;
    EightZeros32(0x8caa3bac, 0x46551dd6, 0x232a8eeb, 0x93637c0d, 0xcb47857e,
                 0x65a3c2bf, 0xb027da27, 0xdae5d66b, 0xef84d04d);
  }

  lemma Byte32At3()
    ensures Crc32c.Serial(0xef84d04d, Crc32c.ByteBits(0x34)) == 0x09c50b11
  {
    hide Crc32c.Serial, Crc32c.ByteBits;
    Crc32c.ByteIsTick(0xef84d04d, 0x34);
    assert Crc32c.Plus(0xef84d04d, Crc32c.Wide(0x34)) == 0xef84d079;
    EightZeros32(0xef84d079, 0xf5345344, 0x7a9a29a2, 0x3d4d14d1, 0x9c50b110,
                 0x4e285888, 0x27142c44, 0x138a1622, 0x09c50b11);
  }

  lemma Byte32At4()
    ensures Crc32c.Serial(0x09c50b11, Crc32c.ByteBits(0x35)) == 0xe72edcca
  {
    hide Crc32c.Serial, Crc32c.ByteBits;
    Crc32c.ByteIsTick(0x09c50b11, 0x35);
    assert Crc32c.Plus(0x09c50b11, Crc32c.Wide(0x35)) == 0x09c50b24;
    EightZeros32(0x09c50b24, 0x04e28592, 0x027142c9, 0x83ce9a1c, 0x41e74d0e,
                 0x20f3a687, 0x928fe83b, 0xcbb1cf65, 0xe72edcca);
  }

  lemma Byte32At5()
    ensures Crc32c.Serial(0xe72edcca, Crc32c.ByteBits(0x36)) == 0xbeca8e79
  {
    hide Crc32c.Serial, Crc32c.ByteBits;
    Crc32c.ByteIsTick(0xe72edcca, 0x36);
    assert Crc32c.Plus(0xe72edcca, Crc32c.Wide(0x36)) == 0xe72edcfc;
    EightZeros32(0xe72edcfc, 0x73976e7e, 0x39cbb73f, 0x9e13e0e7, 0xcdffcb0b,
                 0xe409defd, 0xf0f2d406, 0x78796a03, 0xbeca8e79);
  }

  lemma Byte32At6()
    ensures Crc32c.Serial(0xbeca8e79, Crc32c.ByteBits(0x37)) == 0xedbd6815
  {
    hide Crc32c.Serial, Crc32c.ByteBits;
    Crc32c.ByteIsTick(0xbeca8e79, 0x37);
    assert Crc32c.Plus(0xbeca8e79, Crc32c.Wide(0x37)) == 0xbeca8e4e;
    EightZeros32(0xbeca8e4e, 0x5f654727, 0xad4498eb, 0xd454770d, 0xe8dc00fe,
                 0x746e007f, 0xb8c13b47, 0xde96a6db, 0xedbd6815);
  }

  lemma Byte32At7()
    ensures Crc32c.Serial(0xedbd6815, Crc32c.ByteBits(0x38)) == 0x9f787f65
  {
    hide Crc32c.Serial, Crc32c.ByteBits;
    Crc32c.ByteIsTick(0xedbd6815, 0x38);
    assert Crc32c.Plus(0xedbd6815, Crc32c.Wide(0x38)) == 0xedbd682d;
    EightZeros32(0xedbd682d, 0xf4288f6e, 0x7a1447b7, 0xbffc18a3, 0xdd083729,
                 0xec7220ec, 0x76391076, 0x3b1c883b, 0x9f787f65);
  }

  lemma Byte32At8()
    ensures Crc32c.Serial(0x9f787f65, Crc32c.ByteBits(0x39)) == 0x1cf96d7c
  {
    hide Crc32c.Serial, Crc32c.ByteBits;
    Crc32c.ByteIsTick(0x9f787f65, 0x39);
    assert Crc32c.Plus(0x9f787f65, Crc32c.Wide(0x39)) == 0x9f787f5c;
    EightZeros32(0x9f787f5c, 0x4fbc3fae, 0x27de1fd7, 0x91193493, 0xca7aa131,
                 0xe7cb6be0, 0x73e5b5f0, 0x39f2daf8, 0x1cf96d7c);
  }

  lemma NextByte32(c: bv32, data: seq<bv8>, k: nat)
    requires k < |data|
    ensures Crc32c.Serial(c, Crc32c.InputBits(data[k..], false)) ==
            Crc32c.Serial(Crc32c.Serial(c, Crc32c.ByteBits(data[k])), Crc32c.InputBits(data[k + 1..], false))
  {
    hide Crc32c.Serial, Crc32c.InputBits, Crc32c.ByteBits;
    Crc32c.InputHead(data[k..], false);
    assert data[k..][1..] == data[k + 1..];
    Crc32c.SerialConcat(c, Crc32c.ByteBits(data[k]), Crc32c.InputBits(data[k + 1..], false));
  }

  lemma FedFive32()
    ensures Crc32c.Serial(0xffffffff, Crc32c.InputBits(DIGITS[0..], false)) == Crc32c.Serial(0xe72edcca, Crc32c.InputBits(DIGITS[5..], false))
  {
    hide Crc32c.Serial, Crc32c.InputBits, Crc32c.ByteBits;
    NextByte32(0xffffffff, DIGITS, 0);
    Byte32At0();
    NextByte32(0x6f0a661c, DIGITS, 1);
    Byte32At1();
    NextByte32(0x8caa3b9f, DIGITS, 2);
    Byte32At2();
    NextByte32(0xef84d04d, DIGITS, 3);
    Byte32At3();
    NextByte32(0x09c50b11, DIGITS, 4);
    Byte32At4();
  }

  lemma Fed32()
    ensures Crc32c.Serial(0xffffffff, Crc32c.InputBits(DIGITS[0..], false)) == 0x1cf96d7c
  {
    hide Crc32c.Serial, Crc32c.InputBits, Crc32c.ByteBits;
    FedFive32();
    NextByte32(0xe72edcca, DIGITS, 5);
    Byte32At5();
    NextByte32(0xbeca8e79, DIGITS, 6);
    Byte32At6();
    NextByte32(0xedbd6815, DIGITS, 7);
    Byte32At7();
    NextByte32(0x9f787f65, DIGITS, 8);
    Byte32At8();
    assert DIGITS[9..] == [];
    assert Crc32c.InputBits([], false) == [] && Crc32c.Serial(0x1cf96d7c, []) == 0x1cf96d7c by { Nothing32(); }
  }

  lemma Nothing32()
    ensures Crc32c.InputBits([], false) == [] && Crc32c.Serial(0x1cf96d7c, []) == 0x1cf96d7c
  {
  }

  /** CRC-32C, reflected and inverted, from seed 0. */
  lemma CheckValue32()
    ensures Crc32c.Crc32c(DIGITS, 0, false, false) == 0xe3069283
  {
    hide Crc32c.Serial, Crc32c.InputBits;
    assert Crc32c.Not(0) == 0xffffffff;
    assert DIGITS[0..] == DIGITS;
    Fed32();
    assert Crc32c.Not(0x1cf96d7c) == 0xe3069283;
  }

  // ----- CRC-64

  lemma ZerosNext64(c: bv64, n: nat)
    ensures Crc64.Serial(Crc64.CRC64_ECMA182_POLY, c, Lfsr.Zeros(0)) == c
    ensures Crc64.Serial(Crc64.CRC64_ECMA182_POLY, c, Lfsr.Zeros(n + 1)) == Crc64.Serial(Crc64.CRC64_ECMA182_POLY, Crc64.Step(Crc64.CRC64_ECMA182_POLY, c, false), Lfsr.Zeros(n))
  {
    hide Crc64.Step;
    assert Lfsr.Zeros(n + 1)[1..] == Lfsr.Zeros(n);
  }

  /** Eight zero bits, given the registers in between. */
  lemma EightZeros64(c0: bv64, c1: bv64, c2: bv64, c3: bv64, c4: bv64, c5: bv64, c6: bv64, c7: bv64, c8: bv64)
    requires Crc64.Step(Crc64.CRC64_ECMA182_POLY, c0, false) == c1 && Crc64.Step(Crc64.CRC64_ECMA182_POLY, c1, false) == c2 && Crc64.Step(Crc64.CRC64_ECMA182_POLY, c2, false) == c3
    requires Crc64.Step(Crc64.CRC64_ECMA182_POLY, c3, false) == c4 && Crc64.Step(Crc64.CRC64_ECMA182_POLY, c4, false) == c5 && Crc64.Step(Crc64.CRC64_ECMA182_POLY, c5, false) == c6
    requires Crc64.Step(Crc64.CRC64_ECMA182_POLY, c6, false) == c7 && Crc64.Step(Crc64.CRC64_ECMA182_POLY, c7, false) == c8
    ensures Crc64.Serial(Crc64.CRC64_ECMA182_POLY, c0, Lfsr.Zeros(8)) == c8
  {
    hide Crc64.Step, Crc64.Serial;
    ZerosNext64(c0, 7);
    ZerosNext64(c1, 6);
    ZerosNext64(c2, 5);
    ZerosNext64(c3, 4);
    ZerosNext64(c4, 3);
    ZerosNext64(c5, 2);
    ZerosNext64(c6, 1);
    ZerosNext64(c7, 0);
    ZerosNext64(c8, 0);
  }

  lemma Byte64At0()
    ensures Crc64.Serial(Crc64.CRC64_ECMA182_POLY, 0x0000000000000000, Crc64.ByteBits(0x31)) == 0xe8b768eb18c8b8a2
  {
    hide Crc64.Serial, Crc64.ByteBits;
    Crc64.ByteIsZeros(Crc64.CRC64_ECMA182_POLY, 0x0000000000000000, 0x31);
    assert Word64.Plus(0x0000000000000000, Crc64.AtTop(0x31)) == 0x3100000000000000;
    EightZeros64(0x3100000000000000, 0x6200000000000000, 0xc400000000000000, 0xcaf0e1eba9ea3693, 0xd711223cfa3e5bb5,
                 0xecd2a5925d9681f9, 0x9b55aacf12c73561, 0x745bb4758c645c51, 0xe8b768eb18c8b8a2);
  }

  lemma Byte64At1()
    ensures Crc64.Serial(Crc64.CRC64_ECMA182_POLY, 0xe8b768eb18c8b8a2, Crc64.ByteBits(0x32)) == 0xea2d7b6f8056c695
  {
    hide Crc64.Serial, Crc64.ByteBits;
    Crc64.ByteIsZeros(Crc64.CRC64_ECMA182_POLY, 0xe8b768eb18c8b8a2, 0x32);
    assert Word64.Plus(0xe8b768eb18c8b8a2, Crc64.AtTop(0x32)) == 0xdab768eb18c8b8a2;
    EightZeros64(0xdab768eb18c8b8a2, 0xf79e303d987b47d7, 0xadcc8190991cb93d, 0x1969e2ca9bd344e9, 0x32d3c59537a689d2,
                 0x65a78b2a6f4d13a4, 0xcb4f1654de9a2748, 0xd46ecd4214de7803, 0xea2d7b6f8056c695);
  }

  lemma Byte64At2()
    ensures Crc64.Serial(Crc64.CRC64_ECMA182_POLY, 0xea2d7b6f8056c695, Crc64.ByteBits(0x33)) == 0xb72fddcbe416aa20
  {
    hide Crc64.Serial, Crc64.ByteBits;
    Crc64.ByteIsZeros(Crc64.CRC64_ECMA182_POLY, 0xea2d7b6f8056c695, 0x33);
    assert Word64.Plus(0xea2d7b6f8056c695, Crc64.AtTop(0x33)) == 0xd92d7b6f8056c695;
    EightZeros64(0xd92d7b6f8056c695, 0xf0aa1734a947bbb9, 0xa3a4cf82fb6541e1, 0x05b97eee5f20b551, 0x0b72fddcbe416aa2,
                 0x16e5fbb97c82d544, 0x2dcbf772f905aa88, 0x5b97eee5f20b5510, 0xb72fddcbe416aa20);
  }

  lemma Byte64At3()
    ensures Crc64.Serial(Crc64.CRC64_ECMA182_POLY, 0xb72fddcbe416aa20, Crc64.ByteBits(0x34)) == 0x1e360c1891a60f78
  {
    hide Crc64.Serial, Crc64.ByteBits;
    Crc64.ByteIsZeros(Crc64.CRC64_ECMA182_POLY, 0xb72fddcbe416aa20, 0x34);
    assert Word64.Plus(0xb72fddcbe416aa20, Crc64.AtTop(0x34)) == 0x832fddcbe416aa20;
    EightZeros64(0x832fddcbe416aa20, 0x44af5a7c61c762d3, 0x895eb4f8c38ec5a6, 0x504d881a2ef7bddf, 0xa09b10345def7bbe,
                 0x03c6c1831234c1ef, 0x078d8306246983de, 0x0f1b060c48d307bc, 0x1e360c1891a60f78);
  }

  lemma Byte64At4()
    ensures Crc64.Serial(Crc64.CRC64_ECMA182_POLY, 0x1e360c1891a60f78, Crc64.ByteBits(0x35)) == 0xaf0107d86177f1d5
  {
    hide Crc64.Serial, Crc64.ByteBits;
    Crc64.ByteIsZeros(Crc64.CRC64_ECMA182_POLY, 0x1e360c1891a60f78, 0x35);
    assert Word64.Plus(0x1e360c1891a60f78, Crc64.AtTop(0x35)) == 0x2b360c1891a60f78;
    EightZeros64(0x2b360c1891a60f78, 0x566c1831234c1ef0, 0xacd8306246983de0, 0x1b40812f24da4d53, 0x3681025e49b49aa6,
                 0x6d0204bc9369354c, 0xda04097926d26a98, 0xf6f8f319e44ee3a3, 0xaf0107d86177f1d5);
  }

  lemma Byte64At5()
    ensures Crc64.Serial(Crc64.CRC64_ECMA182_POLY, 0xaf0107d86177f1d5, Crc64.ByteBits(0x36)) == 0x4156683f2f4dcb0f
  {
    hide Crc64.Serial, Crc64.ByteBits;
    Crc64.ByteIsZeros(Crc64.CRC64_ECMA182_POLY, 0xaf0107d86177f1d5, 0x36);
    assert Word64.Plus(0xaf0107d86177f1d5, Crc64.AtTop(0x36)) == 0x990107d86177f1d5;
    EightZeros64(0x990107d86177f1d5, 0x70f2ee5b6b05d539, 0xe1e5dcb6d60baa72, 0x813b588605fd6277, 0x408650e7a210f27d,
                 0x810ca1cf4421e4fa, 0x40e9a27521a9ff67, 0x81d344ea4353fece, 0x4156683f2f4dcb0f);
  }

  lemma Byte64At6()
    ensures Crc64.Serial(Crc64.CRC64_ECMA182_POLY, 0x4156683f2f4dcb0f, Crc64.ByteBits(0x37)) == 0xeaf811a84b1321e7
  {
    hide Crc64.Serial, Crc64.ByteBits;
    Crc64.ByteIsZeros(Crc64.CRC64_ECMA182_POLY, 0x4156683f2f4dcb0f, 0x37);
    assert Word64.Plus(0x4156683f2f4dcb0f, Crc64.AtTop(0x37)) == 0x7656683f2f4dcb0f;
    EightZeros64(0x7656683f2f4dcb0f, 0xecacd07e5e9b961e, 0x9ba9411714dd1aaf, 0x75a263c5805003cd, 0xeb44c78b00a0079a,
                 0x94796efda8aa39a7, 0x6a023c10f8be45dd, 0xd4047821f17c8bba, 0xeaf811a84b1321e7);
  }

  lemma Byte64At7()
    ensures Crc64.Serial(Crc64.CRC64_ECMA182_POLY, 0xeaf811a84b1321e7, Crc64.ByteBits(0x38)) == 0x3732f4b6474a5a2b
  {
    hide Crc64.Serial, Crc64.ByteBits;
    Crc64.ByteIsZeros(Crc64.CRC64_ECMA182_POLY, 0xeaf811a84b1321e7, 0x38);
    assert Word64.Plus(0xeaf811a84b1321e7, Crc64.AtTop(0x38)) == 0xd2f811a84b1321e7;
    EightZeros64(0xd2f811a84b1321e7, 0xe700c2bb3fcc755d, 0x8cf1649dd672dc29, 0x5b1228d0050f8ec1, 0xb62451a00a1f1d82,
                 0x2eb842abbdd40d97, 0x5d7085577ba81b2e, 0xbae10aaef750365c, 0x3732f4b6474a5a2b);
  }

  lemma Byte64At8()
    ensures Crc64.Serial(Crc64.CRC64_ECMA182_POLY, 0x3732f4b6474a5a2b, Crc64.ByteBits(0x39)) == 0x6c40df5f0b497347
  {
    hide Crc64.Serial, Crc64.ByteBits;
    Crc64.ByteIsZeros(Crc64.CRC64_ECMA182_POLY, 0x3732f4b6474a5a2b, 0x39);
    assert Word64.Plus(0x3732f4b6474a5a2b, Crc64.AtTop(0x39)) == 0x0e32f4b6474a5a2b;
    EightZeros64(0x0e32f4b6474a5a2b, 0x1c65e96c8e94b456, 0x38cbd2d91d2968ac, 0x7197a5b23a52d158, 0xe32f4b6474a5a2b0,
                 0x84ae772340a173f3, 0x4bac0fad28a8d175, 0x97581f5a5151a2ea, 0x6c40df5f0b497347);
  }

  lemma NextByte64(c: bv64, data: seq<bv8>, k: nat)
    requires k < |data|
    ensures Crc64.Serial(Crc64.CRC64_ECMA182_POLY, c, Crc64.MessageBits(data[k..])) ==
            Crc64.Serial(Crc64.CRC64_ECMA182_POLY, Crc64.Serial(Crc64.CRC64_ECMA182_POLY, c, Crc64.ByteBits(data[k])), Crc64.MessageBits(data[k + 1..]))
  {
    hide Crc64.Serial, Crc64.MessageBits, Crc64.ByteBits;
    Crc64.MessageHead(data[k..]);
    assert data[k..][1..] == data[k + 1..];
    Crc64.SerialConcat(Crc64.CRC64_ECMA182_POLY, c, Crc64.ByteBits(data[k]), Crc64.MessageBits(data[k + 1..]));
  }

  lemma FedFive64()
    ensures Crc64.Serial(Crc64.CRC64_ECMA182_POLY, 0x0000000000000000, Crc64.MessageBits(DIGITS[0..])) == Crc64.Serial(Crc64.CRC64_ECMA182_POLY, 0xaf0107d86177f1d5, Crc64.MessageBits(DIGITS[5..]))
  {
    hide Crc64.Serial, Crc64.MessageBits, Crc64.ByteBits;
    NextByte64(0x0000000000000000, DIGITS, 0);
    Byte64At0();
    NextByte64(0xe8b768eb18c8b8a2, DIGITS, 1);
    Byte64At1();
    NextByte64(0xea2d7b6f8056c695, DIGITS, 2);
    Byte64At2();
    NextByte64(0xb72fddcbe416aa20, DIGITS, 3);
    Byte64At3();
    NextByte64(0x1e360c1891a60f78, DIGITS, 4);
    Byte64At4();
  }

  lemma Fed64()
    ensures Crc64.Serial(Crc64.CRC64_ECMA182_POLY, 0x0000000000000000, Crc64.MessageBits(DIGITS[0..])) == 0x6c40df5f0b497347
  {
    hide Crc64.Serial, Crc64.MessageBits, Crc64.ByteBits;
    FedFive64();
    NextByte64(0xaf0107d86177f1d5, DIGITS, 5);
    Byte64At5();
    NextByte64(0x4156683f2f4dcb0f, DIGITS, 6);
    Byte64At6();
    NextByte64(0xeaf811a84b1321e7, DIGITS, 7);
    Byte64At7();
    NextByte64(0x3732f4b6474a5a2b, DIGITS, 8);
    Byte64At8();
    assert DIGITS[9..] == [];
    assert Crc64.MessageBits([]) == [] && Crc64.Serial(Crc64.CRC64_ECMA182_POLY, 0x6c40df5f0b497347, []) == 0x6c40df5f0b497347 by { Nothing64(); }
  }

  lemma Nothing64()
    ensures Crc64.MessageBits([]) == [] && Crc64.Serial(Crc64.CRC64_ECMA182_POLY, 0x6c40df5f0b497347, []) == 0x6c40df5f0b497347
  {
  }

  /** CRC-64 with the ECMA-182 polynomial, from register 0. */
  lemma CheckValue64()
    ensures Crc64.Crc64(Crc64.CRC64_ECMA182_POLY, 0, DIGITS) == 0x6c40df5f0b497347
  {
    hide Crc64.Serial, Crc64.MessageBits;
    assert DIGITS[0..] == DIGITS;
    Fed64();
  }
}
