/**
 The table-driven CRC-64 of chaining-demo/validate_compress_and_crc.c: a 256-entry table built for
 any polynomial, and a byte-at-a-time loop over it. Both are proved against the bit-serial register,
 and through it against polynomial division.
 */
module Crc64 {
  import opened Lfsr
  import opened Word64

  const CRC64_ECMA182_POLY: bv64 := 0x42F0E1EBA9EA3693

  // ----- the bit-serial register on words

  function Step(poly: bv64, c: bv64, b: bool): bv64 {
    if Top(c) != b then Plus(Up(c), poly) else Up(c)
  }

  function Serial(poly: bv64, c: bv64, m: Bits): bv64
    decreases |m|
  {
    if m == [] then c else Serial(poly, Step(poly, c, m[0]), m[1..])
  }

  lemma StepIsFeed(poly: bv64, c: bv64, b: bool)
    ensures View(Step(poly, c, b)) == Feed(View(poly), View(c), b)
  {
    hide Plus, Up, Top;
    ViewOfUp(c);
    assert View(c)[0] == Top(c);
    BitsOfPlus(Up(c), poly, 64);
  }

  lemma {:induction false} SerialIsRun(poly: bv64, c: bv64, m: Bits)
    ensures View(Serial(poly, c, m)) == Run(View(poly), View(c), m)
    decreases |m|
  {
    hide Step, View, Feed;
    if m != [] {
      StepIsFeed(poly, c, m[0]);
      SerialIsRun(poly, Step(poly, c, m[0]), m[1..]);
    }
  }

  // ----- bytes

  function AtTop(b: bv8): bv64 { (b as bv64) << 56 }

  function ByteBits(b: bv8): (m: Bits)
    ensures |m| == 8
  {
    MsbBits(AtTop(b), 8)
  }

  function MessageBits(data: seq<bv8>): (m: Bits)
    ensures |m| == 8 * |data|
  {
    if data == [] then [] else ByteBits(data[0]) + MessageBits(data[1..])
  }

  lemma ShlAtTop(b: bv8)
    ensures Shl(AtTop(b), 8) == 0
  {
    hide Shl;
    ShlByByte(AtTop(b));
    assert UpByte((b as bv64) << 56) == 0;
  }

  /** The register image of an input byte is that byte in the top eight coefficients. */
  lemma ViewAtTop(b: bv8)
    ensures View(AtTop(b)) == Padded(ByteBits(b), 64)
  {
    hide AtTop, MsbBits, Shl;
    BitsSplit(AtTop(b), 8, 56);
    ShlAtTop(b);
    BitsOfZero(56);
  }

  /** What the table holds for a byte: the register after that byte alone. */
  function Entry(poly: bv64, b: bv8): bv64 { Serial(poly, 0, ByteBits(b)) }

  /** The top byte of a word. */
  function HighByte(x: bv64): bv8 { (x >> 56) as bv8 }

  function Rest(x: bv64): bv64 { x & 0x00FF_FFFF_FFFF_FFFF }

  lemma SplitWordBits(c: bv64, b: bv8)
    ensures Plus(c, (b as bv64) << 56) == Plus(((((c >> 56) as bv8) ^ b) as bv64) << 56, c & 0x00FF_FFFF_FFFF_FFFF)
  {
  }

  lemma SplitWord(c: bv64, b: bv8)
    ensures Plus(c, AtTop(b)) == Plus(AtTop(HighByte(c) ^ b), Rest(c))
  {
    hide Plus;
    SplitWordBits(c, b);
  }

  lemma RestShifts(c: bv64)
    ensures UpByte(Rest(c)) == UpByte(c)
    ensures MsbBits(Rest(c), 8) == Zeros(8)
  {
  }

  /** Eight serial steps are one table lookup and a shift by a whole byte. */
  lemma TableStep(poly: bv64, c: bv64, b: bv8)
    ensures Serial(poly, c, ByteBits(b)) == Plus(Entry(poly, HighByte(c) ^ b), UpByte(c))
  {
    hide Plus, AtTop, Rest, HighByte, UpByte, MsbBits, Serial, View, ByteBits;
    var p, t := View(poly), HighByte(c) ^ b;
    ByteRuns(poly, c, b);
    SplitWord(c, b);
    ViewOfPlus(AtTop(t), Rest(c));
    RunLinear(p, View(AtTop(t)), View(Rest(c)), Zeros(8), Zeros(8));
    assert Xor(Zeros(8), Zeros(8)) == Zeros(8);
    RestRuns(p, c);
    EntryRuns(poly, t);
    ViewOfPlus(Entry(poly, t), UpByte(c));
    ViewInjective(Serial(poly, c, ByteBits(b)), Plus(Entry(poly, t), UpByte(c)));
  }

  /** Feeding a byte is combining it with the top of the register and shifting out eight bits. */
  lemma ByteRuns(poly: bv64, c: bv64, b: bv8)
    ensures View(Serial(poly, c, ByteBits(b))) == Run(View(poly), View(Plus(c, AtTop(b))), Zeros(8))
  {
    hide Plus, AtTop, MsbBits, Serial, View, ByteBits;
    SerialIsRun(poly, c, ByteBits(b));
    RunAbsorbs(View(poly), View(c), ByteBits(b));
    ViewAtTop(b);
    ViewOfPlus(c, AtTop(b));
  }

  lemma EntryRuns(poly: bv64, t: bv8)
    ensures View(Entry(poly, t)) == Run(View(poly), View(AtTop(t)), Zeros(8))
  {
    hide MsbBits, AtTop, Serial;
    SerialIsRun(poly, 0, ByteBits(t));
    BitsOfZero(64);
    RunAbsorbs(View(poly), View(0), ByteBits(t));
    ViewAtTop(t);
    assert Xor(Zeros(64), View(AtTop(t))) == View(AtTop(t));
  }

  lemma RestRuns(p: Bits, c: bv64)
    requires |p| == 64
    ensures Run(p, View(Rest(c)), Zeros(8)) == View(UpByte(c))
  {
    hide MsbBits, Shl, Rest, UpByte;
    RestShifts(c);
    BitsSplit(Rest(c), 8, 56);
    forall i | 0 <= i < 8 ensures !View(Rest(c))[i] { assert View(Rest(c))[i] == MsbBits(Rest(c), 8)[i]; }
    RunShifts(p, View(Rest(c)), 8);
    ViewOfShl(Rest(c), 8);
    ShlByByte(Rest(c));
  }

  // ----- the two routines of the source

  ghost predicate IsTable(table: seq<bv64>, poly: bv64) {
    |table| == 256 && forall i :: 0 <= i < 256 ==> table[i] == Entry(poly, i as bv8)
  }

  lemma {:induction false} SerialConcat(poly: bv64, c: bv64, m: Bits, n: Bits)
    ensures Serial(poly, c, m + n) == Serial(poly, Serial(poly, c, m), n)
    decreases |m|
  {
    hide Step;
    if m == [] {
      assert m + n == n;
    } else {
      assert (m + n)[1..] == m[1..] + n;
      SerialConcat(poly, Step(poly, c, m[0]), m[1..], n);
    }
  }

  /**
   The inner loop of the table generator keeps the register `crc` and the not yet consumed input `c`
   apart; together they are the serial register fed with the byte, most significant bit first.
   */
  method GenerateEntry(b: bv8, poly: bv64) returns (crc: bv64)
    ensures crc == Entry(poly, b)
  {
    hide Top, Up, Plus, AtTop, Serial, Shl, MsbBits;
    crc := 0;
    var c := AtTop(b);
    var j := 0;
    NothingFed(poly, c);
    while j < 8
      invariant 0 <= j <= 8
      invariant c == Shl(AtTop(b), j)
      invariant crc == Serial(poly, 0, MsbBits(AtTop(b), j))
    {
      OneBitFed(poly, AtTop(b), j);
      TopOfPlus(crc, c);
      if Top(Plus(crc, c)) {
        crc := Plus(Up(crc), poly);
      } else {
        crc := Up(crc);
      }
      c := Up(c);
      j := j + 1;
    }
  }

  lemma NothingFed(poly: bv64, x: bv64)
    ensures Shl(x, 0) == x && Serial(poly, 0, MsbBits(x, 0)) == 0
  {
  }

  lemma OneBitFed(poly: bv64, x: bv64, j: nat)
    ensures Shl(x, j + 1) == Up(Shl(x, j))
    ensures Serial(poly, 0, MsbBits(x, j + 1)) == Step(poly, Serial(poly, 0, MsbBits(x, j)), Top(Shl(x, j)))
  {
    hide Up, Top, Plus, Step;
    ShlAdds(x, j, 1);
    BitsSplit(x, j, 1);
    OneBit(Shl(x, j));
    SerialConcat(poly, 0, MsbBits(x, j), [Top(Shl(x, j))]);
    assert [Top(Shl(x, j))][1..] == [];
  }

  method GenerateTable(table: array<bv64>, poly: bv64)
    requires table.Length == 256
    modifies table
    ensures IsTable(table[..], poly)
  {
    var i := 0;
    while i < 256
      invariant 0 <= i <= 256
      invariant forall k :: 0 <= k < i ==> table[k] == Entry(poly, k as bv8)
    {
      var crc := GenerateEntry(i as bv8, poly);
      table[i] := crc;
      i := i + 1;
    }
  }

  /** For every polynomial, start value and buffer the table loop is the bit-serial register. */
  method Crc64Be(table: seq<bv64>, crc0: bv64, data: seq<bv8>, ghost poly: bv64) returns (crc: bv64)
    requires IsTable(table, poly)
    ensures crc == Serial(poly, crc0, MessageBits(data))
  {
    hide HighByte, UpByte, Plus, Serial, ByteBits, MessageBits;
    crc := crc0;
    var i := 0;
    MessageStart(poly, crc0, data);
    while i < |data|
      invariant 0 <= i <= |data|
      invariant crc == Serial(poly, crc0, MessageBits(data[..i]))
    {
      var t := HighByte(crc) ^ data[i];
      MessageStep(poly, crc0, data, i);
      TableStep(poly, crc, data[i]);
      crc := Plus(table[t as nat], UpByte(crc));
      i := i + 1;
    }
    assert data[..|data|] == data;
  }

  lemma MessageStart(poly: bv64, c: bv64, data: seq<bv8>)
    ensures Serial(poly, c, MessageBits(data[..0])) == c
  {
  }

  lemma {:induction false} MessageConcat(a: seq<bv8>, b: seq<bv8>)
    ensures MessageBits(a + b) == MessageBits(a) + MessageBits(b)
  {
    hide ByteBits;
    if a == [] {
      assert a + b == b;
    } else {
      assert (a + b)[1..] == a[1..] + b;
      MessageConcat(a[1..], b);
    }
  }

  lemma MessageStep(poly: bv64, c: bv64, data: seq<bv8>, i: nat)
    requires i < |data|
    ensures Serial(poly, c, MessageBits(data[..i + 1]))
         == Serial(poly, Serial(poly, c, MessageBits(data[..i])), ByteBits(data[i]))
  {
    hide ByteBits, Serial;
    assert data[..i + 1] == data[..i] + [data[i]];
    MessageConcat(data[..i], [data[i]]);
    assert MessageBits([data[i]]) == ByteBits(data[i]) by { assert [data[i]][1..] == []; }
    SerialConcat(poly, c, MessageBits(data[..i]), ByteBits(data[i]));
  }

  // ----- what the checksum means

  function Crc64(poly: bv64, crc: bv64, data: seq<bv8>): bv64 { Serial(poly, crc, MessageBits(data)) }

  /** The checksum is the remainder of the message, shifted up by 64, divided by x^64 + poly. */
  lemma Crc64IsRemainder(poly: bv64, crc: bv64, data: seq<bv8>)
    ensures View(Crc64(poly, crc, data)) == Remainder(View(poly), Dividend(View(crc), MessageBits(data)))
  {
    hide Serial, View, MessageBits;
    SerialIsRun(poly, crc, MessageBits(data));
    RunIsRemainder(View(poly), View(crc), MessageBits(data));
  }

  /** A buffer may be checksummed in pieces. */
  lemma Crc64Chains(poly: bv64, crc: bv64, a: seq<bv8>, b: seq<bv8>)
    ensures Crc64(poly, crc, a + b) == Crc64(poly, Crc64(poly, crc, a), b)
  {
    hide Serial, MessageBits;
    MessageConcat(a, b);
    SerialConcat(poly, crc, MessageBits(a), MessageBits(b));
  }

  /** With an odd polynomial, buffers that differ only inside some 64 consecutive bits are told apart. */
  lemma Crc64DetectsBursts(poly: bv64, crc: bv64, a: seq<bv8>, b: seq<bv8>, at: nat)
    requires poly & 1 == 1
    requires WithinWindow(MessageBits(a), MessageBits(b), at, 64) && MessageBits(a) != MessageBits(b)
    ensures Crc64(poly, crc, a) != Crc64(poly, crc, b)
  {
    hide Serial, View, MessageBits, Run;
    ViewLast(poly);
    SerialIsRun(poly, crc, MessageBits(a));
    SerialIsRun(poly, crc, MessageBits(b));
    BurstDetected(View(poly), View(crc), MessageBits(a), MessageBits(b), at);
  }

  lemma AtTopInjective(x: bv8, y: bv8)
    requires AtTop(x) == AtTop(y)
    ensures x == y
  {
  }

  lemma ByteBitsInjective(x: bv8, y: bv8)
    requires ByteBits(x) == ByteBits(y)
    ensures x == y
  {
    hide ByteBits, View, AtTop;
    ViewAtTop(x);
    ViewAtTop(y);
    ViewInjective(AtTop(x), AtTop(y));
    AtTopInjective(x, y);
  }

  lemma MessageByte(data: seq<bv8>, j: nat)
    requires j < |data|
    ensures MessageBits(data)[8 * j..8 * j + 8] == ByteBits(data[j])
  {
    hide ByteBits, MessageBits;
    var rest := data[j..];
    assert data == data[..j] + rest;
    MessageConcat(data[..j], rest);
    MessageHead(rest);
    MiddleOf(MessageBits(data[..j]), ByteBits(rest[0]), MessageBits(rest[1..]));
  }

  lemma MessageHead(data: seq<bv8>)
    requires data != []
    ensures MessageBits(data) == ByteBits(data[0]) + MessageBits(data[1..])
  {
  }

  /** The same for bytes: a change confined to eight consecutive bytes never goes unnoticed. */
  lemma Crc64DetectsByteBursts(poly: bv64, crc: bv64, a: seq<bv8>, b: seq<bv8>, at: nat)
    requires poly & 1 == 1
    requires |a| == |b| && a != b
    requires forall j :: 0 <= j < |a| && !(at <= j < at + 8) ==> a[j] == b[j]
    ensures Crc64(poly, crc, a) != Crc64(poly, crc, b)
  {
    hide MessageBits, ByteBits, Serial;
    var m, n := MessageBits(a), MessageBits(b);
    forall i | 0 <= i < |m| && !(8 * at <= i < 8 * at + 64) ensures m[i] == n[i] {
      var j := i / 8;
      MessageByte(a, j);
      MessageByte(b, j);
      assert m[i] == m[8 * j..8 * j + 8][i - 8 * j];
      assert n[i] == n[8 * j..8 * j + 8][i - 8 * j];
    }
    var j :| 0 <= j < |a| && a[j] != b[j];
    MessageByte(a, j);
    MessageByte(b, j);
    if m == n { ByteBitsInjective(a[j], b[j]); }
    Crc64DetectsBursts(poly, crc, a, b, 8 * at);
  }

  /** The ECMA-182 polynomial is odd, so the above holds of it. */
  lemma EcmaDetectsByteBursts(crc: bv64, a: seq<bv8>, b: seq<bv8>, at: nat)
    requires |a| == |b| && a != b
    requires forall j :: 0 <= j < |a| && !(at <= j < at + 8) ==> a[j] == b[j]
    ensures Crc64(CRC64_ECMA182_POLY, crc, a) != Crc64(CRC64_ECMA182_POLY, crc, b)
  {
    hide Crc64;
    Crc64DetectsByteBursts(CRC64_ECMA182_POLY, crc, a, b, at);
  }

  /** Two buffers of equal length share a CRC exactly when the polynomial divides their difference, shifted up. */
  lemma Crc64CollidesExactly(poly: bv64, crc: bv64, a: seq<bv8>, b: seq<bv8>)
    requires |a| == |b|
    ensures Crc64(poly, crc, a) == Crc64(poly, crc, b) <==>
            Remainder(View(poly), Xor(MessageBits(a), MessageBits(b)) + Zeros(64)) == Zeros(64)
  {
    hide Serial, View, MessageBits, Run, Remainder;
    SerialIsRun(poly, crc, MessageBits(a));
    SerialIsRun(poly, crc, MessageBits(b));
    SameRegisterExactly(View(poly), View(crc), MessageBits(a), MessageBits(b));
    if View(Crc64(poly, crc, a)) == View(Crc64(poly, crc, b)) {
      ViewInjective(Crc64(poly, crc, a), Crc64(poly, crc, b));
    }
  }

  // ----- the message, bit by bit

  /** A byte at the top of a word, shifted up by `k` more. */
  function Raised(b: bv8, k: nat): bv64 {
    match k
    case 0 => (b as bv64) << 56
    case 1 => (b as bv64) << 57
    case 2 => (b as bv64) << 58
    case 3 => (b as bv64) << 59
    case 4 => (b as bv64) << 60
    case 5 => (b as bv64) << 61
    case 6 => (b as bv64) << 62
    case _ => (b as bv64) << 63
  }

  lemma RaisedTop(b: bv8, k: nat)
    requires k < 8
    ensures Top(Raised(b, k)) == BitOf(b, 7 - k)
  {
  }

  lemma RaisedNext(b: bv8, k: nat)
    requires k < 7
    ensures Up(Raised(b, k)) == Raised(b, k + 1)
  {
  }

  lemma {:induction false} BitsAt(x: bv64, n: nat, i: nat)
    requires i < n
    ensures MsbBits(x, n)[i] == Top(Shl(x, i))
    decreases n
  {
    hide Top, Up;
    if i > 0 { BitsAt(Up(x), n - 1, i - 1); }
  }

  lemma RaisedStart(b: bv8)
    ensures AtTop(b) == Raised(b, 0)
  {
  }

  lemma ShlSteps(x: bv64, n: nat)
    ensures Shl(x, 0) == x && Shl(x, n + 1) == Up(Shl(x, n))
  {
    hide Up;
    ShlAdds(x, n, 1);
  }

  lemma {:induction false} ShlOfByte(b: bv8, i: nat)
    requires i < 8
    ensures Shl(AtTop(b), i) == Raised(b, i)
  {
    hide Raised, Up, AtTop, Shl;
    if i == 0 {
      RaisedStart(b);
      ShlSteps(AtTop(b), 0);
    } else {
      ShlOfByte(b, i - 1);
      RaisedNext(b, i - 1);
      ShlSteps(AtTop(b), i - 1);
    }
  }

  lemma ByteBitsAt(b: bv8, j: nat)
    requires j < 8
    ensures ByteBits(b)[j] == BitOf(b, 7 - j)
  {
    hide Top, Shl, BitOf, MsbBits, AtTop, Raised;
    BitsAt(AtTop(b), 8, j);
    ShlOfByte(b, j);
    RaisedTop(b, j);
  }

  /** Message bit 8i + j is bit 7 - j of byte i: bytes in order, most significant bit first. */
  lemma MessageBitsAt(data: seq<bv8>, i: nat, j: nat)
    requires i < |data| && j < 8
    ensures MessageBits(data)[8 * i + j] == BitOf(data[i], 7 - j)
  {
    hide BitOf, ByteBits, MessageBits;
    MessageByte(data, i);
    assert MessageBits(data)[8 * i + j] == MessageBits(data)[8 * i..8 * i + 8][j];
    ByteBitsAt(data[i], j);
  }

  // ----- one byte at a time, on words

  lemma ByteIsZeros(poly: bv64, c: bv64, b: bv8)
    ensures Serial(poly, c, ByteBits(b)) == Serial(poly, Plus(c, AtTop(b)), Zeros(8))
  {
    hide Plus, AtTop, Serial, View, ByteBits, Run;
    ByteRuns(poly, c, b);
    SerialIsRun(poly, Plus(c, AtTop(b)), Zeros(8));
    ViewInjective(Serial(poly, c, ByteBits(b)), Serial(poly, Plus(c, AtTop(b)), Zeros(8)));
  }
}
