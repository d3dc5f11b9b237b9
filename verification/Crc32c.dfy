/**
 The CRC-32C of chaining-demo/dsa_funcs.c: slicing by eight with eight 256-entry tables, a byte
 loop for the remainder, and two independent bypass flags. CRC-32C is defined in section 12.1 of
 RFC 3720; the register is reflected, so bit 0 is the one that leaves it.
 */
module Crc32c {
  import opened Lfsr

  function Poly(): bv32 { 0x82F63B78 }

  function Plus(x: bv32, y: bv32): bv32 { x ^ y }

  function Down(x: bv32): bv32 { x >> 1 }

  function Low(x: bv32): bool { x & 1 == 1 }

  // ----- words as sequences of coefficients, least significant first

  function LsbBits(x: bv32, n: nat): (m: Bits)
    ensures |m| == n
    decreases n
  {
    if n == 0 then [] else [Low(x)] + LsbBits(Down(x), n - 1)
  }

  function View(x: bv32): (m: Bits)
    ensures |m| == 32
  {
    LsbBits(x, 32)
  }

  /** `x >> n`. */
  function Shr(x: bv32, n: nat): bv32
    decreases n
  {
    if n == 0 then x else Shr(Down(x), n - 1)
  }

  function DownByte(x: bv32): bv32 { x >> 8 }

  function UpByte(x: bv32): bv32 { x << 8 }

  lemma LowOfPlus(x: bv32, y: bv32)
    ensures Low(Plus(x, y)) == (Low(x) != Low(y))
  {
    assert Low(x ^ y) == (Low(x) != Low(y));
  }

  lemma DownOfPlus(x: bv32, y: bv32)
    ensures Down(Plus(x, y)) == Plus(Down(x), Down(y))
  {
    assert Down(x ^ y) == Plus(x >> 1, y >> 1);
  }

  lemma {:induction false} BitsOfPlus(x: bv32, y: bv32, n: nat)
    ensures LsbBits(Plus(x, y), n) == Xor(LsbBits(x, n), LsbBits(y, n))
    decreases n
  {
    hide Plus, Down, Low;
    if n > 0 {
      LowOfPlus(x, y);
      DownOfPlus(x, y);
      BitsOfPlus(Down(x), Down(y), n - 1);
    }
  }

  lemma ViewOfPlus(x: bv32, y: bv32)
    ensures View(Plus(x, y)) == Xor(View(x), View(y))
  {
    BitsOfPlus(x, y, 32);
  }

  lemma {:induction false} BitsSplit(x: bv32, m: nat, n: nat)
    ensures LsbBits(x, m + n) == LsbBits(x, m) + LsbBits(Shr(x, m), n)
    decreases m
  {
    hide Down, Low;
    if m > 0 { BitsSplit(Down(x), m - 1, n); }
  }

  lemma {:induction false} ShrAdds(x: bv32, m: nat, n: nat)
    ensures Shr(x, m + n) == Shr(Shr(x, m), n)
    decreases m
  {
    hide Down;
    if m > 0 { ShrAdds(Down(x), m - 1, n); }
  }

  lemma DownOfShifted(x: bv32)
    ensures Down(x) == x >> 1 && Down(x >> 1) == x >> 2 && Down(x >> 2) == x >> 3 && Down(x >> 3) == x >> 4
    ensures Down(x >> 4) == x >> 5 && Down(x >> 5) == x >> 6 && Down(x >> 6) == x >> 7 && Down(x >> 7) == x >> 8
  {
  }

  lemma ShrByByte(x: bv32)
    ensures Shr(x, 8) == DownByte(x)
  {
    hide Down;
    assert Shr(x, 8) == Down(Down(Down(Down(Down(Down(Down(Down(x))))))));
    DownOfShifted(x);
  }

  lemma DownByteOfShifted(x: bv32)
    ensures DownByte(x) == x >> 8 && DownByte(x >> 8) == x >> 16 && DownByte(x >> 16) == x >> 24 && DownByte(x >> 24) == 0
  {
  }

  lemma ShrAll(x: bv32)
    ensures Shr(x, 32) == 0
  {
    hide Shr, DownByte;
    DownByteOfShifted(x);
    ShrAdds(x, 8, 24);
    ShrAdds(x >> 8, 8, 16);
    ShrAdds(x >> 16, 8, 8);
    ShrByByte(x);
    ShrByByte(x >> 8);
    ShrByByte(x >> 16);
    ShrByByte(x >> 24);
  }

  lemma BitsHead(x: bv32, n: nat)
    ensures LsbBits(x, n + 1) == [Low(x)] + LsbBits(Down(x), n)
  {
  }

  lemma OneBit(x: bv32)
    ensures LsbBits(x, 1) == [Low(x)]
  {
  }

  lemma LastShift(x: bv32)
    ensures Shr(Down(x), 31) == 0
  {
    hide Down;
    ShrAdds(x, 1, 31);
    ShrAll(x);
  }

  lemma ViewOfDown(x: bv32)
    ensures View(Down(x)) == View(x)[1..] + [false]
  {
    hide Down, LsbBits, Shr, Low;
    BitsHead(x, 31);
    BitsSplit(Down(x), 31, 1);
    LastShift(x);
    OneBit(0);
    assert !Low(0) by { NoBit(); }
  }

  lemma NoBit()
    ensures !Low(0)
  {
  }

  lemma {:induction false} ViewOfShr(x: bv32, n: nat)
    requires n <= 32
    ensures View(Shr(x, n)) == View(x)[n..] + Zeros(n)
    decreases n
  {
    hide Down, View;
    if n == 0 {
      assert View(x)[0..] + Zeros(0) == View(x);
    } else {
      ViewOfDown(x);
      ViewOfShr(Down(x), n - 1);
      assert (View(x)[1..] + [false])[n - 1..] + Zeros(n - 1) == View(x)[n..] + Zeros(n);
    }
  }

  lemma {:induction false} BitsOfZero(n: nat)
    ensures LsbBits(0, n) == Zeros(n)
  {
    if n > 0 {
      assert Down(0) == 0;
      BitsOfZero(n - 1);
    }
  }

  lemma DownZero(x: bv32)
    requires !Low(x) && Down(x) == 0
    ensures x == 0
  {
  }

  lemma {:induction false} ZeroFromBits(x: bv32, n: nat)
    requires LsbBits(x, n) == Zeros(n) && Shr(x, n) == 0
    ensures x == 0
    decreases n
  {
    hide Down, Low;
    if n > 0 {
      assert LsbBits(x, n)[0] == Low(x);
      assert LsbBits(Down(x), n - 1) == LsbBits(x, n)[1..];
      ZeroFromBits(Down(x), n - 1);
      DownZero(x);
    }
  }

  lemma PlusSelf(x: bv32, y: bv32)
    ensures Plus(x, y) == 0 ==> x == y
  {
  }

  lemma ViewInjective(x: bv32, y: bv32)
    requires View(x) == View(y)
    ensures x == y
  {
    hide Plus, LsbBits;
    BitsOfPlus(x, y, 32);
    assert Xor(View(x), View(y)) == Zeros(32);
    ShrAll(Plus(x, y));
    ZeroFromBits(Plus(x, y), 32);
    PlusSelf(x, y);
  }

  // ----- the bit-serial register on words

  function Step(c: bv32, b: bool): bv32 {
    if Low(c) != b then Plus(Down(c), Poly()) else Down(c)
  }

  function Serial(c: bv32, m: Bits): bv32
    decreases |m|
  {
    if m == [] then c else Serial(Step(c, m[0]), m[1..])
  }

  lemma StepIsFeed(c: bv32, b: bool)
    ensures View(Step(c, b)) == Feed(View(Poly()), View(c), b)
  {
    hide Plus, Down, Low, Poly;
    ViewOfDown(c);
    assert View(c)[0] == Low(c);
    ViewOfPlus(Down(c), Poly());
  }

  lemma {:induction false} SerialIsRun(c: bv32, m: Bits)
    ensures View(Serial(c, m)) == Run(View(Poly()), View(c), m)
    decreases |m|
  {
    hide Step, View, Feed, Poly;
    if m != [] {
      StepIsFeed(c, m[0]);
      SerialIsRun(Step(c, m[0]), m[1..]);
    }
  }

  lemma {:induction false} SerialConcat(c: bv32, m: Bits, n: Bits)
    ensures Serial(c, m + n) == Serial(Serial(c, m), n)
    decreases |m|
  {
    hide Step;
    if m == [] {
      assert m + n == n;
    } else {
      assert (m + n)[1..] == m[1..] + n;
      SerialConcat(Step(c, m[0]), m[1..], n);
    }
  }

  // ----- bytes

  function Wide(b: bv8): bv32 { b as bv32 }

  function LowByte(x: bv32): bv8 { (x & 0xff) as bv8 }

  function ByteBits(b: bv8): (m: Bits)
    ensures |m| == 8
  {
    LsbBits(Wide(b), 8)
  }

  function MessageBits(data: seq<bv8>): (m: Bits)
    ensures |m| == 8 * |data|
  {
    if data == [] then [] else ByteBits(data[0]) + MessageBits(data[1..])
  }

  lemma {:induction false} MessageConcat(a: seq<bv8>, b: seq<bv8>)
    ensures MessageBits(a + b) == MessageBits(a) + MessageBits(b)
  {
    hide ByteBits;
    if a == [] {
      assert a + b == b;
    } else {
      assert (a + b)[1..] == a[1..] + b;
      MessageConcat(a[1..], b);
    }
  }

  lemma ShrWide(b: bv8)
    ensures Shr(Wide(b), 8) == 0
  {
    hide Shr;
    ShrByByte(Wide(b));
    assert DownByte(b as bv32) == 0;
  }

  lemma ViewWide(b: bv8)
    ensures View(Wide(b)) == Padded(ByteBits(b), 32)
  {
    hide Wide, LsbBits, Shr;
    BitsSplit(Wide(b), 8, 24);
    ShrWide(b);
    BitsOfZero(24);
  }

  /** Table 0: the register after one byte alone. */
  function Entry(b: bv8): bv32 { Serial(0, ByteBits(b)) }

  /** Everything above the low byte. */
  function Rest(x: bv32): bv32 { x & 0xFFFF_FF00 }

  lemma SplitWordBits(c: bv32, b: bv8)
    ensures Plus(c, b as bv32) == Plus((((c & 0xff) as bv8) ^ b) as bv32, c & 0xFFFF_FF00)
  {
  }

  lemma SplitWord(c: bv32, b: bv8)
    ensures Plus(c, Wide(b)) == Plus(Wide(LowByte(c) ^ b), Rest(c))
  {
    hide Plus;
    SplitWordBits(c, b);
  }

  lemma RestShifts(c: bv32)
    ensures DownByte(Rest(c)) == DownByte(c)
    ensures LsbBits(Rest(c), 8) == Zeros(8)
  {
  }

  lemma EntryRuns(t: bv8)
    ensures View(Entry(t)) == Run(View(Poly()), View(Wide(t)), Zeros(8))
  {
    hide LsbBits, Wide, Serial, Poly;
    SerialIsRun(0, ByteBits(t));
    BitsOfZero(32);
    RunAbsorbs(View(Poly()), View(0), ByteBits(t));
    ViewWide(t);
    assert Xor(Zeros(32), View(Wide(t))) == View(Wide(t));
  }

  lemma RestRuns(p: Bits, c: bv32)
    requires |p| == 32
    ensures Run(p, View(Rest(c)), Zeros(8)) == View(DownByte(c))
  {
    hide LsbBits, Shr, Rest, DownByte;
    RestShifts(c);
    BitsSplit(Rest(c), 8, 24);
    forall i | 0 <= i < 8 ensures !View(Rest(c))[i] { assert View(Rest(c))[i] == LsbBits(Rest(c), 8)[i]; }
    RunShifts(p, View(Rest(c)), 8);
    ViewOfShr(Rest(c), 8);
    ShrByByte(Rest(c));
  }

  lemma ByteRuns(c: bv32, b: bv8)
    ensures View(Serial(c, ByteBits(b))) == Run(View(Poly()), View(Plus(c, Wide(b))), Zeros(8))
  {
    hide Plus, Wide, LsbBits, Serial, View, ByteBits, Poly;
    SerialIsRun(c, ByteBits(b));
    RunAbsorbs(View(Poly()), View(c), ByteBits(b));
    ViewWide(b);
    ViewOfPlus(c, Wide(b));
  }

  /** Eight serial steps are one table lookup and a shift by a whole byte. */
  lemma TableStep(c: bv32, b: bv8)
    ensures Serial(c, ByteBits(b)) == Plus(DownByte(c), Entry(LowByte(c) ^ b))
  {
    hide Plus, Wide, Rest, LowByte, DownByte, LsbBits, Serial, View, ByteBits, Poly;
    var p, t := View(Poly()), LowByte(c) ^ b;
    ByteRuns(c, b);
    SplitWord(c, b);
    ViewOfPlus(Wide(t), Rest(c));
    RunLinear(p, View(Wide(t)), View(Rest(c)), Zeros(8), Zeros(8));
    assert Xor(Zeros(8), Zeros(8)) == Zeros(8);
    RestRuns(p, c);
    EntryRuns(t);
    ViewOfPlus(DownByte(c), Entry(t));
    assert Xor(View(DownByte(c)), View(Entry(t))) == Xor(View(Entry(t)), View(DownByte(c)));
    ViewInjective(Serial(c, ByteBits(b)), Plus(DownByte(c), Entry(t)));
  }

  // ----- the effect of a zero byte, and its powers

  function Tick(c: bv32): bv32 { Serial(c, Zeros(8)) }

  function Ticks(c: bv32, n: nat): bv32 {
    if n == 0 then c else Tick(Ticks(c, n - 1))
  }

  lemma TickLinear(x: bv32, y: bv32)
    ensures Tick(Plus(x, y)) == Plus(Tick(x), Tick(y))
  {
    hide Plus, View, Serial, Poly;
    SerialIsRun(Plus(x, y), Zeros(8));
    SerialIsRun(x, Zeros(8));
    SerialIsRun(y, Zeros(8));
    ViewOfPlus(x, y);
    RunLinear(View(Poly()), View(x), View(y), Zeros(8), Zeros(8));
    assert Xor(Zeros(8), Zeros(8)) == Zeros(8);
    ViewOfPlus(Tick(x), Tick(y));
    ViewInjective(Tick(Plus(x, y)), Plus(Tick(x), Tick(y)));
  }

  lemma {:induction false} TicksLinear(x: bv32, y: bv32, n: nat)
    ensures Ticks(Plus(x, y), n) == Plus(Ticks(x, n), Ticks(y, n))
  {
    hide Plus, Tick;
    if n > 0 {
      TicksLinear(x, y, n - 1);
      TickLinear(Ticks(x, n - 1), Ticks(y, n - 1));
    }
  }

  lemma {:induction false} TicksAdd(c: bv32, m: nat, n: nat)
    ensures Ticks(c, m + n) == Ticks(Ticks(c, m), n)
  {
    hide Tick;
    if n > 0 { TicksAdd(c, m, n - 1); }
  }

  /** An input byte is combined with the register, which then takes one tick. */
  lemma ByteIsTick(c: bv32, b: bv8)
    ensures Serial(c, ByteBits(b)) == Tick(Plus(c, Wide(b)))
  {
    hide Plus, Wide, Serial, View, ByteBits, Poly;
    ByteRuns(c, b);
    SerialIsRun(Plus(c, Wide(b)), Zeros(8));
    ViewInjective(Serial(c, ByteBits(b)), Tick(Plus(c, Wide(b))));
  }

  lemma EntryOfZero()
    ensures Entry(0) == 0
  {
    hide Serial, LsbBits, View, Poly;
    EntryRuns(0);
    assert Wide(0) == 0;
    assert View(0) == Zeros(32) by { BitsOfZero(32); ViewIsBits(0); }
    RunShifts(View(Poly()), Zeros(32), 8);
    assert Zeros(32)[8..] + Zeros(8) == Zeros(32);
    ViewInjective(Entry(0), 0);
  }

  lemma ViewIsBits(x: bv32)
    ensures View(x) == LsbBits(x, 32)
  {
  }

  lemma TickIsLookup(c: bv32)
    ensures Tick(c) == Plus(DownByte(c), Entry(LowByte(c)))
  {
    hide Serial, Plus, DownByte, Entry, LowByte;
    TableStep(c, 0);
    assert ByteBits(0) == Zeros(8) by { BitsOfZero(8); assert Wide(0) == 0; }
    assert LowByte(c) ^ 0 == LowByte(c);
  }

  /** While only zero bits leave the register a tick just moves it down a byte. */
  lemma TickUndoesUp(x: bv32)
    requires x & 0xFF00_0000 == 0
    ensures Tick(UpByte(x)) == x
  {
    hide Tick, Entry, UpByte, LowByte, DownByte, Plus;
    TickIsLookup(UpByte(x));
    EntryOfZero();
    LowOfUp(x);
    UpDown(x);
    PlusZero(x);
    PlusCommutes(0, x);
  }

  lemma PlusCommutes(x: bv32, y: bv32)
    ensures Plus(x, y) == Plus(y, x)
  {
  }

  lemma PlusAssociates(x: bv32, y: bv32, z: bv32)
    ensures Plus(Plus(x, y), z) == Plus(x, Plus(y, z))
  {
    assert Plus(x ^ y, z) == Plus(x, y ^ z);
  }

  lemma LowOfUp(x: bv32)
    ensures LowByte(UpByte(x)) == 0
  {
    assert LowByte(x << 8) == 0;
  }

  lemma UpDown(x: bv32)
    requires x & 0xFF00_0000 == 0
    ensures DownByte(UpByte(x)) == x
  {
    assert DownByte(x << 8) == x & 0x00FF_FFFF;
    assert x & 0x00FF_FFFF == x;
  }

  /** Table `k` of the source, each defined from the one before by a shift and a lookup in table 0. */
  function Table(k: nat, b: bv8): bv32 {
    if k == 0 then Entry(b)
    else
      var t := Table(k - 1, b);
      Plus(DownByte(t), Entry(LowByte(t)))
  }

  lemma {:induction false} TableIsTicks(k: nat, b: bv8)
    ensures Table(k, b) == Ticks(Wide(b), k + 1)
  {
    hide Plus, DownByte, Entry, LowByte, Tick, Wide;
    if k == 0 {
      EntryIsTick(b);
      assert Ticks(Wide(b), 1) == Tick(Ticks(Wide(b), 0));
    } else {
      TableIsTicks(k - 1, b);
      TickIsLookup(Table(k - 1, b));
    }
  }

  lemma EntryIsTick(b: bv8)
    ensures Entry(b) == Tick(Wide(b))
  {
    hide Wide, Serial, ByteBits, Plus;
    ByteIsTick(0, b);
    assert Plus(0, Wide(b)) == Wide(b) by { PlusZero(Wide(b)); }
  }

  lemma PlusZero(x: bv32)
    ensures Plus(0, x) == x
  {
  }

  // ----- slicing by four and by eight

  function Word(b0: bv8, b1: bv8, b2: bv8, b3: bv8): bv32 {
    Plus(Wide(b0), UpByte(Plus(Wide(b1), UpByte(Plus(Wide(b2), UpByte(Wide(b3)))))))
  }

  lemma WordFits(b1: bv8, b2: bv8, b3: bv8)
    ensures Wide(b3) & 0xFF00_0000 == 0
    ensures Plus(Wide(b2), UpByte(Wide(b3))) & 0xFF00_0000 == 0
    ensures Plus(Wide(b1), UpByte(Plus(Wide(b2), UpByte(Wide(b3))))) & 0xFF00_0000 == 0
  {
  }

  /** The ticks of a little-endian word are the ticks of its bytes, each one fewer than the byte below. */
  lemma TicksOfWord(b0: bv8, b1: bv8, b2: bv8, b3: bv8, n: nat)
    ensures Ticks(Word(b0, b1, b2, b3), n + 4) ==
            Plus(Table(n + 3, b0), Plus(Table(n + 2, b1), Plus(Table(n + 1, b2), Table(n, b3))))
  {
    hide Plus, Wide, UpByte, Table, Tick;
    var w3 := Wide(b3);
    var w2 := Plus(Wide(b2), UpByte(w3));
    var w1 := Plus(Wide(b1), UpByte(w2));
    WordFits(b1, b2, b3);
    TableIsTicks(n + 3, b0);
    TableIsTicks(n + 2, b1);
    TableIsTicks(n + 1, b2);
    TableIsTicks(n, b3);
    TicksLinear(Wide(b0), UpByte(w1), n + 4);
    TicksOfUp(w1, n + 3);
    TicksLinear(Wide(b1), UpByte(w2), n + 3);
    TicksOfUp(w2, n + 2);
    TicksLinear(Wide(b2), UpByte(w3), n + 2);
    TicksOfUp(w3, n + 1);
  }

  lemma TicksOfUp(x: bv32, n: nat)
    requires x & 0xFF00_0000 == 0
    ensures Ticks(UpByte(x), n + 1) == Ticks(x, n)
  {
    hide UpByte, Tick;
    TicksAdd(UpByte(x), 1, n);
    assert Ticks(UpByte(x), 1) == Tick(Ticks(UpByte(x), 0));
    TickUndoesUp(x);
  }

  lemma TickWord(c: bv32, b: bv8, w: bv32)
    requires w & 0xFF00_0000 == 0
    ensures Tick(Plus(c, Plus(Wide(b), UpByte(w)))) == Plus(Serial(c, ByteBits(b)), w)
  {
    hide Plus, Wide, UpByte, Tick, Serial, ByteBits;
    PlusAssociates(c, Wide(b), UpByte(w));
    TickLinear(Plus(c, Wide(b)), UpByte(w));
    TickUndoesUp(w);
    ByteIsTick(c, b);
  }

  /** Four input bytes are one little-endian word combined with the register, followed by four ticks. */
  lemma FourBytes(c: bv32, d: seq<bv8>)
    requires |d| == 4
    ensures Serial(c, MessageBits(d)) == Ticks(Plus(c, Word(d[0], d[1], d[2], d[3])), 4)
  {
    hide Plus, Wide, UpByte, Tick, Serial, ByteBits;
    var w3 := Wide(d[3]);
    var w2 := Plus(Wide(d[2]), UpByte(w3));
    var w1 := Plus(Wide(d[1]), UpByte(w2));
    WordFits(d[1], d[2], d[3]);
    var c1 := Serial(c, ByteBits(d[0]));
    var c2 := Serial(c1, ByteBits(d[1]));
    var c3 := Serial(c2, ByteBits(d[2]));
    TickWord(c, d[0], w1);
    TickWord(c1, d[1], w2);
    TickWord(c2, d[2], w3);
    ByteIsTick(c3, d[3]);
    TicksFour(Plus(c, Word(d[0], d[1], d[2], d[3])));
    MessageOfFour(c, d);
  }

  lemma TicksFour(c: bv32)
    ensures Ticks(c, 4) == Tick(Tick(Tick(Tick(c))))
  {
    hide Tick;
    assert Ticks(c, 1) == Tick(Ticks(c, 0));
    assert Ticks(c, 2) == Tick(Ticks(c, 1));
    assert Ticks(c, 3) == Tick(Ticks(c, 2));
  }

  lemma MessageSnoc(c: bv32, data: seq<bv8>, i: nat)
    requires i < |data|
    ensures Serial(c, MessageBits(data[..i + 1])) == Serial(Serial(c, MessageBits(data[..i])), ByteBits(data[i]))
  {
    hide ByteBits, Serial;
    assert data[..i + 1] == data[..i] + [data[i]];
    MessageConcat(data[..i], [data[i]]);
    assert MessageBits([data[i]]) == ByteBits(data[i]) by { assert [data[i]][1..] == []; }
    SerialConcat(c, MessageBits(data[..i]), ByteBits(data[i]));
  }

  lemma MessageNil(c: bv32, data: seq<bv8>)
    ensures Serial(c, MessageBits(data[..0])) == c
  {
  }

  lemma MessageOfFour(c: bv32, d: seq<bv8>)
    requires |d| == 4
    ensures Serial(c, MessageBits(d)) ==
            Serial(Serial(Serial(Serial(c, ByteBits(d[0])), ByteBits(d[1])), ByteBits(d[2])), ByteBits(d[3]))
  {
    hide ByteBits, Serial, MessageBits;
    MessageNil(c, d);
    MessageSnoc(c, d, 0);
    MessageSnoc(c, d, 1);
    MessageSnoc(c, d, 2);
    MessageSnoc(c, d, 3);
    assert d[..4] == d;
  }

  function Byte(x: bv32, i: nat): bv8 {
    match i
    case 0 => (x & 0xff) as bv8
    case 1 => ((x >> 8) & 0xff) as bv8
    case 2 => ((x >> 16) & 0xff) as bv8
    case _ => (x >> 24) as bv8
  }

  lemma WordOfBytes(x: bv32)
    ensures Word(Byte(x, 0), Byte(x, 1), Byte(x, 2), Byte(x, 3)) == x
  {
    WordBits(Byte(x, 0), Byte(x, 1), Byte(x, 2), Byte(x, 3));
    ByteBitsOf(x);
  }

  lemma WordBits(b0: bv8, b1: bv8, b2: bv8, b3: bv8)
    ensures Word(b0, b1, b2, b3) == (b0 as bv32) ^ ((b1 as bv32) << 8) ^ ((b2 as bv32) << 16) ^ ((b3 as bv32) << 24)
  {
  }

  lemma ByteBitsOf(x: bv32)
    ensures (((x & 0xff) as bv8) as bv32) ^ ((((x >> 8) & 0xff) as bv8 as bv32) << 8)
            ^ ((((x >> 16) & 0xff) as bv8 as bv32) << 16) ^ (((x >> 24) as bv8 as bv32) << 24) == x
  {
  }

  /** The eight lookups of one round of the main loop. */
  function Slice(one: bv32, two: bv32): bv32 {
    Plus(Plus(Plus(Plus(Plus(Plus(Plus(
      Table(7, Byte(one, 0)), Table(6, Byte(one, 1))), Table(5, Byte(one, 2))), Table(4, Byte(one, 3))),
      Table(3, Byte(two, 0))), Table(2, Byte(two, 1))), Table(1, Byte(two, 2))), Table(0, Byte(two, 3)))
  }

  lemma PlusRegroup(a: bv32, b: bv32, c: bv32, d: bv32, e: bv32, f: bv32, g: bv32, h: bv32)
    ensures Plus(Plus(Plus(Plus(Plus(Plus(Plus(a, b), c), d), e), f), g), h)
         == Plus(Plus(a, Plus(b, Plus(c, d))), Plus(e, Plus(f, Plus(g, h))))
  {
    hide Plus;
    PlusAssociates(a, b, c);
    PlusAssociates(a, Plus(b, c), d);
    PlusAssociates(b, c, d);
    var l := Plus(a, Plus(b, Plus(c, d)));
    PlusAssociates(l, e, f);
    PlusAssociates(l, Plus(e, f), g);
    PlusAssociates(e, f, g);
    PlusAssociates(l, Plus(e, Plus(f, g)), h);
    PlusAssociates(e, Plus(f, g), h);
    PlusAssociates(f, g, h);
  }

  /** One round of slicing by eight advances the register by exactly its eight bytes. */
  lemma SliceIsEightBytes(c: bv32, d: seq<bv8>)
    requires |d| == 8
    ensures Serial(c, MessageBits(d)) ==
            Slice(Plus(Word(d[0], d[1], d[2], d[3]), c), Word(d[4], d[5], d[6], d[7]))
  {
    hide Plus, Word, Table, Serial, MessageBits, Ticks, Byte;
    var one, two := Plus(Word(d[0], d[1], d[2], d[3]), c), Word(d[4], d[5], d[6], d[7]);
    var lo, hi := d[..4], d[4..];
    assert d == lo + hi;
    MessageConcat(lo, hi);
    SerialConcat(c, MessageBits(lo), MessageBits(hi));
    FourBytes(c, lo);
    PlusCommutes(c, Word(d[0], d[1], d[2], d[3]));
    FourBytes(Serial(c, MessageBits(lo)), hi);
    TicksLinear(Ticks(one, 4), two, 4);
    TicksAdd(one, 4, 4);
    WordOfBytes(one);
    WordOfBytes(two);
    TicksOfWord(Byte(one, 0), Byte(one, 1), Byte(one, 2), Byte(one, 3), 4);
    TicksOfWord(Byte(two, 0), Byte(two, 1), Byte(two, 2), Byte(two, 3), 0);
    PlusRegroup(Table(7, Byte(one, 0)), Table(6, Byte(one, 1)), Table(5, Byte(one, 2)), Table(4, Byte(one, 3)),
                Table(3, Byte(two, 0)), Table(2, Byte(two, 1)), Table(1, Byte(two, 2)), Table(0, Byte(two, 3)));
  }

  // ----- bit reversal

  function Nibble(x: bv8): bv8
    requires x < 16
  {
    match x
    case 0x0 => 0x0 case 0x1 => 0x8 case 0x2 => 0x4 case 0x3 => 0xC
    case 0x4 => 0x2 case 0x5 => 0xA case 0x6 => 0x6 case 0x7 => 0xE
    case 0x8 => 0x1 case 0x9 => 0x9 case 0xA => 0x5 case 0xB => 0xD
    case 0xC => 0x3 case 0xD => 0xB case 0xE => 0x7 case _ => 0xF
  }

  function ReverseU8(x: bv8): bv8 { Nibble((x & 0xf0) >> 4) | (Nibble(x & 0x0f) << 4) }

  lemma ReverseU8Swaps(x: bv8, i: nat)
    requires i < 8
    ensures BitOf(ReverseU8(x), i) == BitOf(x, 7 - i)
  {
  }

  lemma LowOfShifted(x: bv8)
    ensures Low(x as bv32) == BitOf(x, 0) && Low((x as bv32) >> 1) == BitOf(x, 1)
    ensures Low((x as bv32) >> 2) == BitOf(x, 2) && Low((x as bv32) >> 3) == BitOf(x, 3)
    ensures Low((x as bv32) >> 4) == BitOf(x, 4) && Low((x as bv32) >> 5) == BitOf(x, 5)
    ensures Low((x as bv32) >> 6) == BitOf(x, 6) && Low((x as bv32) >> 7) == BitOf(x, 7)
  {
  }

  lemma {:induction false} BitsAt(x: bv32, n: nat, i: nat)
    requires i < n
    ensures LsbBits(x, n)[i] == Low(Shr(x, i))
    decreases n
  {
    hide Low, Down;
    if i > 0 { BitsAt(Down(x), n - 1, i - 1); }
  }

  lemma ShrOfByte(x: bv8, i: nat)
    requires i < 8
    ensures Low(Shr(Wide(x), i)) == BitOf(x, i)
  {
    hide Low, Down, BitOf;
    var w := x as bv32;
    LowOfShifted(x);
    DownOfShifted(w);
    assert Shr(w, 1) == Down(w);
    assert Shr(w, 2) == Down(Down(w));
    assert Shr(w, 3) == Down(Down(Down(w)));
    assert Shr(w, 4) == Down(Down(Down(Down(w))));
    assert Shr(w, 5) == Down(Down(Down(Down(Down(w)))));
    assert Shr(w, 6) == Down(Down(Down(Down(Down(Down(w))))));
    assert Shr(w, 7) == Down(Down(Down(Down(Down(Down(Down(w)))))));
    assert i == 0 || i == 1 || i == 2 || i == 3 || i == 4 || i == 5 || i == 6 || i == 7;
  }

  lemma ByteBitsAt(x: bv8, i: nat)
    requires i < 8
    ensures ByteBits(x)[i] == BitOf(x, i)
  {
    hide Low, Shr, BitOf, LsbBits, Wide;
    BitsAt(Wide(x), 8, i);
    ShrOfByte(x, i);
  }

  function Reversed(m: Bits): (n: Bits)
    ensures |n| == |m| && forall i :: 0 <= i < |m| ==> n[i] == m[|m| - 1 - i]
  {
    seq(|m|, i requires 0 <= i < |m| => m[|m| - 1 - i])
  }

  lemma ReverseU8Reverses(x: bv8)
    ensures ByteBits(ReverseU8(x)) == Reversed(ByteBits(x))
  {
    hide ByteBits, ReverseU8, BitOf;
    forall i | 0 <= i < 8 ensures ByteBits(ReverseU8(x))[i] == Reversed(ByteBits(x))[i] {
      ByteBitsAt(ReverseU8(x), i);
      ByteBitsAt(x, 7 - i);
      ReverseU8Swaps(x, i);
    }
  }

  /** The word with its 32 bits in the opposite order. */
  function Mirror(x: bv32): bv32 {
    Word(ReverseU8(Byte(x, 3)), ReverseU8(Byte(x, 2)), ReverseU8(Byte(x, 1)), ReverseU8(Byte(x, 0)))
  }

  lemma LowBits(x: bv32)
    ensures LsbBits(x, 8) == ByteBits(LowByte(x))
  {
    hide Plus, LsbBits, Rest, LowByte, Wide;
    SplitWord(x, 0);
    assert LowByte(x) ^ 0 == LowByte(x);
    assert Wide(0) == 0 by { WideZero(); }
    PlusCommutes(x, 0);
    PlusZero(x);
    BitsOfPlus(Wide(LowByte(x)), Rest(x), 8);
    RestShifts(x);
    assert Xor(ByteBits(LowByte(x)), Zeros(8)) == ByteBits(LowByte(x));
  }

  lemma WideZero()
    ensures Wide(0) == 0
  {
  }

  lemma LowByteOfShifted(x: bv32)
    ensures LowByte(x) == Byte(x, 0) && LowByte(x >> 8) == Byte(x, 1)
    ensures LowByte(x >> 16) == Byte(x, 2) && LowByte(x >> 24) == Byte(x, 3)
  {
  }

  lemma ViewOfBytes(x: bv32)
    ensures View(x) == ByteBits(Byte(x, 0)) + (ByteBits(Byte(x, 1)) + (ByteBits(Byte(x, 2)) + ByteBits(Byte(x, 3))))
  {
    hide LsbBits, Shr, DownByte, LowByte, ByteBits, Byte;
    BitsSplit(x, 8, 24);
    BitsSplit(x >> 8, 8, 16);
    BitsSplit(x >> 16, 8, 8);
    ShrByByte(x);
    ShrByByte(x >> 8);
    ShrByByte(x >> 16);
    DownByteOfShifted(x);
    LowBits(x);
    LowBits(x >> 8);
    LowBits(x >> 16);
    LowBits(x >> 24);
    LowByteOfShifted(x);
  }

  lemma ByteOfWord(b0: bv8, b1: bv8, b2: bv8, b3: bv8)
    ensures Byte(Word(b0, b1, b2, b3), 0) == b0 && Byte(Word(b0, b1, b2, b3), 1) == b1
    ensures Byte(Word(b0, b1, b2, b3), 2) == b2 && Byte(Word(b0, b1, b2, b3), 3) == b3
  {
    WordBits(b0, b1, b2, b3);
    var x := (b0 as bv32) ^ ((b1 as bv32) << 8) ^ ((b2 as bv32) << 16) ^ ((b3 as bv32) << 24);
    assert Byte(x, 0) == b0 && Byte(x, 1) == b1 && Byte(x, 2) == b2 && Byte(x, 3) == b3;
  }

  lemma MirrorReverses(x: bv32)
    ensures View(Mirror(x)) == Reversed(View(x))
  {
    hide Word, View, ByteBits, Byte, ReverseU8;
    var b0, b1, b2, b3 := Byte(x, 0), Byte(x, 1), Byte(x, 2), Byte(x, 3);
    ViewOfBytes(x);
    ViewOfBytes(Mirror(x));
    ByteOfWord(ReverseU8(b3), ReverseU8(b2), ReverseU8(b1), ReverseU8(b0));
    ReverseU8Reverses(b0);
    ReverseU8Reverses(b1);
    ReverseU8Reverses(b2);
    ReverseU8Reverses(b3);
    ReversedFour(ByteBits(b0), ByteBits(b1), ByteBits(b2), ByteBits(b3));
  }

  lemma ReversedConcat(m: Bits, n: Bits)
    ensures Reversed(m + n) == Reversed(n) + Reversed(m)
  {
  }

  lemma ReversedFour(a: Bits, b: Bits, c: Bits, d: Bits)
    ensures Reversed(a + (b + (c + d))) == Reversed(d) + (Reversed(c) + (Reversed(b) + Reversed(a)))
  {
    hide Reversed;
    ReversedConcat(a, b + (c + d));
    ReversedConcat(b, c + d);
    ReversedConcat(c, d);
    assert ((Reversed(d) + Reversed(c)) + Reversed(b)) + Reversed(a)
        == Reversed(d) + (Reversed(c) + (Reversed(b) + Reversed(a)));
  }

  /** Reversing the bits of a word twice gives the word back. */
  lemma MirrorTwice(x: bv32)
    ensures Mirror(Mirror(x)) == x
  {
    hide View, Mirror;
    MirrorReverses(x);
    MirrorReverses(Mirror(x));
    assert Reversed(Reversed(View(x))) == View(x);
    ViewInjective(Mirror(Mirror(x)), x);
  }

  function Or(x: bv32, y: bv32): bv32 { x | y }

  /** What the loop of `Reverse` has gathered after `i` bytes, before the shift that follows. */
  function Gathered(x: bv32, i: nat): bv32 {
    if i == 0 then 0
    else Or(if i == 1 then 0 else UpByte(Gathered(x, i - 1)), Wide(ReverseU8(Byte(x, i - 1))))
  }

  lemma OrIsPlus(x: bv32, b: bv8)
    ensures Or(UpByte(x), Wide(b)) == Plus(Wide(b), UpByte(x))
  {
    assert Or(x << 8, b as bv32) == Plus(b as bv32, x << 8);
  }

  lemma OrZero(x: bv32)
    ensures Or(0, x) == x
  {
  }

  lemma FourGathered(x: bv32)
    ensures Gathered(x, 4) == Mirror(x)
  {
    hide ReverseU8, Byte, Or, UpByte, Wide, Plus;
    assert Gathered(x, 1) == Or(0, Wide(ReverseU8(Byte(x, 0))));
    assert Gathered(x, 2) == Or(UpByte(Gathered(x, 1)), Wide(ReverseU8(Byte(x, 1))));
    assert Gathered(x, 3) == Or(UpByte(Gathered(x, 2)), Wide(ReverseU8(Byte(x, 2))));
    OrZero(Wide(ReverseU8(Byte(x, 0))));
    OrIsPlus(Gathered(x, 1), ReverseU8(Byte(x, 1)));
    OrIsPlus(Gathered(x, 2), ReverseU8(Byte(x, 2)));
    OrIsPlus(Gathered(x, 3), ReverseU8(Byte(x, 3)));
  }

  method Reverse(num: bv32) returns (rev: bv32)
    ensures rev == Mirror(num)
  {
    hide Or, UpByte, Wide, ReverseU8, Byte, Mirror;
    rev := 0;
    var i := 0;
    while i < 4
      invariant 0 <= i <= 4
      invariant rev == if 0 < i < 4 then UpByte(Gathered(num, i)) else Gathered(num, i)
    {
      rev := Or(rev, Wide(ReverseU8(Byte(num, i))));
      if i < 3 {
        rev := UpByte(rev);
      }
      i := i + 1;
    }
    FourGathered(num);
  }

  // ----- the whole routine

  /** How a seed enters and a register leaves: mirrored when the bypass flag is set, inverted otherwise. */
  function Convert(x: bv32, bypassInvRef: bool): bv32 {
    if bypassInvRef then Mirror(x) else Not(x)
  }

  function Not(x: bv32): bv32 { !x }

  lemma NotTwice(x: bv32)
    ensures Not(Not(x)) == x
  {
    assert Not(!x) == x;
  }

  lemma ConvertTwice(x: bv32, bypassInvRef: bool)
    ensures Convert(Convert(x, bypassInvRef), bypassInvRef) == x
  {
    hide Mirror, Not;
    MirrorTwice(x);
    NotTwice(x);
  }

  /** The bits one byte puts in. */
  function ByteInput(x: bv8, bypassDataRef: bool): (m: Bits)
    ensures |m| == 8
  {
    if bypassDataRef then Reversed(ByteBits(x)) else ByteBits(x)
  }

  /** The bits in the order they enter: each byte least significant bit first, or most when bypassed. */
  function InputBits(data: seq<bv8>, bypassDataRef: bool): (m: Bits)
    ensures |m| == 8 * |data|
  {
    if data == [] then []
    else ByteInput(data[0], bypassDataRef) + InputBits(data[1..], bypassDataRef)
  }

  /** CRC-32C one bit at a time, for all four flag settings. */
  function Crc32c(data: seq<bv8>, seed: bv32, bypassInvRef: bool, bypassDataRef: bool): bv32 {
    Convert(Serial(Convert(seed, bypassInvRef), InputBits(data, bypassDataRef)), bypassInvRef)
  }

  lemma {:induction false} InputPlain(data: seq<bv8>)
    ensures InputBits(data, false) == MessageBits(data)
  {
    hide ByteBits;
    if data != [] { InputPlain(data[1..]); }
  }

  lemma {:induction false} InputConcat(a: seq<bv8>, b: seq<bv8>, bypassDataRef: bool)
    ensures InputBits(a + b, bypassDataRef) == InputBits(a, bypassDataRef) + InputBits(b, bypassDataRef)
  {
    hide ByteBits;
    if a == [] {
      assert a + b == b;
    } else {
      assert (a + b)[1..] == a[1..] + b;
      InputConcat(a[1..], b, bypassDataRef);
    }
  }

  lemma SerialSnoc(c: bv32, data: seq<bv8>, i: nat, bypassDataRef: bool)
    requires i < |data|
    ensures Serial(c, InputBits(data[..i + 1], bypassDataRef)) ==
            Serial(Serial(c, InputBits(data[..i], bypassDataRef)),
                   if bypassDataRef then Reversed(ByteBits(data[i])) else ByteBits(data[i]))
  {
    hide ByteBits, Serial;
    var b := [data[i]];
    assert data[..i + 1] == data[..i] + b;
    InputConcat(data[..i], b, bypassDataRef);
    assert b[1..] == [];
    assert InputBits(b, bypassDataRef) == if bypassDataRef then Reversed(ByteBits(data[i])) else ByteBits(data[i]);
    SerialConcat(c, InputBits(data[..i], bypassDataRef), InputBits(b, bypassDataRef));
  }

  lemma SerialEight(c: bv32, data: seq<bv8>, i: nat)
    requires i + 8 <= |data|
    ensures Serial(c, InputBits(data[..i + 8], false)) ==
            Serial(Serial(c, InputBits(data[..i], false)), MessageBits(data[i..i + 8]))
  {
    hide Serial, InputBits, MessageBits;
    assert data[..i + 8] == data[..i] + data[i..i + 8];
    InputConcat(data[..i], data[i..i + 8], false);
    InputPlain(data[i..i + 8]);
    SerialConcat(c, InputBits(data[..i], false), InputBits(data[i..i + 8], false));
  }

  lemma SerialNone(c: bv32, data: seq<bv8>, bypassDataRef: bool)
    ensures Serial(c, InputBits(data[..0], bypassDataRef)) == c
    ensures data[..|data|] == data
  {
  }

  /** A little-endian 32-bit load. */
  function Load(data: seq<bv8>, at: nat): bv32
    requires at + 4 <= |data|
  {
    Word(data[at], data[at + 1], data[at + 2], data[at + 3])
  }

  /** For every buffer, length, seed and flag setting the table code computes the bit-serial CRC. */
  method DsaCalculateCrc32(data: seq<bv8>, seed: bv32, bypassInvRef: bool, bypassDataRef: bool) returns (r: bv32)
    ensures r == Crc32c(data, seed, bypassInvRef, bypassDataRef)
  {
    hide Plus, Not, Mirror, Serial, InputBits, MessageBits, Word, Slice, DownByte, LowByte, Entry, ReverseU8, ByteBits;
    var crc;
    if bypassInvRef {
      crc := Reverse(seed);
    } else {
      crc := Not(seed);
    }
    ghost var start := crc;
    var current, length := 0, |data|;
    SerialNone(start, data, bypassDataRef);
    if !bypassDataRef {
      while length >= 8
        invariant 0 <= current && 0 <= length && current + length == |data|
        invariant crc == Serial(start, InputBits(data[..current], false))
      {
        var one := Plus(Load(data, current), crc);
        var two := Load(data, current + 4);
        SerialEight(start, data, current);
        SliceIsEightBytes(crc, data[current..current + 8]);
        crc := Slice(one, two);
        current := current + 8;
        length := length - 8;
      }
      while length > 0
        invariant 0 <= current && 0 <= length && current + length == |data|
        invariant crc == Serial(start, InputBits(data[..current], false))
      {
        SerialSnoc(start, data, current, false);
        TableStep(crc, data[current]);
        crc := Plus(DownByte(crc), Entry(LowByte(crc) ^ data[current]));
        current := current + 1;
        length := length - 1;
      }
    } else {
      while length > 0
        invariant 0 <= current && 0 <= length && current + length == |data|
        invariant crc == Serial(start, InputBits(data[..current], true))
      {
        SerialSnoc(start, data, current, true);
        ReverseU8Reverses(data[current]);
        TableStep(crc, ReverseU8(data[current]));
        PlusCommutes(DownByte(crc), Entry(LowByte(crc) ^ ReverseU8(data[current])));
        crc := Plus(Entry(LowByte(crc) ^ ReverseU8(data[current])), DownByte(crc));
        current := current + 1;
        length := length - 1;
      }
    }
    if bypassInvRef {
      r := Reverse(crc);
    } else {
      r := Not(crc);
    }
  }

  // ----- what the checksum means

  /** For all four flag settings a buffer may be checksummed in pieces, each seeded with the last result. */
  lemma Crc32cChains(a: seq<bv8>, b: seq<bv8>, seed: bv32, inv: bool, ref: bool)
    ensures Crc32c(a + b, seed, inv, ref) == Crc32c(b, Crc32c(a, seed, inv, ref), inv, ref)
  {
    hide Convert, Serial, InputBits;
    var c := Convert(seed, inv);
    InputConcat(a, b, ref);
    SerialConcat(c, InputBits(a, ref), InputBits(b, ref));
    ConvertTwice(Serial(c, InputBits(a, ref)), inv);
  }

  function Reflected(data: seq<bv8>): (r: seq<bv8>)
    ensures |r| == |data| && forall i :: 0 <= i < |data| ==> r[i] == ReverseU8(data[i])
  {
    seq(|data|, i requires 0 <= i < |data| => ReverseU8(data[i]))
  }

  lemma {:induction false} InputReflected(data: seq<bv8>)
    ensures InputBits(data, true) == InputBits(Reflected(data), false)
  {
    hide ByteBits, ReverseU8;
    if data != [] {
      ReverseU8Reverses(data[0]);
      assert Reflected(data)[1..] == Reflected(data[1..]);
      InputReflected(data[1..]);
    }
  }

  /** Bypassing data reflection is the plain checksum of the buffer with every byte's bits reversed. */
  lemma DataBypassIsReflection(data: seq<bv8>, seed: bv32, inv: bool)
    ensures Crc32c(data, seed, inv, true) == Crc32c(Reflected(data), seed, inv, false)
  {
    hide Convert, Serial, InputBits;
    InputReflected(data);
  }

  /** Between its two conversions the checksum is a remainder modulo x^32 plus the CRC-32C polynomial. */
  lemma Crc32cIsRemainder(data: seq<bv8>, seed: bv32, inv: bool, ref: bool)
    ensures View(Convert(Crc32c(data, seed, inv, ref), inv)) ==
            Remainder(View(Poly()), Dividend(View(Convert(seed, inv)), InputBits(data, ref)))
  {
    hide Convert, Serial, InputBits, View, Poly;
    var c := Convert(seed, inv);
    ConvertTwice(Serial(c, InputBits(data, ref)), inv);
    SerialIsRun(c, InputBits(data, ref));
    RunIsRemainder(View(Poly()), View(c), InputBits(data, ref));
  }

  lemma PolyIsOdd()
    ensures Odd(View(Poly()))
  {
    ViewOfBytes(Poly());
    ByteBitsAt(0x82, 7);
    assert Byte(Poly(), 3) == 0x82;
  }

  /** Buffers whose input bits differ only inside some 32 consecutive positions are told apart. */
  lemma Crc32cDetectsBursts(a: seq<bv8>, b: seq<bv8>, seed: bv32, inv: bool, ref: bool, at: nat)
    requires WithinWindow(InputBits(a, ref), InputBits(b, ref), at, 32) && InputBits(a, ref) != InputBits(b, ref)
    ensures Crc32c(a, seed, inv, ref) != Crc32c(b, seed, inv, ref)
  {
    hide Convert, Serial, InputBits, View, Poly, Run;
    var c := Convert(seed, inv);
    PolyIsOdd();
    SerialIsRun(c, InputBits(a, ref));
    SerialIsRun(c, InputBits(b, ref));
    BurstDetected(View(Poly()), View(c), InputBits(a, ref), InputBits(b, ref), at);
    ConvertTwice(Serial(c, InputBits(a, ref)), inv);
    ConvertTwice(Serial(c, InputBits(b, ref)), inv);
  }

  lemma SameBits(x: bv8, y: bv8)
    requires forall i :: 0 <= i < 8 ==> BitOf(x, i) == BitOf(y, i)
    ensures x == y
  {
    assert BitOf(x, 0) == BitOf(y, 0) && BitOf(x, 1) == BitOf(y, 1) && BitOf(x, 2) == BitOf(y, 2);
    assert BitOf(x, 3) == BitOf(y, 3) && BitOf(x, 4) == BitOf(y, 4) && BitOf(x, 5) == BitOf(y, 5);
    assert BitOf(x, 6) == BitOf(y, 6) && BitOf(x, 7) == BitOf(y, 7);
  }

  lemma ByteInputInjective(x: bv8, y: bv8, ref: bool)
    requires ByteInput(x, ref) == ByteInput(y, ref)
    ensures x == y
  {
    hide ByteBits, BitOf;
    forall i | 0 <= i < 8 ensures BitOf(x, i) == BitOf(y, i) {
      ByteBitsAt(x, i);
      ByteBitsAt(y, i);
      var k := if ref then 7 - i else i;
      assert ByteInput(x, ref)[k] == ByteBits(x)[i] && ByteInput(y, ref)[k] == ByteBits(y)[i];
    }
    SameBits(x, y);
  }

  lemma InputByte(data: seq<bv8>, j: nat, ref: bool)
    requires j < |data|
    ensures InputBits(data, ref)[8 * j..8 * j + 8] == ByteInput(data[j], ref)
  {
    hide ByteInput, InputBits;
    var rest := data[j..];
    assert data == data[..j] + rest;
    InputConcat(data[..j], rest, ref);
    InputHead(rest, ref);
    MiddleOf(InputBits(data[..j], ref), ByteInput(rest[0], ref), InputBits(rest[1..], ref));
  }

  lemma InputHead(data: seq<bv8>, ref: bool)
    requires data != []
    ensures InputBits(data, ref) == ByteInput(data[0], ref) + InputBits(data[1..], ref)
  {
  }

  /** The same for bytes: a change confined to four consecutive bytes never goes unnoticed. */
  lemma Crc32cDetectsByteBursts(a: seq<bv8>, b: seq<bv8>, seed: bv32, inv: bool, ref: bool, at: nat)
    requires |a| == |b| && a != b
    requires forall j :: 0 <= j < |a| && !(at <= j < at + 4) ==> a[j] == b[j]
    ensures Crc32c(a, seed, inv, ref) != Crc32c(b, seed, inv, ref)
  {
    hide InputBits, ByteInput, Crc32c;
    var m, n := InputBits(a, ref), InputBits(b, ref);
    forall i | 0 <= i < |m| && !(8 * at <= i < 8 * at + 32) ensures m[i] == n[i] {
      var j := i / 8;
      InputByte(a, j, ref);
      InputByte(b, j, ref);
      assert m[i] == m[8 * j..8 * j + 8][i - 8 * j];
      assert n[i] == n[8 * j..8 * j + 8][i - 8 * j];
    }
    var j :| 0 <= j < |a| && a[j] != b[j];
    InputByte(a, j, ref);
    InputByte(b, j, ref);
    if m == n { ByteInputInjective(a[j], b[j], ref); }
    Crc32cDetectsBursts(a, b, seed, inv, ref, 8 * at);
  }

  /** Two buffers of equal length share a CRC exactly when the polynomial divides their difference, shifted up. */
  lemma Crc32cCollidesExactly(a: seq<bv8>, b: seq<bv8>, seed: bv32, inv: bool, ref: bool)
    requires |a| == |b|
    ensures Crc32c(a, seed, inv, ref) == Crc32c(b, seed, inv, ref) <==>
            Remainder(View(Poly()), Xor(InputBits(a, ref), InputBits(b, ref)) + Zeros(32)) == Zeros(32)
  {
    hide Convert, Serial, InputBits, View, Poly, Run, Remainder;
    var c, m, n := Convert(seed, inv), InputBits(a, ref), InputBits(b, ref);
    SerialIsRun(c, m);
    SerialIsRun(c, n);
    SameRegisterExactly(View(Poly()), View(c), m, n);
    if View(Serial(c, m)) == View(Serial(c, n)) { ViewInjective(Serial(c, m), Serial(c, n)); }
    ConvertTwice(Serial(c, m), inv);
    ConvertTwice(Serial(c, n), inv);
  }

  // ----- what the flags mean

  /** Input bit 8i + j is bit j of byte i, or bit 7 - j when data reflection is bypassed. */
  lemma InputBitsAt(data: seq<bv8>, ref: bool, i: nat, j: nat)
    requires i < |data| && j < 8
    ensures InputBits(data, ref)[8 * i + j] == BitOf(data[i], if ref then 7 - j else j)
  {
    hide BitOf, ByteBits, InputBits;
    InputByte(data, i, ref);
    assert InputBits(data, ref)[8 * i + j] == InputBits(data, ref)[8 * i..8 * i + 8][j];
    ByteBitsAt(data[i], if ref then 7 - j else j);
  }

  /** Bit i of a word, the least significant first. */
  lemma ViewAt(x: bv32, i: nat)
    requires i < 32
    ensures View(x)[i] == Low(Shr(x, i))
  {
    hide Low, Shr;
    ViewIsBits(x);
    BitsAt(x, 32, i);
  }

  lemma NotIsPlus(x: bv32)
    ensures Not(x) == Plus(x, 0xFFFF_FFFF)
  {
    assert Not(x) == x ^ 0xFFFF_FFFF;
  }

  lemma AllOnes()
    ensures forall i :: 0 <= i < 32 ==> View(0xFFFF_FFFF)[i]
  {
    hide View, ByteBits, Byte, BitOf;
    ViewOfBytes(0xFFFF_FFFF);
    AllBytes();
    forall i | 0 <= i < 8 ensures ByteBits(0xff)[i] { ByteBitsAt(0xff, i); AllBits(i); }
  }

  lemma AllBytes()
    ensures Byte(0xFFFF_FFFF, 0) == Byte(0xFFFF_FFFF, 1) == Byte(0xFFFF_FFFF, 2) == Byte(0xFFFF_FFFF, 3) == 0xff
  {
  }

  lemma AllBits(i: nat)
    ensures BitOf(0xff, i)
  {
  }

  lemma ViewOfNot(x: bv32)
    ensures View(Not(x)) == Complement(View(x))
  {
    hide View, Plus, Not;
    NotIsPlus(x);
    ViewOfPlus(x, 0xFFFF_FFFF);
    AllOnes();
  }

  /** Without the bypass: start from the complement of the seed, and turn the remainder over. */
  lemma PlainCrcIs(data: seq<bv8>, seed: bv32, ref: bool)
    ensures View(Crc32c(data, seed, false, ref)) ==
            Complement(Remainder(View(Poly()), Dividend(Complement(View(seed)), InputBits(data, ref))))
  {
    hide Serial, InputBits, View, Poly, Not, Remainder, Complement;
    var c, m := Not(seed), InputBits(data, ref);
    SerialIsRun(c, m);
    RunIsRemainder(View(Poly()), View(c), m);
    ViewOfNot(seed);
    ViewOfNot(Serial(c, m));
  }

  /** With it: start from the seed reversed, and reverse the remainder. */
  lemma BypassCrcIs(data: seq<bv8>, seed: bv32, ref: bool)
    ensures View(Crc32c(data, seed, true, ref)) ==
            Reversed(Remainder(View(Poly()), Dividend(Reversed(View(seed)), InputBits(data, ref))))
  {
    hide Serial, InputBits, View, Poly, Mirror, Remainder, Reversed;
    var c, m := Mirror(seed), InputBits(data, ref);
    SerialIsRun(c, m);
    RunIsRemainder(View(Poly()), View(c), m);
    MirrorReverses(seed);
    MirrorReverses(Serial(c, m));
  }
}
