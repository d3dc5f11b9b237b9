/**
 64-bit words as sequences of 64 bits, most significant first, and how the operators of the source
 act on those bits.
 */
module Word64 {
  import opened Lfsr

  function Plus(x: bv64, y: bv64): bv64 { x ^ y }

  function Up(x: bv64): bv64 { x << 1 }

  function Top(x: bv64): bool { x & 0x8000_0000_0000_0000 != 0 }

  // ----- words as sequences of coefficients, most significant first

  function MsbBits(x: bv64, n: nat): (m: Bits)
    ensures |m| == n
    decreases n
  {
    if n == 0 then [] else [Top(x)] + MsbBits(Up(x), n - 1)
  }

  function View(x: bv64): (m: Bits)
    ensures |m| == 64
  {
    MsbBits(x, 64)
  }

  function UpByte(x: bv64): bv64 { x << 8 }

  /** `x << n`. */
  function Shl(x: bv64, n: nat): bv64
    decreases n
  {
    if n == 0 then x else Shl(Up(x), n - 1)
  }

  lemma TopOfPlus(x: bv64, y: bv64)
    ensures Top(Plus(x, y)) == (Top(x) != Top(y))
  {
    assert Top(x ^ y) == (Top(x) != Top(y));
  }

  lemma UpOfPlus(x: bv64, y: bv64)
    ensures Up(Plus(x, y)) == Plus(Up(x), Up(y))
  {
    assert Up(x ^ y) == Plus(x << 1, y << 1);
  }

  lemma {:induction false} BitsOfPlus(x: bv64, y: bv64, n: nat)
    ensures MsbBits(Plus(x, y), n) == Xor(MsbBits(x, n), MsbBits(y, n))
    decreases n
  {
    hide Plus, Up, Top;
    if n > 0 {
      TopOfPlus(x, y);
      UpOfPlus(x, y);
      BitsOfPlus(Up(x), Up(y), n - 1);
    }
  }

  lemma {:induction false} BitsSplit(x: bv64, m: nat, n: nat)
    ensures MsbBits(x, m + n) == MsbBits(x, m) + MsbBits(Shl(x, m), n)
    decreases m
  {
    hide Up, Top;
    if m > 0 { BitsSplit(Up(x), m - 1, n); }
  }

  lemma {:induction false} ShlAdds(x: bv64, m: nat, n: nat)
    ensures Shl(x, m + n) == Shl(Shl(x, m), n)
    decreases m
  {
    hide Up;
    if m > 0 { ShlAdds(Up(x), m - 1, n); }
  }

  lemma ShlByByte(x: bv64)
    ensures Shl(x, 8) == UpByte(x)
  {
    assert Shl(x, 8) == Up(Up(Up(Up(Up(Up(Up(Up(x)))))))) by { hide Up; }
    UpEight(x);
  }

  lemma UpOfShifted(x: bv64)
    ensures Up(x) == x << 1 && Up(x << 1) == x << 2 && Up(x << 2) == x << 3 && Up(x << 3) == x << 4
    ensures Up(x << 4) == x << 5 && Up(x << 5) == x << 6 && Up(x << 6) == x << 7 && Up(x << 7) == x << 8
  {
  }

  lemma UpEight(x: bv64)
    ensures Up(Up(Up(Up(Up(Up(Up(Up(x)))))))) == x << 8
  {
    hide Up;
    UpOfShifted(x);
  }

  lemma UpByteOfShifted(x: bv64)
    ensures UpByte(x) == x << 8 && UpByte(x << 8) == x << 16 && UpByte(x << 16) == x << 24 && UpByte(x << 24) == x << 32
    ensures UpByte(x << 32) == x << 40 && UpByte(x << 40) == x << 48 && UpByte(x << 48) == x << 56 && UpByte(x << 56) == 0
  {
  }

  lemma {:induction false} ShlBytes(x: bv64, n: nat)
    requires n > 0
    ensures Shl(x, 8 * n) == Shl(UpByte(x), 8 * (n - 1))
  {
    hide Shl, UpByte;
    ShlAdds(x, 8, 8 * (n - 1));
    ShlByByte(x);
  }

  lemma ShlAll(x: bv64)
    ensures Shl(x, 64) == 0
  {
    hide Shl, UpByte;
    UpByteOfShifted(x);
    ShlBytes(x, 8);
    ShlBytes(x << 8, 7);
    ShlBytes(x << 16, 6);
    ShlBytes(x << 24, 5);
    ShlBytes(x << 32, 4);
    ShlBytes(x << 40, 3);
    ShlBytes(x << 48, 2);
    ShlByByte(x << 56);
  }

  lemma BitsHead(x: bv64, n: nat)
    ensures MsbBits(x, n + 1) == [Top(x)] + MsbBits(Up(x), n)
  {
  }

  lemma OneBit(x: bv64)
    ensures MsbBits(x, 1) == [Top(x)]
  {
  }

  lemma LastShift(x: bv64)
    ensures Shl(Up(x), 63) == 0
  {
    hide Up;
    ShlAdds(x, 1, 63);
    ShlAll(x);
  }

  /** Shifting a word left moves its coefficients up and fills with zeros. */
  lemma ViewOfUp(x: bv64)
    ensures View(Up(x)) == View(x)[1..] + [false]
  {
    hide Up, MsbBits, Shl, Top;
    BitsHead(x, 63);
    BitsSplit(Up(x), 63, 1);
    LastShift(x);
    OneBit(0);
    assert !Top(0) by { NoBit(); }
  }

  lemma NoBit()
    ensures !Top(0)
  {
  }

  lemma {:induction false} ViewOfShl(x: bv64, n: nat)
    requires n <= 64
    ensures View(Shl(x, n)) == View(x)[n..] + Zeros(n)
    decreases n
  {
    hide Up, View;
    if n == 0 {
      assert View(x)[0..] + Zeros(0) == View(x);
    } else {
      ViewOfUp(x);
      ViewOfShl(Up(x), n - 1);
      assert (View(x)[1..] + [false])[n - 1..] + Zeros(n - 1) == View(x)[n..] + Zeros(n);
    }
  }

  lemma {:induction false} BitsOfZero(n: nat)
    ensures MsbBits(0, n) == Zeros(n)
  {
    if n > 0 {
      assert Up(0) == 0;
      BitsOfZero(n - 1);
    }
  }

  lemma UpZero(x: bv64)
    requires !Top(x) && Up(x) == 0
    ensures x == 0
  {
  }

  lemma {:induction false} ZeroFromBits(x: bv64, n: nat)
    requires MsbBits(x, n) == Zeros(n) && Shl(x, n) == 0
    ensures x == 0
    decreases n
  {
    hide Up, Top;
    if n > 0 {
      assert MsbBits(x, n)[0] == Top(x);
      assert MsbBits(Up(x), n - 1) == MsbBits(x, n)[1..];
      ZeroFromBits(Up(x), n - 1);
      UpZero(x);
    }
  }

  lemma PlusSelf(x: bv64, y: bv64)
    ensures Plus(x, y) == 0 ==> x == y
  {
  }

  /** A word is determined by its coefficients. */
  lemma ViewInjective(x: bv64, y: bv64)
    requires View(x) == View(y)
    ensures x == y
  {
    hide Plus, MsbBits;
    BitsOfPlus(x, y, 64);
    assert Xor(View(x), View(y)) == Zeros(64);
    ShlAll(Plus(x, y));
    ZeroFromBits(Plus(x, y), 64);
    PlusSelf(x, y);
  }

  lemma ViewOfPlus(x: bv64, y: bv64)
    ensures View(Plus(x, y)) == Xor(View(x), View(y))
  {
    BitsOfPlus(x, y, 64);
  }

  lemma ViewLast(x: bv64)
    ensures View(x)[63] == (x & 1 == 1)
  {
    hide MsbBits, Shl;
    BitsSplit(x, 63, 1);
    OneBit(Shl(x, 63));
    ShlAlmostAll(x);
  }

  lemma ShlAlmostAll(x: bv64)
    ensures Top(Shl(x, 63)) == (x & 1 == 1)
  {
    assert Shl(x, 63) == x << 63 by {
      hide Shl, UpByte;
      UpByteOfShifted(x);
      ShlAdds(x, 56, 7);
      ShlBytes(x, 7);
      ShlBytes(x << 8, 6);
      ShlBytes(x << 16, 5);
      ShlBytes(x << 24, 4);
      ShlBytes(x << 32, 3);
      ShlBytes(x << 40, 2);
      ShlByByte(x << 48);
      assert Shl(x, 56) == x << 56;
      ShlSeven(x);
    }
  }

  lemma ShlSeven(x: bv64)
    ensures Shl(x << 56, 7) == x << 63
  {
  }

  // ----- bitwise operators and the right shift

  function And(x: bv64, y: bv64): bv64 { x & y }

  function Or(x: bv64, y: bv64): bv64 { x | y }

  function Not(x: bv64): bv64 { !x }

  function Down(x: bv64): bv64 { x >> 1 }

  /** `x >> n`. */
  function Shr(x: bv64, n: nat): bv64
    decreases n
  {
    if n == 0 then x else Shr(Down(x), n - 1)
  }

  lemma TopOfAnd(x: bv64, y: bv64)
    ensures Top(And(x, y)) == (Top(x) && Top(y))
  {
    assert Top(x & y) == (Top(x) && Top(y));
  }

  lemma TopOfOr(x: bv64, y: bv64)
    ensures Top(Or(x, y)) == (Top(x) || Top(y))
  {
    assert Top(x | y) == (Top(x) || Top(y));
  }

  lemma UpOfAnd(x: bv64, y: bv64)
    ensures Up(And(x, y)) == And(Up(x), Up(y))
  {
    assert Up(x & y) == And(x << 1, y << 1);
  }

  lemma UpOfOr(x: bv64, y: bv64)
    ensures Up(Or(x, y)) == Or(Up(x), Up(y))
  {
    assert Up(x | y) == Or(x << 1, y << 1);
  }

  lemma {:induction false} BitsOfAnd(x: bv64, y: bv64, n: nat)
    ensures forall i :: 0 <= i < n ==> MsbBits(And(x, y), n)[i] == (MsbBits(x, n)[i] && MsbBits(y, n)[i])
    decreases n
  {
    hide And, Up, Top;
    if n > 0 {
      TopOfAnd(x, y);
      UpOfAnd(x, y);
      BitsOfAnd(Up(x), Up(y), n - 1);
    }
  }

  lemma {:induction false} BitsOfOr(x: bv64, y: bv64, n: nat)
    ensures forall i :: 0 <= i < n ==> MsbBits(Or(x, y), n)[i] == (MsbBits(x, n)[i] || MsbBits(y, n)[i])
    decreases n
  {
    hide Or, Up, Top;
    if n > 0 {
      TopOfOr(x, y);
      UpOfOr(x, y);
      BitsOfOr(Up(x), Up(y), n - 1);
    }
  }

  lemma ViewByBytes(x: bv64)
    ensures View(x) == MsbBits(x, 8) + (MsbBits(x << 8, 8) + (MsbBits(x << 16, 8) + (MsbBits(x << 24, 8)
                       + (MsbBits(x << 32, 8) + (MsbBits(x << 40, 8) + (MsbBits(x << 48, 8) + MsbBits(x << 56, 8)))))))
  {
    hide MsbBits, Shl, UpByte;
    UpByteOfShifted(x);
    BitsSplit(x, 8, 56);
    BitsSplit(x << 8, 8, 48);
    BitsSplit(x << 16, 8, 40);
    BitsSplit(x << 24, 8, 32);
    BitsSplit(x << 32, 8, 24);
    BitsSplit(x << 40, 8, 16);
    BitsSplit(x << 48, 8, 8);
    ShlByByte(x);
    ShlByByte(x << 8);
    ShlByByte(x << 16);
    ShlByByte(x << 24);
    ShlByByte(x << 32);
    ShlByByte(x << 40);
    ShlByByte(x << 48);
  }

  lemma OnesByte(x: bv64)
    requires x & 0xFF00_0000_0000_0000 == 0xFF00_0000_0000_0000
    ensures MsbBits(x, 8) == [true, true, true, true, true, true, true, true]
  {
  }

  lemma ZeroByte(x: bv64)
    requires x & 0xFF00_0000_0000_0000 == 0
    ensures MsbBits(x, 8) == Zeros(8)
  {
  }

  lemma AllOnes()
    ensures forall i :: 0 <= i < 64 ==> View(0xFFFF_FFFF_FFFF_FFFF)[i]
  {
    hide MsbBits, View;
    var x: bv64 := 0xFFFF_FFFF_FFFF_FFFF;
    ViewByBytes(x);
    OnesByte(x);
    OnesByte(x << 8);
    OnesByte(x << 16);
    OnesByte(x << 24);
    OnesByte(x << 32);
    OnesByte(x << 40);
    OnesByte(x << 48);
    OnesByte(x << 56);
  }

  lemma OneIsLast()
    ensures forall i :: 0 <= i < 63 ==> !View(1)[i]
  {
    hide MsbBits, View;
    var x: bv64 := 1;
    ViewByBytes(x);
    ZeroByte(x);
    ZeroByte(x << 8);
    ZeroByte(x << 16);
    ZeroByte(x << 24);
    ZeroByte(x << 32);
    ZeroByte(x << 40);
    ZeroByte(x << 48);
    LastByteOfOne();
  }

  lemma LastByteOfOne()
    ensures MsbBits(0x0100_0000_0000_0000, 8) == [false, false, false, false, false, false, false, true]
  {
  }

  lemma ViewOfNot(x: bv64)
    ensures forall i :: 0 <= i < 64 ==> View(Not(x))[i] == !View(x)[i]
  {
    hide View, Plus, Not;
    NotIsPlus(x);
    ViewOfPlus(x, 0xFFFF_FFFF_FFFF_FFFF);
    AllOnes();
  }

  lemma NotIsPlus(x: bv64)
    ensures Not(x) == Plus(x, 0xFFFF_FFFF_FFFF_FFFF)
  {
  }

  lemma UpDown(x: bv64)
    ensures Up(Down(x)) == if x & 1 == 1 then Plus(x, 1) else x
  {
    assert Up(x >> 1) == x & 0xFFFF_FFFF_FFFF_FFFE;
    assert x & 0xFFFF_FFFF_FFFF_FFFE == if x & 1 == 1 then x ^ 1 else x;
  }

  lemma TopOfDown(x: bv64)
    ensures !Top(Down(x))
  {
    assert !Top(x >> 1);
  }

  lemma HeadOfDown(x: bv64)
    ensures !View(Down(x))[0]
  {
    hide Top, Down, MsbBits;
    BitsHead(Down(x), 63);
    TopOfDown(x);
  }

  lemma TailOfDown(x: bv64, i: nat)
    requires 0 < i < 64
    ensures View(Down(x))[i] == View(x)[i - 1]
  {
    hide Up, Down, Plus, View;
    ViewOfUp(Down(x));
    assert View(Up(Down(x)))[i - 1] == View(Down(x))[i];
    UpDown(x);
    ViewOfPlus(x, 1);
    OneIsLast();
  }

  /** Shifting a word right moves its bits down and fills with a zero. */
  lemma ViewOfDown(x: bv64)
    ensures View(Down(x)) == [false] + View(x)[..63]
  {
    hide Down, View;
    HeadOfDown(x);
    forall i | 0 < i < 64 ensures View(Down(x))[i] == View(x)[i - 1] { TailOfDown(x, i); }
  }

  lemma {:induction false} ViewOfShr(x: bv64, n: nat)
    requires n <= 64
    ensures View(Shr(x, n)) == Zeros(n) + View(x)[..64 - n]
    decreases n
  {
    hide Down, View;
    if n == 0 {
      assert Zeros(0) + View(x)[..64] == View(x);
    } else {
      ViewOfDown(x);
      ViewOfShr(Down(x), n - 1);
      assert Zeros(n - 1) + ([false] + View(x)[..63])[..64 - (n - 1)] == Zeros(n) + View(x)[..64 - n];
    }
  }
}
