/**
 Division of bit strings by a fixed polynomial over GF(2), and the shift register that computes it.
 A register of width W is a sequence of W coefficients; index 0 is the bit about to leave it, which
 is the top bit for an unreflected CRC and the bottom bit for a reflected one. The polynomial is
 x^W plus the W coefficients `p`, in the same order.
 */
module Lfsr {

  type Bits = seq<bool>

  /** Bit `i` of a byte, the least significant being bit 0. */
  function BitOf(x: bv8, i: nat): bool {
    match i
    case 0 => x & 0x01 != 0
    case 1 => x & 0x02 != 0
    case 2 => x & 0x04 != 0
    case 3 => x & 0x08 != 0
    case 4 => x & 0x10 != 0
    case 5 => x & 0x20 != 0
    case 6 => x & 0x40 != 0
    case _ => x & 0x80 != 0
  }

  function Zeros(n: nat): (z: Bits)
    ensures |z| == n && forall i :: 0 <= i < n ==> !z[i]
  {
    seq(n, _ => false)
  }

  function Xor(a: Bits, b: Bits): (c: Bits)
    requires |a| == |b|
    ensures |c| == |a| && forall i :: 0 <= i < |a| ==> c[i] == (a[i] != b[i])
  {
    seq(|a|, i requires 0 <= i < |a| => a[i] != b[i])
  }

  /** One step of the register: the outgoing bit, combined with an input bit, decides the feedback. */
  function Feed(p: Bits, r: Bits, b: bool): (r': Bits)
    requires |p| == |r| > 0
    ensures |r'| == |r|
    ensures forall i :: 0 <= i < |r| ==> r'[i] == ((i + 1 < |r| && r[i + 1]) != (r[0] != b && p[i]))
  {
    var shifted := r[1..] + [false];
    if r[0] != b then Xor(shifted, p) else shifted
  }

  function Run(p: Bits, r: Bits, m: Bits): (r': Bits)
    requires |p| == |r| > 0
    ensures |r'| == |r|
    decreases |m|
  {
    if m == [] then r else Run(p, Feed(p, r, m[0]), m[1..])
  }

  // ----- chaining, linearity, reversibility

  lemma {:induction false} RunConcat(p: Bits, r: Bits, m: Bits, n: Bits)
    requires |p| == |r| > 0
    ensures Run(p, r, m + n) == Run(p, Run(p, r, m), n)
    decreases |m|
  {
    if m == [] {
      assert m + n == n;
    } else {
      assert (m + n)[1..] == m[1..] + n;
      RunConcat(p, Feed(p, r, m[0]), m[1..], n);
    }
  }

  lemma FeedLinear(p: Bits, r: Bits, s: Bits, b: bool, c: bool)
    requires |p| == |r| == |s| > 0
    ensures Feed(p, Xor(r, s), b != c) == Xor(Feed(p, r, b), Feed(p, s, c))
  {
  }

  lemma {:induction false} RunLinear(p: Bits, r: Bits, s: Bits, m: Bits, n: Bits)
    requires |p| == |r| == |s| > 0 && |m| == |n|
    ensures Run(p, Xor(r, s), Xor(m, n)) == Xor(Run(p, r, m), Run(p, s, n))
    decreases |m|
  {
    if m != [] {
      FeedLinear(p, r, s, m[0], n[0]);
      assert Xor(m, n)[1..] == Xor(m[1..], n[1..]);
      RunLinear(p, Feed(p, r, m[0]), Feed(p, s, n[0]), m[1..], n[1..]);
    }
  }

  /** The polynomial has a constant term. */
  predicate Odd(p: Bits) { |p| > 0 && p[|p| - 1] }

  lemma FeedInjective(p: Bits, r: Bits, s: Bits, b: bool)
    requires |p| == |r| == |s| && Odd(p)
    requires Feed(p, r, b) == Feed(p, s, b)
    ensures r == s
  {
    var w := |p|;
    assert Feed(p, r, b)[w - 1] == (r[0] != b);
    assert Feed(p, s, b)[w - 1] == (s[0] != b);
    forall i | 0 < i < w ensures r[i] == s[i] {
      assert Feed(p, r, b)[i - 1] == Feed(p, s, b)[i - 1];
    }
  }

  lemma {:induction false} RunInjective(p: Bits, r: Bits, s: Bits, m: Bits)
    requires |p| == |r| == |s| && Odd(p)
    requires Run(p, r, m) == Run(p, s, m)
    ensures r == s
    decreases |m|
  {
    if m != [] {
      RunInjective(p, Feed(p, r, m[0]), Feed(p, s, m[0]), m[1..]);
      FeedInjective(p, r, s, m[0]);
    }
  }

  // ----- input may be combined with the register up front

  /** Up to `n` bits, extended with zeros to exactly `n`. */
  function Padded(m: Bits, n: nat): (r: Bits)
    requires |m| <= n
    ensures |r| == n && forall i :: 0 <= i < n ==> r[i] == (i < |m| && m[i])
  {
    m + Zeros(n - |m|)
  }

  lemma FeedAbsorbs(p: Bits, r: Bits, m: Bits)
    requires |p| == |r| >= |m| > 0
    ensures Feed(p, Xor(r, Padded(m, |r|)), false) == Xor(Feed(p, r, m[0]), Padded(m[1..], |r|))
  {
  }

  /** Up to W input bits fed one at a time are the same as those bits combined with the register first. */
  lemma {:induction false} RunAbsorbs(p: Bits, r: Bits, m: Bits)
    requires |p| == |r| >= |m| && |r| > 0
    ensures Run(p, r, m) == Run(p, Xor(r, Padded(m, |r|)), Zeros(|m|))
    decreases |m|
  {
    hide Feed, Xor, Padded;
    if m == [] {
      assert Xor(r, Padded(m, |r|)) == r;
    } else {
      FeedAbsorbs(p, r, m);
      RunAbsorbs(p, Feed(p, r, m[0]), m[1..]);
      assert Zeros(|m|)[1..] == Zeros(|m| - 1);
    }
  }

  /** While only zero bits leave the register, it just shifts. */
  lemma {:induction false} RunShifts(p: Bits, r: Bits, n: nat)
    requires |p| == |r| >= n && |r| > 0
    requires forall i :: 0 <= i < n ==> !r[i]
    ensures Run(p, r, Zeros(n)) == r[n..] + Zeros(n)
    decreases n
  {
    if n > 0 {
      var s := r[1..] + [false];
      assert Zeros(n)[1..] == Zeros(n - 1);
      RunShifts(p, s, n - 1);
      assert s[n - 1..] + Zeros(n - 1) == r[n..] + Zeros(n);
    }
  }

  // ----- burst errors

  lemma MiddleOf(a: Bits, b: Bits, c: Bits)
    ensures (a + (b + c))[|a|..|a| + |b|] == b
  {
  }

  /** Two strings that agree outside a window of at most W bits starting at `at`. */
  ghost predicate WithinWindow(m: Bits, n: Bits, at: nat, w: nat) {
    && |m| == |n|
    && forall i :: 0 <= i < |m| && !(at <= i < at + w) ==> m[i] == n[i]
  }

  lemma ShortBurst(p: Bits, r: Bits, m: Bits, n: Bits)
    requires |p| == |r| >= |m| == |n| && Odd(p) && m != n
    ensures Run(p, r, m) != Run(p, r, n)
  {
    hide Run, Padded;
    var x, y := Xor(r, Padded(m, |r|)), Xor(r, Padded(n, |r|));
    RunAbsorbs(p, r, m);
    RunAbsorbs(p, r, n);
    var i :| 0 <= i < |m| && m[i] != n[i];
    assert x[i] != y[i];
    if Run(p, r, m) == Run(p, r, n) { RunInjective(p, x, y, Zeros(|m|)); }
  }

  lemma ThreeParts(m: Bits, i: nat, j: nat)
    requires i <= j <= |m|
    ensures m == m[..i] + (m[i..j] + m[j..])
  {
  }

  lemma RunInThree(p: Bits, r: Bits, m: Bits, i: nat, j: nat)
    requires |p| == |r| > 0 && i <= j <= |m|
    ensures Run(p, r, m) == Run(p, Run(p, Run(p, r, m[..i]), m[i..j]), m[j..])
  {
    hide Run;
    ThreeParts(m, i, j);
    RunConcat(p, r, m[..i], m[i..j] + m[j..]);
    RunConcat(p, Run(p, r, m[..i]), m[i..j], m[j..]);
  }

  /** No error confined to a burst of at most W bits goes unnoticed. */
  lemma BurstDetected(p: Bits, r: Bits, m: Bits, n: Bits, at: nat)
    requires |p| == |r| && Odd(p)
    requires WithinWindow(m, n, at, |p|) && m != n
    ensures Run(p, r, m) != Run(p, r, n)
  {
    hide Run;
    var len := |m|;
    assert at < len by { assert !(forall i :: 0 <= i < len ==> m[i] == n[i]); }
    var end := if at + |p| < len then at + |p| else len;
    assert m[..at] == n[..at] && m[end..] == n[end..];
    var s := Run(p, r, m[..at]);
    RunInThree(p, r, m, at, end);
    RunInThree(p, r, n, at, end);
    assert m[at..end] != n[at..end] by { ThreeParts(m, at, end); ThreeParts(n, at, end); }
    ShortBurst(p, s, m[at..end], n[at..end]);
    if Run(p, r, m) == Run(p, r, n) {
      RunInjective(p, Run(p, s, m[at..end]), Run(p, s, n[at..end]), m[end..]);
    }
  }

  // ----- long division

  /** One step of schoolbook division: cancel the leading coefficient with a copy of the polynomial. */
  function Reduced(p: Bits, d: Bits): (e: Bits)
    requires |d| > |p| > 0
    ensures |e| == |d| - 1
    ensures forall i :: 0 <= i < |e| ==> e[i] == (d[i + 1] != (d[0] && i < |p| && p[i]))
  {
    if d[0] then Xor(d[1..|p| + 1], p) + d[|p| + 1..] else d[1..]
  }

  function Remainder(p: Bits, d: Bits): (r: Bits)
    requires |d| >= |p| > 0
    ensures |r| == |p|
    decreases |d|
  {
    if |d| == |p| then d
    else Remainder(p, Reduced(p, d))
  }

  /** The message times x^W, with the initial register combined into its leading W coefficients. */
  function Dividend(r: Bits, m: Bits): (d: Bits)
    ensures |d| == |r| + |m|
    ensures forall i :: 0 <= i < |d| ==> d[i] == ((i < |m| && m[i]) != (i < |r| && r[i]))
  {
    var d := m + Zeros(|r|);
    Xor(d[..|r|], r) + d[|r|..]
  }

  lemma DividendStep(p: Bits, r: Bits, m: Bits)
    requires |p| == |r| > 0 && m != []
    ensures Reduced(p, Dividend(r, m)) == Dividend(Feed(p, r, m[0]), m[1..])
  {
    hide Dividend, Reduced, Feed;
    var d, e := Reduced(p, Dividend(r, m)), Dividend(Feed(p, r, m[0]), m[1..]);
    forall i | 0 <= i < |d| ensures d[i] == e[i] {
      assert Dividend(r, m)[i + 1] == ((i + 1 < |m| && m[i + 1]) != (i + 1 < |r| && r[i + 1]));
    }
  }

  /** What the register holds after a message is the remainder of dividing that message. */
  lemma {:induction false} RunIsRemainder(p: Bits, r: Bits, m: Bits)
    requires |p| == |r| > 0
    ensures Run(p, r, m) == Remainder(p, Dividend(r, m))
    decreases |m|
  {
    if m == [] {
      assert Dividend(r, m) == r;
    } else {
      DividendStep(p, r, m);
      RunIsRemainder(p, Feed(p, r, m[0]), m[1..]);
    }
  }

  lemma {:induction false} RemainderLinear(p: Bits, d: Bits, e: Bits)
    requires |d| == |e| >= |p| > 0
    ensures Remainder(p, Xor(d, e)) == Xor(Remainder(p, d), Remainder(p, e))
    decreases |d|
  {
    if |d| > |p| {
      RemainderLinear(p, Reduced(p, d), Reduced(p, e));
      ReducedLinear(p, d, e);
    }
  }

  lemma ReducedLinear(p: Bits, d: Bits, e: Bits)
    requires |d| == |e| > |p| > 0
    ensures Reduced(p, Xor(d, e)) == Xor(Reduced(p, d), Reduced(p, e))
  {
  }

  /** Every shifted copy of the polynomial leaves no remainder, so adding multiples changes nothing. */
  lemma {:induction false} RemainderOfMultiple(p: Bits, lead: nat, trail: nat)
    requires |p| > 0
    ensures Remainder(p, Zeros(lead) + [true] + p + Zeros(trail)) == Zeros(|p|)
    decreases lead
  {
    var d := Zeros(lead) + [true] + p + Zeros(trail);
    if lead == 0 {
      assert d[1..|p| + 1] == p;
      assert Xor(p, p) + d[|p| + 1..] == Zeros(|p| + trail);
      RemainderOfZeros(p, |p| + trail);
    } else {
      assert d[1..] == Zeros(lead - 1) + [true] + p + Zeros(trail);
      RemainderOfMultiple(p, lead - 1, trail);
    }
  }

  lemma {:induction false} RemainderOfZeros(p: Bits, n: nat)
    requires n >= |p| > 0
    ensures Remainder(p, Zeros(n)) == Zeros(|p|)
  {
    if n > |p| {
      assert Zeros(n)[1..] == Zeros(n - 1);
      RemainderOfZeros(p, n - 1);
    }
  }

  // ----- the remainder, pinned down

  /**
   A string no longer than the polynomial is its own remainder, leading zeros apart. With `RemainderLinear` and
   `RemainderOfMultiple` this determines every remainder.
   */
  lemma {:induction false} RemainderOfShort(p: Bits, n: nat, r: Bits)
    requires |r| == |p| > 0
    ensures Remainder(p, Zeros(n) + r) == r
  {
    if n == 0 {
      assert Zeros(0) + r == r;
    } else {
      assert Reduced(p, Zeros(n) + r) == Zeros(n - 1) + r;
      RemainderOfShort(p, n - 1, r);
    }
  }

  /** Every bit turned over. */
  function Complement(m: Bits): (n: Bits)
    ensures |n| == |m| && forall i :: 0 <= i < |m| ==> n[i] == !m[i]
  {
    seq(|m|, i requires 0 <= i < |m| => !m[i])
  }

  // ----- exactly the errors that go unnoticed

  lemma XorZeroExactly(a: Bits, b: Bits)
    requires |a| == |b|
    ensures Xor(a, b) == Zeros(|a|) <==> a == b
  {
    if Xor(a, b) == Zeros(|a|) {
      forall i | 0 <= i < |a| ensures a[i] == b[i] { assert !Xor(a, b)[i]; }
    }
  }

  /** Messages of equal length leave the same register exactly when their difference, shifted up, is divisible. */
  lemma SameRegisterExactly(p: Bits, r: Bits, m: Bits, n: Bits)
    requires |p| == |r| > 0 && |m| == |n|
    ensures Run(p, r, m) == Run(p, r, n) <==> Remainder(p, Xor(m, n) + Zeros(|p|)) == Zeros(|p|)
  {
    hide Run, Remainder;
    var d := Xor(m, n);
    RunLinear(p, r, r, m, n);
    XorZeroExactly(r, r);
    RunIsRemainder(p, Zeros(|p|), d);
    assert Dividend(Zeros(|p|), d) == d + Zeros(|p|);
    XorZeroExactly(Run(p, r, m), Run(p, r, n));
  }
}
