/**
 MurmurHash64A as include/ch3_hash.h uses it: the general hash of a byte string, and the
 specialised rehash of one 64-bit word that extends a key into an endless chain of words.
 Words are `bv64`, so products and shifts wrap and truncate as they do on a `uint64_t`.
 */
module Murmur {

  const SEED: bv32 := 4193360111

  /** A length or count converted to a 64-bit word; it wraps at 2^64. */
  function WordOf(n: nat): bv64 {
    if n == 0 then 0 else WordOf(n - 1) + 1
  }

  // The reversible moves every round is made of.

  function Xor(x: bv64, y: bv64): bv64 { x ^ y }

  function Mul(x: bv64): bv64 { x * 0xc6a4a7935bd1e995 }

  function Unmul(x: bv64): bv64 { x * 0x5f7a0ea7e59b19bd }

  function Fold(x: bv64): bv64 { x ^ (x >> 47) }

  function Mix(k: bv64): bv64 { Mul(Fold(Mul(k))) }

  function Unmix(k: bv64): bv64 { Unmul(Fold(Unmul(k))) }

  function Absorb(h: bv64, k: bv64): bv64 { Mul(Xor(h, Mix(k))) }

  function Finish(h: bv64): bv64 { Fold(Mul(Fold(h))) }

  function Unfinish(h: bv64): bv64 { Fold(Unmul(Fold(h))) }

  lemma MulRoundTrip(x: bv64)
    ensures Unmul(Mul(x)) == x
    ensures Mul(Unmul(x)) == x
  {
    assert Unmul(x * 0xc6a4a7935bd1e995) == x;
    assert Mul(x * 0x5f7a0ea7e59b19bd) == x;
  }

  lemma FoldTwice(x: bv64)
    ensures Fold(Fold(x)) == x
  {
    assert Fold(x ^ (x >> 47)) == x;
  }

  lemma MixRoundTrip(k: bv64)
    ensures Unmix(Mix(k)) == k
    ensures Mix(Unmix(k)) == k
  {
    MulRoundTrip(k);
    MulRoundTrip(Fold(Mul(k)));
    MulRoundTrip(Fold(Unmul(k)));
    FoldTwice(Mul(k));
    FoldTwice(Unmul(k));
  }

  lemma FinishRoundTrip(h: bv64)
    ensures Unfinish(Finish(h)) == h
    ensures Finish(Unfinish(h)) == h
  {
    FoldTwice(h);
    FoldTwice(Mul(Fold(h)));
    FoldTwice(Unmul(Fold(h)));
    MulRoundTrip(Fold(h));
  }

  lemma XorCancels(x: bv64, y: bv64)
    ensures Xor(Xor(x, y), x) == y
  {
    assert Xor(x ^ y, x) == y;
  }

  lemma XorCommutes(x: bv64, y: bv64)
    ensures Xor(x, y) == Xor(y, x)
  {
  }

  lemma XorAssociates(x: bv64, y: bv64, z: bv64)
    ensures Xor(Xor(x, y), z) == Xor(x, Xor(y, z))
  {
    assert Xor(x ^ y, z) == Xor(x, y ^ z);
  }

  lemma XorZero(x: bv64)
    ensures Xor(x, 0) == x
  {
  }

  // ----- the specialised rehash of one word

  function RehashStart(): bv64 { Xor(SEED as bv64, Mul(8)) }

  function Rehash(k: bv64): bv64 { Finish(Absorb(RehashStart(), k)) }

  function Unrehash(w: bv64): bv64 { Unmix(Xor(Unmul(Unfinish(w)), RehashStart())) }

  /** Rehashing is a bijection on 64-bit words, with an explicit two-sided inverse. */
  lemma RehashBijective(k: bv64)
    ensures Unrehash(Rehash(k)) == k
    ensures Rehash(Unrehash(k)) == k
  {
    hide Xor, Mul, Unmul, Fold;
    var s := RehashStart();
    FinishRoundTrip(Absorb(s, k));
    MulRoundTrip(Xor(s, Mix(k)));
    XorCancels(s, Mix(k));
    MixRoundTrip(k);
    var u := Unmul(Unfinish(k));
    MixRoundTrip(Xor(u, s));
    XorCommutes(u, s);
    XorCommutes(s, Xor(s, u));
    XorCancels(s, u);
    MulRoundTrip(Unfinish(k));
    FinishRoundTrip(k);
  }

  /** The n-th word of the chain that starts at `w`. */
  function Chain(w: bv64, n: nat): bv64 {
    if n == 0 then w else Rehash(Chain(w, n - 1))
  }

  /** Two chains that share a word share everything before it: distinct chains never merge. */
  lemma {:induction false} ChainsNeverMerge(a: bv64, b: bv64, lead: nat, n: nat)
    requires Chain(a, lead + n) == Chain(b, n)
    ensures Chain(a, lead) == b
  {
    hide Rehash, Unrehash;
    if n > 0 {
      RehashBijective(Chain(a, lead + n - 1));
      RehashBijective(Chain(b, n - 1));
      ChainsNeverMerge(a, b, lead, n - 1);
    }
  }

  // ----- the general hash of a byte string

  /** Byte `i` of `d`; 0 past the end. */
  function ByteAt(d: seq<bv8>, i: nat): bv8 {
    if i < |d| then d[i] else 0
  }

  /** A byte moved to byte position `i` of a word. */
  function Place(b: bv8, i: nat): bv64 {
    match i
    case 0 => b as bv64
    case 1 => (b as bv64) << 8
    case 2 => (b as bv64) << 16
    case 3 => (b as bv64) << 24
    case 4 => (b as bv64) << 32
    case 5 => (b as bv64) << 40
    case 6 => (b as bv64) << 48
    case _ => (b as bv64) << 56
  }

  /** The contribution of byte `i` to the little-endian word that starts at `at`. */
  function Lane(d: seq<bv8>, at: nat, i: nat): bv64 { Place(ByteAt(d, at + i), i) }

  /** `h` with the lanes below `n` of the word at `at` mixed in, highest lane first. */
  function MixLanes(h: bv64, d: seq<bv8>, at: nat, n: nat): bv64
    decreases n
  {
    if n == 0 then h else MixLanes(Xor(h, Lane(d, at, n - 1)), d, at, n - 1)
  }

  /** Little-endian load of up to eight bytes starting at `at`. */
  function Load(d: seq<bv8>, at: nat): bv64 {
    MixLanes(0, d, at, 8)
  }

  /** The hash state after the first `n` whole 8-byte blocks. */
  function AfterBlocks(h: bv64, d: seq<bv8>, n: nat): bv64 {
    if n == 0 then h else Absorb(AfterBlocks(h, d, n - 1), Load(d, 8 * (n - 1)))
  }

  /** The trailing 1 to 7 bytes are mixed in as one partial word; nothing happens when there are none. */
  function AfterTail(h: bv64, d: seq<bv8>): bv64 {
    if |d| % 8 == 0 then h else Mul(Xor(h, Load(d, |d| - |d| % 8)))
  }

  function HashStart(len: nat, seed: bv32): bv64 { Xor(seed as bv64, Mul(WordOf(len))) }

  function Hash(d: seq<bv8>, seed: bv32): bv64 {
    Finish(AfterTail(AfterBlocks(HashStart(|d|, seed), d, |d| / 8), d))
  }

  lemma {:induction false} MixLanesIsXor(h: bv64, d: seq<bv8>, at: nat, n: nat)
    ensures MixLanes(h, d, at, n) == Xor(h, MixLanes(0, d, at, n))
    decreases n
  {
    hide Xor, Lane;
    if n == 0 {
      XorZero(h);
    } else {
      var l := Lane(d, at, n - 1);
      MixLanesIsXor(Xor(h, l), d, at, n - 1);
      MixLanesIsXor(Xor(0, l), d, at, n - 1);
      XorAssociates(h, l, MixLanes(0, d, at, n - 1));
      XorAssociates(0, l, MixLanes(0, d, at, n - 1));
      XorCommutes(0, Xor(l, MixLanes(0, d, at, n - 1)));
      XorZero(Xor(l, MixLanes(0, d, at, n - 1)));
    }
  }

  /** Lanes past the end of the bytes are empty. */
  lemma {:induction false} MixLanesPastEnd(h: bv64, d: seq<bv8>, at: nat, n: nat)
    requires at <= |d| <= at + n && n <= 8
    ensures MixLanes(h, d, at, n) == MixLanes(h, d, at, |d| - at)
  {
    hide Xor;
    if |d| < at + n {
      assert Lane(d, at, n - 1) == 0;
      XorZero(h);
      MixLanesPastEnd(h, d, at, n - 1);
    }
  }

  lemma TakeLane(h: bv64, d: seq<bv8>, at: nat, i: nat)
    ensures MixLanes(h, d, at, i + 1) == MixLanes(Xor(h, Lane(d, at, i)), d, at, i)
    ensures MixLanes(h, d, at, 0) == h
  {
  }

  lemma SkipLane(h: bv64, d: seq<bv8>, at: nat, i: nat)
    requires |d| <= at + i && i < 8
    ensures MixLanes(h, d, at, i + 1) == MixLanes(h, d, at, i)
  {
    hide Xor;
    assert Lane(d, at, i) == 0;
    XorZero(h);
  }

  /** The switch on the number of trailing bytes: each case falls through to the next. */
  method MixTail(h0: bv64, d: seq<bv8>, at: nat) returns (h: bv64)
    requires at == |d| - |d| % 8
    ensures h == AfterTail(h0, d)
  {
    hide Xor, Mul, Lane, MixLanes;
    h := h0;
    ghost var word := MixLanes(h0, d, at, 7);
    if 6 < |d| - at { TakeLane(h, d, at, 6); h := Xor(h, Lane(d, at, 6)); } else { SkipLane(h, d, at, 6); }
    assert word == MixLanes(h, d, at, 6);
    if 5 < |d| - at { TakeLane(h, d, at, 5); h := Xor(h, Lane(d, at, 5)); } else { SkipLane(h, d, at, 5); }
    assert word == MixLanes(h, d, at, 5);
    if 4 < |d| - at { TakeLane(h, d, at, 4); h := Xor(h, Lane(d, at, 4)); } else { SkipLane(h, d, at, 4); }
    assert word == MixLanes(h, d, at, 4);
    if 3 < |d| - at { TakeLane(h, d, at, 3); h := Xor(h, Lane(d, at, 3)); } else { SkipLane(h, d, at, 3); }
    assert word == MixLanes(h, d, at, 3);
    if 2 < |d| - at { TakeLane(h, d, at, 2); h := Xor(h, Lane(d, at, 2)); } else { SkipLane(h, d, at, 2); }
    assert word == MixLanes(h, d, at, 2);
    if 1 < |d| - at { TakeLane(h, d, at, 1); h := Xor(h, Lane(d, at, 1)); } else { SkipLane(h, d, at, 1); }
    assert word == MixLanes(h, d, at, 1);
    if 0 < |d| - at {
      TakeLane(h, d, at, 0);
      h := Xor(h, Lane(d, at, 0));
      TakeLane(h, d, at, 0);
      MixLanesPastEnd(h0, d, at, 8);
      MixLanesPastEnd(h0, d, at, 7);
      MixLanesIsXor(h0, d, at, 8);
      assert h == Xor(h0, Load(d, at));
      h := Mul(h);
    }
  }

  /** The loop over whole words, then the switch on the remaining bytes with its fall-through cases. */
  method MurmurHash64A(d: seq<bv8>, seed: bv32) returns (h: bv64)
    ensures h == Hash(d, seed)
  {
    hide Xor, Mul, Fold, Lane, MixLanes;
    h := Xor(seed as bv64, Mul(WordOf(|d|)));
    var data := 0;
    while data != |d| / 8
      invariant 0 <= data <= |d| / 8
      invariant h == AfterBlocks(HashStart(|d|, seed), d, data)
    {
      var k := Load(d, 8 * data);
      data := data + 1;
      k := Mul(k);
      k := Fold(k);
      k := Mul(k);
      h := Xor(h, k);
      h := Mul(h);
    }
    h := MixTail(h, d, 8 * data);
    h := Fold(h);
    h := Mul(h);
    h := Fold(h);
  }

  /** The fast path agrees with the general hash on the eight little-endian bytes of a word. */
  lemma RehashIsHash(d: seq<bv8>)
    requires |d| == 8
    ensures Rehash(Load(d, 0)) == Hash(d, SEED)
  {
    hide Mul, Fold, Xor, Lane, MixLanes;
    assert AfterBlocks(HashStart(8, SEED), d, 1) == Absorb(AfterBlocks(HashStart(8, SEED), d, 0), Load(d, 0));
    assert WordOf(8) == 8;
  }

  // ----- every block matters

  /** `a` and `b` agree outside the 8-byte block that starts at 8 * i. */
  ghost predicate DifferOnlyInBlock(a: seq<bv8>, b: seq<bv8>, i: nat) {
    && |a| == |b|
    && forall j :: 0 <= j < |a| && !(8 * i <= j < 8 * i + 8) ==> a[j] == b[j]
  }

  /** The byte of `w` at position `i`, still in place. */
  function Mask(w: bv64, i: nat): bv64 { And(w, Place(0xff, i)) }

  function And(x: bv64, y: bv64): bv64 { x & y }

  lemma AndXor(x: bv64, y: bv64, m: bv64)
    ensures And(Xor(x, y), m) == Xor(And(x, m), And(y, m))
  {
    assert And(x ^ y, m) == Xor(x & m, y & m);
  }

  lemma MaskXor(x: bv64, y: bv64, i: nat)
    ensures Mask(Xor(x, y), i) == Xor(Mask(x, i), Mask(y, i))
  {
    hide Xor, And;
    AndXor(x, y, Place(0xff, i));
  }

  lemma MaskLane(d: seq<bv8>, at: nat, i: nat, k: nat)
    requires i < 8 && k < 8
    ensures Mask(Lane(d, at, k), i) == if i == k then Lane(d, at, k) else 0
  {
    MaskPlace(ByteAt(d, at + k), i, k);
  }

  lemma WithinLow(b: bv8)
    ensures And(Place(b, 0), Place(0xff, 0)) == Place(b, 0) && And(Place(b, 1), Place(0xff, 1)) == Place(b, 1)
  {
  }

  lemma WithinNext(b: bv8)
    ensures And(Place(b, 2), Place(0xff, 2)) == Place(b, 2) && And(Place(b, 3), Place(0xff, 3)) == Place(b, 3)
  {
  }

  lemma WithinThird(b: bv8)
    ensures And(Place(b, 4), Place(0xff, 4)) == Place(b, 4) && And(Place(b, 5), Place(0xff, 5)) == Place(b, 5)
  {
  }

  lemma WithinHigh(b: bv8)
    ensures And(Place(b, 6), Place(0xff, 6)) == Place(b, 6) && And(Place(b, 7), Place(0xff, 7)) == Place(b, 7)
  {
  }

  /** A placed byte lies within its own mask. */
  lemma WithinMask(b: bv8, k: nat)
    requires k < 8
    ensures And(Place(b, k), Place(0xff, k)) == Place(b, k)
  {
    hide And, Place;
    WithinLow(b);
    WithinNext(b);
    WithinThird(b);
    WithinHigh(b);
  }

  lemma MasksApart(i: nat, k: nat)
    requires i < 8 && k < 8 && i != k
    ensures And(Place(0xff, k), Place(0xff, i)) == 0
  {
  }

  lemma AndAssociates(x: bv64, y: bv64, z: bv64)
    ensures And(And(x, y), z) == And(x, And(y, z))
    ensures And(x, 0) == 0
  {
  }

  lemma MaskPlace(b: bv8, i: nat, k: nat)
    requires i < 8 && k < 8
    ensures Mask(Place(b, k), i) == if i == k then Place(b, k) else 0
  {
    hide And, Place;
    WithinMask(b, k);
    if i != k {
      MasksApart(i, k);
      AndAssociates(Place(b, k), Place(0xff, k), Place(0xff, i));
    }
  }

  lemma {:induction false} MaskMixLanes(h: bv64, d: seq<bv8>, at: nat, n: nat, i: nat)
    requires n <= 8 && i < 8
    ensures Mask(MixLanes(h, d, at, n), i) == Xor(Mask(h, i), if i < n then Lane(d, at, i) else 0)
    decreases n
  {
    hide Xor, Mask, Lane;
    if n == 0 {
      XorZero(Mask(h, i));
    } else {
      var l := Lane(d, at, n - 1);
      MaskMixLanes(Xor(h, l), d, at, n - 1, i);
      MaskXor(h, l, i);
      MaskLane(d, at, i, n - 1);
      XorZero(Mask(h, i));
      XorZero(Xor(Mask(h, i), l));
    }
  }

  lemma PlaceInjective(x: bv8, y: bv8, i: nat)
    requires i < 8 && Place(x, i) == Place(y, i)
    ensures x == y
  {
  }

  lemma LaneInjective(a: seq<bv8>, b: seq<bv8>, at: nat, i: nat)
    requires |a| == |b| && i < 8 && at + i < |a|
    requires Lane(a, at, i) == Lane(b, at, i)
    ensures a[at + i] == b[at + i]
  {
    PlaceInjective(a[at + i], b[at + i], i);
  }

  lemma LoadInjective(a: seq<bv8>, b: seq<bv8>, at: nat)
    requires |a| == |b|
    requires Load(a, at) == Load(b, at)
    ensures forall j :: at <= j < at + 8 && j < |a| ==> a[j] == b[j]
  {
    hide Lane, Mask, Xor;
    forall j | at <= j < at + 8 && j < |a| ensures a[j] == b[j] {
      MaskMixLanes(0, a, at, 8, j - at);
      MaskMixLanes(0, b, at, 8, j - at);
      XorCancels(Mask(0, j - at), Lane(a, at, j - at));
      XorCancels(Mask(0, j - at), Lane(b, at, j - at));
      LaneInjective(a, b, at, j - at);
    }
  }

  lemma AbsorbInjective(h: bv64, g: bv64, k: bv64, l: bv64)
    requires Absorb(h, k) == Absorb(g, l)
    ensures h == g ==> k == l
    ensures k == l ==> h == g
  {
    hide Mul, Unmul, Xor, Mix, Unmix;
    MulRoundTrip(Xor(h, Mix(k)));
    MulRoundTrip(Xor(g, Mix(l)));
    XorCancels(h, Mix(k));
    XorCancels(g, Mix(l));
    XorCommutes(h, Mix(k));
    XorCommutes(g, Mix(l));
    XorCancels(Mix(k), h);
    XorCancels(Mix(l), g);
    MixRoundTrip(k);
    MixRoundTrip(l);
  }

  /** Blocks that agree keep two states apart if they were apart, and together if together. */
  lemma {:induction false} AfterBlocksTracks(h: bv64, a: seq<bv8>, b: seq<bv8>, i: nat, n: nat)
    requires DifferOnlyInBlock(a, b, i) && 8 * n <= |a|
    ensures n <= i ==> AfterBlocks(h, a, n) == AfterBlocks(h, b, n)
    ensures a != b && i < n ==> AfterBlocks(h, a, n) != AfterBlocks(h, b, n)
  {
    hide Absorb, Load;
    if n > 0 {
      AfterBlocksTracks(h, a, b, i, n - 1);
      var p, q := AfterBlocks(h, a, n - 1), AfterBlocks(h, b, n - 1);
      var k, l := Load(a, 8 * (n - 1)), Load(b, 8 * (n - 1));
      if n - 1 != i {
        LoadAgrees(a, b, 8 * (n - 1));
        if Absorb(p, k) == Absorb(q, l) { AbsorbInjective(p, q, k, l); }
      } else if Absorb(p, k) == Absorb(q, l) {
        AbsorbInjective(p, q, k, l);
        LoadInjective(a, b, 8 * (n - 1));
      }
    }
  }

  lemma {:induction false} MixLanesAgrees(h: bv64, a: seq<bv8>, b: seq<bv8>, at: nat, n: nat)
    requires |a| == |b|
    requires forall j :: at <= j < at + n && j < |a| ==> a[j] == b[j]
    ensures MixLanes(h, a, at, n) == MixLanes(h, b, at, n)
    decreases n
  {
    hide Xor;
    if n > 0 {
      assert Lane(a, at, n - 1) == Lane(b, at, n - 1);
      MixLanesAgrees(Xor(h, Lane(a, at, n - 1)), a, b, at, n - 1);
    }
  }

  lemma LoadAgrees(a: seq<bv8>, b: seq<bv8>, at: nat)
    requires |a| == |b|
    requires forall j :: at <= j < at + 8 && j < |a| ==> a[j] == b[j]
    ensures Load(a, at) == Load(b, at)
  {
    MixLanesAgrees(0, a, b, at, 8);
  }

  /**
   No two different strings of the same length collide when they differ inside one 8-byte block,
   whatever the seed, the length, and the position of the block (the short last one included).
   */
  lemma OneBlockNeverCollides(a: seq<bv8>, b: seq<bv8>, i: nat, seed: bv32)
    requires DifferOnlyInBlock(a, b, i) && a != b
    ensures Hash(a, seed) != Hash(b, seed)
  {
    hide Finish, Mul, Xor, Load, HashStart;
    var n, s, at := |a| / 8, HashStart(|a|, seed), |a| - |a| % 8;
    var h, g := AfterBlocks(s, a, n), AfterBlocks(s, b, n);
    AfterBlocksTracks(s, a, b, i, n);
    FinishRoundTrip(AfterTail(h, a));
    FinishRoundTrip(AfterTail(g, b));
    if |a| % 8 != 0 && AfterTail(h, a) == AfterTail(g, b) {
      MulRoundTrip(Xor(h, Load(a, at)));
      MulRoundTrip(Xor(g, Load(b, at)));
      if i < n {
        LoadAgrees(a, b, at);
        XorCommutes(h, Load(a, at));
        XorCommutes(g, Load(a, at));
        XorCancels(Load(a, at), h);
        XorCancels(Load(a, at), g);
      } else {
        XorCancels(h, Load(a, at));
        XorCancels(h, Load(b, at));
        LoadInjective(a, b, at);
      }
    }
  }

  // ----- what goes in can be read back out

  /** The word that was absorbed, from the states before and after. */
  function Unabsorb(before: bv64, after: bv64): bv64 { Unmix(Xor(Unmul(after), before)) }

  lemma UnabsorbAbsorbs(h: bv64, k: bv64)
    ensures Unabsorb(h, Absorb(h, k)) == k
  {
    hide Mul, Unmul, Xor, Mix, Unmix;
    MulRoundTrip(Xor(h, Mix(k)));
    XorCancels(h, Mix(k));
    MixRoundTrip(k);
  }

  /** Byte `i` of `w` is byte `at + i` of `d`, and there is nothing above the last one. */
  ghost predicate HoldsBytes(w: bv64, d: seq<bv8>, at: nat) {
    forall i :: 0 <= i < 8 ==> Mask(w, i) == if at + i < |d| then Place(d[at + i], i) else 0
  }

  lemma LoadHoldsBytes(d: seq<bv8>, at: nat)
    ensures HoldsBytes(Load(d, at), d, at)
  {
    hide Mask, Xor, MixLanes;
    forall i | 0 <= i < 8 ensures Mask(Load(d, at), i) == if at + i < |d| then Place(d[at + i], i) else 0 {
      MaskMixLanes(0, d, at, 8, i);
      MaskZero(i);
      XorCommutes(0, Lane(d, at, i));
      XorZero(Lane(d, at, i));
      PlaceZero(i);
    }
  }

  lemma MaskZero(i: nat)
    ensures Mask(0, i) == 0
  {
    hide Place;
    assert 0 & Place(0xff, i) == 0;
  }

  lemma PlaceZero(i: nat)
    ensures Place(0, i) == 0
  {
  }

  /** Every whole block went in, in its place: it is read back from the states around it, byte by byte. */
  lemma BlockReadBack(h: bv64, d: seq<bv8>, i: nat)
    ensures HoldsBytes(Unabsorb(AfterBlocks(h, d, i), AfterBlocks(h, d, i + 1)), d, 8 * i)
  {
    hide Absorb, Unabsorb, HoldsBytes, Load;
    UnabsorbAbsorbs(AfterBlocks(h, d, i), Load(d, 8 * i));
    LoadHoldsBytes(d, 8 * i);
  }

  /** The left-over bytes went in and were multiplied through: undoing the finish and one multiplication shows them. */
  lemma TailReadBack(d: seq<bv8>, seed: bv32)
    requires |d| % 8 != 0
    ensures HoldsBytes(Xor(Unmul(Unfinish(Hash(d, seed))), AfterBlocks(HashStart(|d|, seed), d, |d| / 8)), d, |d| - |d| % 8)
  {
    hide Mul, Unmul, Finish, Unfinish, Xor, HoldsBytes, Load, AfterBlocks;
    var h, w := AfterBlocks(HashStart(|d|, seed), d, |d| / 8), Load(d, |d| - |d| % 8);
    FinishRoundTrip(Mul(Xor(h, w)));
    MulRoundTrip(Xor(h, w));
    XorCancels(h, w);
    LoadHoldsBytes(d, |d| - |d| % 8);
  }

  /** Without left-over bytes nothing but the finish follows the last block. */
  lemma NoTailReadBack(d: seq<bv8>, seed: bv32)
    requires |d| % 8 == 0
    ensures Unfinish(Hash(d, seed)) == AfterBlocks(HashStart(|d|, seed), d, |d| / 8)
  {
    hide Finish, Unfinish, AfterBlocks;
    FinishRoundTrip(AfterBlocks(HashStart(|d|, seed), d, |d| / 8));
  }

  // ----- two keys, worked out

  /** Keys of one byte, and of two blocks and three bytes. */
  const SHORT_KEY: seq<bv8> := [0x61]
  const LONG_KEY: seq<bv8> := [0x30, 0x31, 0x32, 0x33, 0x34, 0x35, 0x36, 0x37, 0x38, 0x39, 0x61, 0x62, 0x63, 0x64, 0x65, 0x66, 0x58, 0x59, 0x5a]

  lemma ShortStart()
    ensures HashStart(1, SEED) == 0xc6a4a793a220717a && Load(SHORT_KEY, 0) == 0x61
  {
    assert WordOf(1) == 1;
    MixLanesPastEnd(0, SHORT_KEY, 0, 8);
  }

  lemma ShortTail()
    ensures Finish(Mul(Xor(0xc6a4a793a220717a, 0x61))) == 0x3d6961c699914c7b
  {
    assert Mul(Xor(0xc6a4a793a220717a, 0x61)) == 0x5e395baed3de67b7;
    assert Finish(0x5e395baed3de67b7) == 0x3d6961c699914c7b;
  }

  lemma HashOfShortKey()
    ensures Hash(SHORT_KEY, SEED) == 0x3d6961c699914c7b
  {
    hide Load, Mul, Xor, Finish, HashStart;
    ShortStart();
    ShortTail();
    assert AfterBlocks(0xc6a4a793a220717a, SHORT_KEY, 0) == 0xc6a4a793a220717a;
  }

  lemma WordOf19()
    ensures WordOf(19) == 19
  {
    assert WordOf(7) == 7;
    assert WordOf(13) == 13;
  }

  lemma LongStart()
    ensures HashStart(19, SEED) == 0xbe386fef2965cee0
  {
    WordOf19();
  }

  lemma OneLane(h: bv64, d: seq<bv8>, at: nat, i: nat, b: bv8, r: bv64)
    requires at + i < |d| && d[at + i] == b && Xor(h, Place(b, i)) == r
    ensures MixLanes(h, d, at, i + 1) == MixLanes(r, d, at, i)
  {
    hide Xor, Place;
  }

  lemma FirstLoadHigh()
    ensures MixLanes(0, LONG_KEY, 0, 8) == MixLanes(0x3736353400000000, LONG_KEY, 0, 4)
  {
    hide MixLanes;
    OneLane(0, LONG_KEY, 0, 7, 0x37, 0x3700000000000000);
    OneLane(0x3700000000000000, LONG_KEY, 0, 6, 0x36, 0x3736000000000000);
    OneLane(0x3736000000000000, LONG_KEY, 0, 5, 0x35, 0x3736350000000000);
    OneLane(0x3736350000000000, LONG_KEY, 0, 4, 0x34, 0x3736353400000000);
  }

  lemma FirstLoad()
    ensures Load(LONG_KEY, 0) == 0x3736353433323130
  {
    hide MixLanes;
    FirstLoadHigh();
    OneLane(0x3736353400000000, LONG_KEY, 0, 3, 0x33, 0x3736353433000000);
    OneLane(0x3736353433000000, LONG_KEY, 0, 2, 0x32, 0x3736353433320000);
    OneLane(0x3736353433320000, LONG_KEY, 0, 1, 0x31, 0x3736353433323100);
    OneLane(0x3736353433323100, LONG_KEY, 0, 0, 0x30, 0x3736353433323130);
    TakeLane(0x3736353433323130, LONG_KEY, 0, 0);
  }

  lemma SecondLoadHigh()
    ensures MixLanes(0, LONG_KEY, 8, 8) == MixLanes(0x6665646300000000, LONG_KEY, 8, 4)
  {
    hide MixLanes;
    OneLane(0, LONG_KEY, 8, 7, 0x66, 0x6600000000000000);
    OneLane(0x6600000000000000, LONG_KEY, 8, 6, 0x65, 0x6665000000000000);
    OneLane(0x6665000000000000, LONG_KEY, 8, 5, 0x64, 0x6665640000000000);
    OneLane(0x6665640000000000, LONG_KEY, 8, 4, 0x63, 0x6665646300000000);
  }

  lemma SecondLoad()
    ensures Load(LONG_KEY, 8) == 0x6665646362613938
  {
    hide MixLanes;
    SecondLoadHigh();
    OneLane(0x6665646300000000, LONG_KEY, 8, 3, 0x62, 0x6665646362000000);
    OneLane(0x6665646362000000, LONG_KEY, 8, 2, 0x61, 0x6665646362610000);
    OneLane(0x6665646362610000, LONG_KEY, 8, 1, 0x39, 0x6665646362613900);
    OneLane(0x6665646362613900, LONG_KEY, 8, 0, 0x38, 0x6665646362613938);
    TakeLane(0x6665646362613938, LONG_KEY, 8, 0);
  }

  lemma LongTailLoad()
    ensures Load(LONG_KEY, 16) == 0x00000000005a5958
  {
    hide MixLanes;
    MixLanesPastEnd(0, LONG_KEY, 16, 8);
    OneLane(0, LONG_KEY, 16, 2, 0x5a, 0x00000000005a0000);
    OneLane(0x00000000005a0000, LONG_KEY, 16, 1, 0x59, 0x00000000005a5900);
    OneLane(0x00000000005a5900, LONG_KEY, 16, 0, 0x58, 0x00000000005a5958);
    TakeLane(0x00000000005a5958, LONG_KEY, 16, 0);
  }

  lemma LongBlocks()
    ensures Absorb(0xbe386fef2965cee0, 0x3736353433323130) == 0xe94f5f4c3b81784d
    ensures Absorb(0xe94f5f4c3b81784d, 0x6665646362613938) == 0x361f90d1a8733b83
  {
  }

  lemma LongTail()
    ensures Finish(Mul(Xor(0x361f90d1a8733b83, 0x00000000005a5958))) == 0x1fe4647d5553c068
  {
    assert Mul(Xor(0x361f90d1a8733b83, 0x00000000005a5958)) == 0x42abbcc318dadc77;
    assert Finish(0x42abbcc318dadc77) == 0x1fe4647d5553c068;
  }

  lemma HashOfLongKey()
    ensures Hash(LONG_KEY, SEED) == 0x1fe4647d5553c068
  {
    hide Load, Absorb, Mul, Xor, Finish, HashStart;
    LongStart();
    FirstLoad();
    SecondLoad();
    LongTailLoad();
    LongBlocks();
    LongTail();
    var start := HashStart(19, SEED);
    assert AfterBlocks(start, LONG_KEY, 1) == Absorb(AfterBlocks(start, LONG_KEY, 0), Load(LONG_KEY, 0));
    assert AfterBlocks(start, LONG_KEY, 2) == Absorb(AfterBlocks(start, LONG_KEY, 1), Load(LONG_KEY, 8));
  }
}
