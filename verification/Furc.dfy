/**
 The furc consistent hash of include/ch3_hash.h. A key is an endless stream of bits; shard selection
 is a search over that stream. The search is specified on an arbitrary stream, and the imperative
 code, with its lazily filled cache of 64-bit words, is proved to compute it.
 */
module Furc {
  import opened Murmur

  const MAX_TRIES: nat := 32
  const FURC_SHIFT: nat := 23
  const FURC_CACHE_SIZE: nat := 1024

  type Stream = nat -> bool

  function Pow2(n: nat): (p: nat)
    ensures p >= 1
  {
    if n == 0 then 1 else 2 * Pow2(n - 1)
  }

  lemma {:induction false} Pow2Monotone(a: nat, b: nat)
    requires a <= b
    ensures Pow2(a) <= Pow2(b)
  {
    if a < b { Pow2Monotone(a, b - 1); }
  }

  function LevelFrom(m: nat, d: nat): nat
    decreases m - Pow2(d)
  {
    if m <= Pow2(d) then d else LevelFrom(m, d + 1)
  }

  /** The level of a pool of `m` shards. */
  function Level(m: nat): nat { LevelFrom(m, 0) }

  lemma {:induction false} LevelFromLeast(m: nat, d: nat)
    requires d > 0 ==> Pow2(d - 1) < m
    ensures LevelFrom(m, d) >= d
    ensures m <= Pow2(LevelFrom(m, d))
    ensures LevelFrom(m, d) > 0 ==> Pow2(LevelFrom(m, d) - 1) < m
    decreases m - Pow2(d)
  {
    if m > Pow2(d) { LevelFromLeast(m, d + 1); }
  }

  /** `Level(m)` is the number of bits needed to write every shard number below `m`. */
  lemma LevelLeast(m: nat)
    ensures m <= Pow2(Level(m))
    ensures Level(m) > 0 ==> Pow2(Level(m) - 1) < m
    ensures m <= 1 <==> Level(m) == 0
  {
    LevelFromLeast(m, 0);
  }

  lemma LevelMonotone(m: nat, n: nat)
    requires m <= n
    ensures Level(m) <= Level(n)
  {
    LevelLeast(m);
    LevelLeast(n);
    if Level(n) < Level(m) { Pow2Monotone(Level(n), Level(m) - 1); }
  }

  /** The number written by `n` stream bits at `a`, `a + FURC_SHIFT`, ..., most significant first. */
  function Digits(s: Stream, a: nat, n: nat): nat {
    if n == 0 then 0
    else 2 * Digits(s, a, n - 1) + if s(a + FURC_SHIFT * (n - 1)) then 1 else 0
  }

  lemma {:induction false} DigitsRange(s: Stream, a: nat, n: nat)
    ensures Digits(s, a, n) < Pow2(n)
    ensures n > 0 && s(a) ==> Pow2(n - 1) <= Digits(s, a, n)
  {
    if n > 0 { DigitsRange(s, a, n - 1); }
  }

  /** Bit `i` of an `n`-bit number, counted from the most significant. */
  predicate BitFromTop(x: nat, n: nat, i: nat)
    requires i < n
  {
    x / Pow2(n - 1 - i) % 2 == 1
  }

  lemma HalvesDivide(x: nat, b: nat, q: nat)
    requires b < 2 && q > 0
    ensures (2 * x + b) / (2 * q) == x / q
  {
    var k, r := x / q, x % q;
    assert x == q * k + r;
    assert 2 * x + b == (2 * q) * k + (2 * r + b);
    QuotientIs(2 * x + b, 2 * q, k, 2 * r + b);
  }

  lemma StepsOf(q: nat, j: nat, k: nat)
    requires j < k
    ensures q * j + q <= q * k
  {
    var n := k - j - 1;
    assert q * k == q * (j + 1 + n) == q * j + q + q * n;
  }

  lemma QuotientIs(x: nat, q: nat, k: nat, r: nat)
    requires q > 0 && x == q * k + r && r < q
    ensures x / q == k
  {
    var j, m := x / q, x % q;
    assert x == q * j + m && m < q;
    if j < k { StepsOf(q, j, k); } else if j > k { StepsOf(q, k, j); }
  }

  lemma UpperBit(x: nat, b: nat, n: nat, i: nat)
    requires b < 2 && i < n
    ensures BitFromTop(2 * x + b, n + 1, i) == BitFromTop(x, n, i)
  {
    HalvesDivide(x, b, Pow2(n - 1 - i));
  }

  lemma LastBit(x: nat, b: nat, n: nat)
    requires b < 2
    ensures BitFromTop(2 * x + b, n + 1, n) <==> b == 1
  {
    assert Pow2(0) == 1;
  }

  /** The number is written by exactly those stream bits, in that order. */
  lemma {:induction false} DigitsBits(s: Stream, a: nat, n: nat, i: nat)
    requires i < n
    ensures BitFromTop(Digits(s, a, n), n, i) <==> s(a + FURC_SHIFT * i)
  {
    hide BitFromTop;
    var x, b := Digits(s, a, n - 1), if s(a + FURC_SHIFT * (n - 1)) then 1 else 0;
    if i < n - 1 {
      DigitsBits(s, a, n - 1, i);
      UpperBit(x, b, n - 1, i);
    } else {
      LastBit(x, b, n - 1);
    }
  }

  /** Where the `k`-th try at level `d` starts reading. */
  function Start(d: nat, k: nat): nat { d + FURC_SHIFT * (d * k) }

  /** Below the top level: the highest set lead bit decides the level, and its first number is taken. */
  function Descend(s: Stream, d: nat): nat {
    if d == 0 then 0 else if s(d) then Digits(s, d, d) else Descend(s, d - 1)
  }

  /** At the top level: retry until a number below `m` appears, or drop a level on a clear lead bit. */
  function Search(s: Stream, m: nat, d: nat, k: nat): nat
    requires d > 0
    decreases MAX_TRIES - k
  {
    if k >= MAX_TRIES then 0
    else if !s(Start(d, k)) then Descend(s, d - 1)
    else if Digits(s, Start(d, k), d) < m then Digits(s, Start(d, k), d)
    else Search(s, m, d, k + 1)
  }

  /** The shard of a key, given its stream, in a pool of `m` shards. */
  function Shard(s: Stream, m: nat): nat {
    LevelLeast(m);
    if m <= 1 then 0 else Search(s, m, Level(m), 0)
  }

  // ----- range

  lemma {:induction false} DescendRange(s: Stream, d: nat)
    ensures Descend(s, d) < Pow2(d)
  {
    if d > 0 {
      DigitsRange(s, d, d);
      DescendRange(s, d - 1);
    }
  }

  lemma {:induction false} SearchRange(s: Stream, m: nat, d: nat, k: nat)
    requires d > 0 && Pow2(d - 1) < m
    ensures Search(s, m, d, k) < m
    decreases MAX_TRIES - k
  {
    DescendRange(s, d - 1);
    if k < MAX_TRIES { SearchRange(s, m, d, k + 1); }
  }

  /** The result is always a legal shard number. */
  lemma ShardInRange(s: Stream, m: nat)
    requires m >= 1
    ensures Shard(s, m) < m
  {
    LevelLeast(m);
    if m > 1 { SearchRange(s, m, Level(m), 0); }
  }

  // ----- minimal disruption

  /** Try `k` at the top level of `m` produces a number, and that number is out of range. */
  ghost predicate OutOfRange(s: Stream, m: nat, d: nat, k: nat) {
    s(Start(d, k)) && Digits(s, Start(d, k), d) >= m
  }

  /** So do all the tries from `lo` up to but not including `hi`. */
  ghost predicate Rejected(s: Stream, m: nat, d: nat, lo: nat, hi: nat) {
    forall k :: lo <= k < hi ==> OutOfRange(s, m, d, k)
  }

  /** The search for `m` uses up its tries and falls back to shard 0. */
  ghost predicate Exhausts(s: Stream, m: nat) {
    m > 1 && Rejected(s, m, Level(m), 0, MAX_TRIES)
  }

  /** Either the top level rejects every try from `k` on, or some later try settles the search. */
  lemma {:induction false} SearchSettles(s: Stream, m: nat, d: nat, k: nat) returns (t: nat)
    requires d > 0 && k <= MAX_TRIES
    ensures k <= t <= MAX_TRIES && Rejected(s, m, d, k, t)
    ensures t == MAX_TRIES ==> Search(s, m, d, k) == 0
    ensures t < MAX_TRIES && !s(Start(d, t)) ==> Search(s, m, d, k) == Descend(s, d - 1)
    ensures t < MAX_TRIES && s(Start(d, t)) ==> Search(s, m, d, k) == Digits(s, Start(d, t), d) < m
    decreases MAX_TRIES - k
  {
    t := k;
    if k < MAX_TRIES && s(Start(d, k)) && Digits(s, Start(d, k), d) >= m {
      t := SearchSettles(s, m, d, k + 1);
    }
  }

  /** A stream that is set everywhere but at `p`. */
  function ClearAt(p: nat): Stream { (i: nat) => i != p }

  lemma {:induction false} TriesFrom(k: nat, j: nat)
    requires j <= k && j <= 32
    ensures Search(ClearAt(25 + 46 * k), 3, 2, j) == if k < 32 then 2 else 0
    decreases 32 - j
  {
    var s := ClearAt(25 + 46 * k);
    if j < 32 {
      assert Start(2, j) == 2 + 46 * j;
      assert Digits(s, 2 + 46 * j, 1) == 1;
      assert Digits(s, 2 + 46 * j, 2) == 2 + if s(25 + 46 * j) then 1 else 0;
      if j < k { TriesFrom(k, j + 1); }
    }
  }

  /** Exactly 32 tries are made, 46 bits apart for three shards: a number in range counts on tries 0 to 31 and no later. */
  lemma TriesCounted(k: nat)
    ensures Shard(ClearAt(25 + 46 * k), 3) == if k < 32 then 2 else 0
  {
    hide Search;
    assert Level(3) == 2;
    TriesFrom(k, 0);
  }

  /** `x` has `d` bits, the leading one set, and they are the stream bits read from `a` on. */
  ghost predicate ReadOff(s: Stream, x: nat, d: nat, a: nat) {
    && d > 0 && Pow2(d - 1) <= x < Pow2(d) && s(a)
    && forall i :: 0 <= i < d ==> (BitFromTop(x, d, i) <==> s(a + FURC_SHIFT * i))
  }

  /** Where a shard other than 0 is read: at the top level on its first try not rejected, or lower down on its first. */
  ghost predicate WonAt(s: Stream, m: nat, d: nat, a: nat) {
    || (d == Level(m) && exists t :: 0 <= t < MAX_TRIES && a == Start(d, t) && Rejected(s, m, d, 0, t))
    || (&& d < Level(m) && a == d && (forall e :: d < e < Level(m) ==> !s(e))
        && exists t :: 0 <= t < MAX_TRIES && Rejected(s, m, Level(m), 0, t) && !s(Start(Level(m), t)))
  }

  lemma DigitsReadOff(s: Stream, d: nat, a: nat)
    requires d > 0 && s(a)
    ensures ReadOff(s, Digits(s, a, d), d, a)
  {
    hide Digits, BitFromTop;
    DigitsRange(s, a, d);
    forall i | 0 <= i < d ensures BitFromTop(Digits(s, a, d), d, i) <==> s(a + FURC_SHIFT * i) {
      DigitsBits(s, a, d, i);
    }
  }

  lemma {:induction false} DescendReads(s: Stream, d: nat) returns (e: nat)
    requires Descend(s, d) != 0
    ensures 0 < e <= d && ReadOff(s, Descend(s, d), e, e) && forall c :: e < c <= d ==> !s(c)
  {
    hide Digits, ReadOff;
    if s(d) {
      DigitsReadOff(s, d, d);
      e := d;
    } else {
      e := DescendReads(s, d - 1);
    }
  }

  /** A shard other than 0 is exactly the number the stream writes at the place where the search was won. */
  lemma ShardReadOff(s: Stream, m: nat) returns (d: nat, a: nat)
    requires Shard(s, m) != 0
    ensures WonAt(s, m, d, a) && ReadOff(s, Shard(s, m), d, a)
  {
    hide Digits, ReadOff, Descend, Search, Start, Rejected, LevelFrom;
    LevelLeast(m);
    var top := Level(m);
    assert m > 1 && Shard(s, m) == Search(s, m, top, 0);
    var t := SearchSettles(s, m, top, 0);
    if s(Start(top, t)) {
      d, a := top, Start(top, t);
      DigitsReadOff(s, d, a);
    } else {
      d := DescendReads(s, top - 1);
      a := d;
    }
  }

  /** Within one level a smaller pool makes the same choice, as long as that choice is in range. */
  lemma {:induction false} SameLevel(s: Stream, m1: nat, m2: nat, d: nat, k: nat)
    requires d > 0 && 1 <= m1 <= m2 && Search(s, m2, d, k) < m1
    ensures Search(s, m1, d, k) == Search(s, m2, d, k)
    decreases MAX_TRIES - k
  {
    if k < MAX_TRIES { if s(Start(d, k)) && Digits(s, Start(d, k), d) >= m2 { SameLevel(s, m1, m2, d, k + 1); } }
  }

  /** A descent that ends below `m1` passes through every level above that of `m1`. */
  lemma {:induction false} DescendThrough(s: Stream, m1: nat, d: nat)
    requires m1 > 1 && Level(m1) <= d && Descend(s, d) < m1
    ensures Descend(s, d) == Descend(s, Level(m1))
    decreases d
  {
    LevelLeast(m1);
    if Level(m1) < d {
      if s(d) {
        DigitsRange(s, d, d);
        Pow2Monotone(Level(m1), d - 1);
        assert false;
      }
      DescendThrough(s, m1, d - 1);
    }
  }

  /**
   Minimal disruption: a key whose shard among `m2` already exists among `m1 <= m2` has that same
   shard among `m1`, unless the larger search gave up at a level the smaller pool does not reach.
   */
  lemma MinimalDisruption(s: Stream, m1: nat, m2: nat)
    requires 1 <= m1 <= m2
    requires Level(m1) == Level(m2) || !Exhausts(s, m2)
    requires Shard(s, m2) < m1
    ensures Shard(s, m1) == Shard(s, m2)
  {
    LevelLeast(m1);
    LevelLeast(m2);
    LevelMonotone(m1, m2);
    var d1, d2 := Level(m1), Level(m2);
    if m1 > 1 {
      if d1 == d2 {
        SameLevel(s, m1, m2, d1, 0);
      } else {
        var t := SearchSettles(s, m2, d2, 0);
        Pow2Monotone(d1, d2 - 1);
        DigitsRange(s, Start(d2, t), d2);
        DescendThrough(s, m1, d2 - 1);
        DescendIsFirstTry(s, m1);
      }
    }
  }

  /** A descent to the level of `m` that ends below `m` is what the search for `m` finds on its first try. */
  lemma DescendIsFirstTry(s: Stream, m: nat)
    requires m > 1 && Descend(s, Level(m)) < m
    ensures Shard(s, m) == Descend(s, Level(m))
  {
    LevelLeast(m);
    assert Start(Level(m), 0) == Level(m);
  }

  // ----- exactly when it fails

  /** The stream sends a key to shard 0 of `m`, read off its bits. */
  ghost predicate LandsOnZero(s: Stream, m: nat) {
    || m <= 1
    || Exhausts(s, m)
    || (&& (forall e :: 1 <= e < Level(m) ==> !s(e))
        && exists t :: 0 <= t < MAX_TRIES && Rejected(s, m, Level(m), 0, t) && !s(Start(Level(m), t)))
  }

  lemma {:induction false} DescendZero(s: Stream, d: nat)
    ensures Descend(s, d) == 0 <==> forall e :: 1 <= e <= d ==> !s(e)
  {
    if d > 0 {
      DescendZero(s, d - 1);
      DigitsRange(s, d, d);
    }
  }

  /** The try that drops a level is the first one that is not rejected. */
  lemma FirstSettled(s: Stream, m: nat, d: nat, t: nat, u: nat)
    requires Rejected(s, m, d, 0, t) && !OutOfRange(s, m, d, t)
    requires Rejected(s, m, d, 0, u) && !s(Start(d, u))
    ensures u == t
  {
    hide Digits, Start;
    assert !OutOfRange(s, m, d, u);
  }

  lemma ZeroShard(s: Stream, m: nat)
    ensures Shard(s, m) == 0 <==> LandsOnZero(s, m)
  {
    LevelLeast(m);
    if m > 1 {
      var d := Level(m);
      DescendZero(s, d - 1);
      var t := SearchSettles(s, m, d, 0);
      DigitsRange(s, Start(d, t), d);
      if t < MAX_TRIES {
        assert !OutOfRange(s, m, d, t);
        assert !Exhausts(s, m);
        forall u | 0 <= u < MAX_TRIES && Rejected(s, m, d, 0, u) && !s(Start(d, u)) ensures u == t {
          FirstSettled(s, m, d, t, u);
        }
      }
    }
  }

  /** Shrinking the pool from `m2` to `m1` moves only keys that lived on a removed shard. */
  ghost predicate Minimal(s: Stream, m1: nat, m2: nat) {
    Shard(s, m2) < m1 ==> Shard(s, m1) == Shard(s, m2)
  }

  lemma DisruptionExactly(s: Stream, m1: nat, m2: nat)
    requires 1 <= m1 <= m2
    ensures Minimal(s, m1, m2) <==>
            !(Level(m1) < Level(m2) && Exhausts(s, m2) && !LandsOnZero(s, m1))
  {
    LevelMonotone(m1, m2);
    ZeroShard(s, m1);
    if Exhausts(s, m2) { ZeroShard(s, m2); }
    if Shard(s, m2) < m1 && (Level(m1) == Level(m2) || !Exhausts(s, m2)) { MinimalDisruption(s, m1, m2); }
  }

  lemma LevelIs(m: nat, d: nat)
    requires m <= Pow2(d) && (if d == 0 then m <= 1 else Pow2(d - 1) < m)
    ensures Level(m) == d
  {
    hide Pow2, Level;
    LevelLeast(m);
    if Level(m) < d { Pow2Monotone(Level(m), d - 1); }
    if Level(m) > d { Pow2Monotone(d, Level(m) - 1); }
  }

  lemma LevelOfPow2(k: nat)
    ensures Level(Pow2(k)) == k
    ensures Level(Pow2(k) + 1) == k + 1
  {
    hide Level;
    assert Pow2(k + 1) == 2 * Pow2(k);
    LevelIs(Pow2(k), k);
    LevelIs(Pow2(k) + 1, k + 1);
  }

  /** A power-of-two pool never retries. */
  lemma PowerOfTwoPool(s: Stream, k: nat)
    ensures Shard(s, Pow2(k)) == Descend(s, k)
    ensures Shard(s, Pow2(k)) == 0 <==> forall e :: 1 <= e <= k ==> !s(e)
  {
    LevelOfPow2(k);
    LevelLeast(Pow2(k));
    DescendRange(s, k);
    DescendZero(s, k);
    if k > 0 { DescendIsFirstTry(s, Pow2(k)); }
  }

  lemma LevelJumps(m: nat)
    requires m >= 1 && Level(m) != Level(m + 1)
    ensures m == Pow2(Level(m))
  {
    LevelLeast(m);
    LevelLeast(m + 1);
    LevelMonotone(m, m + 1);
    Pow2Monotone(Level(m), Level(m + 1) - 1);
  }

  /**
   Adding one shard leaves every key where it is or moves it to the new shard, except exactly when
   the pool had a power-of-two size, the stream rejects all the tries of the grown pool, and some
   lead bit up to the old level is set. All three can be read off the stream before growing.
   */
  lemma GrowByOne(s: Stream, m: nat)
    requires m >= 1
    ensures Shard(s, m + 1) in {Shard(s, m), m} <==>
            !(m == Pow2(Level(m)) && Exhausts(s, m + 1) && exists e :: 1 <= e <= Level(m) && s(e))
  {
    hide Shard, Exhausts, LandsOnZero, Pow2, Level;
    ShardInRange(s, m + 1);
    DisruptionExactly(s, m, m + 1);
    LevelMonotone(m, m + 1);
    ZeroShard(s, m);
    if Exhausts(s, m + 1) { ZeroShard(s, m + 1); }
    if m == Pow2(Level(m)) {
      LevelOfPow2(Level(m));
      PowerOfTwoPool(s, Level(m));
    } else if Level(m) != Level(m + 1) {
      LevelJumps(m);
    }
  }

  // ----- the bit stream of a key

  datatype Key = Null | Bytes(data: seq<bv8>)

  /** The n-th word of a key: its hash, then repeated rehashing. */
  function Word(data: seq<bv8>, n: nat): bv64 { Chain(Hash(data, SEED), n) }

  function ShiftRight(w: bv64, n: nat): bv64
    requires n < 64
  {
    w >> n
  }

  function KeyBit(key: Key, i: nat): bool {
    key.Bytes? && ShiftRight(Word(key.data, i / 64), i % 64) & 1 == 1
  }

  function StreamOf(key: Key): Stream { (i: nat) => KeyBit(key, i) }

  /** The `hash` array and the `old_ord` index: a prefix of the key's words, filled in on demand. */
  class BitCache {
    const hash: array<bv64>
    var oldOrd: int

    ghost predicate Valid(key: Key)
      reads this, hash
    {
      && -1 <= oldOrd < hash.Length
      && (key.Bytes? ==> forall n :: 0 <= n <= oldOrd ==> hash[n] == Word(key.data, n))
    }

    constructor ()
      ensures fresh(hash) && hash.Length == FURC_CACHE_SIZE
    {
      hash := new bv64[FURC_CACHE_SIZE];
      oldOrd := -1;
    }

    /**
     Whatever was cached before, the bit returned is that of the uncached stream, and the cache
     stays a prefix of the key's words. A null key empties the cache and reads as 0.
     */
    method GetBit(key: Key, idx: nat) returns (bit: bool)
      requires key.Bytes? ==> Valid(key) && idx / 64 < hash.Length
      modifies this, hash
      ensures Valid(key) && bit == KeyBit(key, idx)
      ensures oldOrd == if key.Null? then -1 else if old(oldOrd) < idx / 64 then idx / 64 else old(oldOrd)
    {
      hide Rehash, Hash, ShiftRight;
      var ord := idx / 64;
      if key.Null? {
        oldOrd := -1;
        return false;
      }
      if oldOrd < ord {
        var n := oldOrd + 1;
        while n <= ord
          invariant oldOrd + 1 <= n <= ord + 1
          invariant oldOrd == old(oldOrd)
          invariant forall k :: 0 <= k < n ==> hash[k] == Word(key.data, k)
        {
          if n == 0 {
            var h := MurmurHash64A(key.data, SEED);
            hash[n] := h;
          } else {
            hash[n] := Rehash(hash[n - 1]);
          }
          n := n + 1;
        }
        oldOrd := ord;
      }
      return ShiftRight(hash[ord], idx % 64) & 1 == 1;
    }
  }

  lemma StartNext(d: nat, k: nat)
    ensures Start(d, 0) == d
    ensures Start(d, k + 1) == Start(d, k) + FURC_SHIFT * d
  {
    assert d * (k + 1) == d * k + d;
  }

  /** No try at any level a 32-bit `m` can have reads past word 368 of the cache. */
  lemma CacheSuffices(d: nat, k: nat, j: nat)
    requires d <= 32 && k < MAX_TRIES && j < d
    ensures (Start(d, k) + FURC_SHIFT * j) / 64 <= 368 < FURC_CACHE_SIZE
  {
    ProductBound(d, k);
  }

  lemma ProductBound(d: nat, k: nat)
    requires d <= 32 && k <= 31
    ensures d * k <= 992
  {
    assert d * k <= 32 * k by { assert (32 - d) * k >= 0; }
  }

  lemma Pow2Of32()
    ensures Pow2(32) == 0x1_0000_0000
  {
    assert Pow2(8) == 0x100;
    assert Pow2(16) == 0x1_0000;
    assert Pow2(24) == 0x100_0000;
  }

  lemma LevelOfWord(m: nat)
    requires m < 0x1_0000_0000
    ensures Level(m) <= 32
  {
    LevelLeast(m);
    Pow2Of32();
    if Level(m) > 32 { Pow2Monotone(32, Level(m) - 1); }
  }

  lemma DigitsStep(s: Stream, a: nat, n: nat)
    ensures Digits(s, a, 0) == 0
    ensures Digits(s, a, n + 1) == 2 * Digits(s, a, n) + if s(a + FURC_SHIFT * n) then 1 else 0
  {
  }

  /** The inner loop: after a set lead bit at `from`, `d - 1` more bits complete the number. */
  method ReadNumber(cache: BitCache, key: Key, from: nat, d: nat, ghost k: nat) returns (num: nat, a: nat)
    requires 0 < d <= 32 && k < MAX_TRIES && from == Start(d, k) && KeyBit(key, from)
    requires cache.Valid(key) && cache.hash.Length == FURC_CACHE_SIZE
    modifies cache, cache.hash
    ensures cache.Valid(key)
    ensures num == Digits(StreamOf(key), from, d) && a == from + FURC_SHIFT * d
    ensures num < 0x1_0000_0000
  {
    hide KeyBit, Digits, Start, Pow2;
    ghost var s := StreamOf(key);
    DigitsStep(s, from, 0);
    a := from + FURC_SHIFT;
    num := 1;
    var i := 0;
    while i < d - 1
      invariant 0 <= i <= d - 1
      invariant cache.Valid(key)
      invariant a == from + FURC_SHIFT * (i + 1)
      invariant num == Digits(s, from, i + 1)
    {
      CacheSuffices(d, k, i + 1);
      DigitsStep(s, from, i + 1);
      var bit := cache.GetBit(key, a);
      num := 2 * num + if bit then 1 else 0;
      a := a + FURC_SHIFT;
      i := i + 1;
    }
    DigitsRange(s, from, d);
    Pow2Monotone(d, 32);
    Pow2Of32();
  }

  /** The first set lead bit, from try `k` at level `top` downwards; level 0 when there is none. */
  function SetLead(s: Stream, d: nat): nat {
    if d == 0 || s(d) then d else SetLead(s, d - 1)
  }

  lemma {:induction false} DescendAtSetLead(s: Stream, d: nat)
    ensures SetLead(s, d) <= d
    ensures Descend(s, d) == if SetLead(s, d) == 0 then 0 else Digits(s, SetLead(s, d), SetLead(s, d))
    ensures SetLead(s, d) > 0 ==> s(SetLead(s, d))
  {
    if d > 0 && !s(d) { DescendAtSetLead(s, d - 1); }
  }

  /** The inner `while`: drop a level, and go back to its first position, on every clear lead bit. */
  method FindSetLead(cache: BitCache, key: Key, top: nat, from: nat, ghost k: nat) returns (d: nat, a: nat)
    requires 0 < top <= 32 && k < MAX_TRIES && from == Start(top, k)
    requires cache.Valid(key) && cache.hash.Length == FURC_CACHE_SIZE
    modifies cache, cache.hash
    ensures cache.Valid(key)
    ensures KeyBit(key, from) ==> d == top && a == from
    ensures !KeyBit(key, from) ==> d == SetLead(StreamOf(key), top - 1) && (d > 0 ==> a == d)
  {
    hide KeyBit;
    d, a := top, from;
    CacheSuffices(d, k, 0);
    var bit := cache.GetBit(key, a);
    while !bit
      invariant 0 < d <= top && a == if d == top then from else d
      invariant cache.Valid(key)
      invariant bit == KeyBit(key, a)
      invariant d < top ==> !KeyBit(key, from) && SetLead(StreamOf(key), top - 1) == SetLead(StreamOf(key), d)
      decreases d
    {
      d := d - 1;
      if d == 0 {
        return;
      }
      a := d;
      CacheSuffices(d, 0, 0);
      bit := cache.GetBit(key, a);
    }
  }

  method FindLevel(m: nat) returns (d: nat)
    ensures d == Level(m)
  {
    d := 0;
    while m > Pow2(d)
      invariant LevelFrom(m, d) == Level(m)
      decreases m - Pow2(d)
    {
      d := d + 1;
    }
  }

  lemma ShardStarts(s: Stream, m: nat)
    ensures m <= 1 ==> Shard(s, m) == 0
    ensures m > 1 ==> Level(m) > 0 && Shard(s, m) == Search(s, m, Level(m), 0)
  {
    LevelLeast(m);
  }

  lemma SearchTurn(s: Stream, m: nat, d: nat, k: nat)
    requires d > 0 && k < MAX_TRIES
    ensures Search(s, m, d, MAX_TRIES) == 0
    ensures Search(s, m, d, k) ==
            if !s(Start(d, k)) then Descend(s, d - 1)
            else if Digits(s, Start(d, k), d) < m then Digits(s, Start(d, k), d) else Search(s, m, d, k + 1)
  {
    hide Descend, Digits, Start;
  }

  /** The whole search over the cached bits computes the shard of the abstract search. */
  method FurcHash(key: Key, m: nat) returns (r: nat)
    requires m < 0x1_0000_0000
    ensures r == Shard(StreamOf(key), m)
    ensures m >= 1 ==> r < m
  {
    hide KeyBit, Digits, Level, SetLead, Descend, Start, Search, Shard, Pow2;
    ghost var s := StreamOf(key);
    LevelLeast(m);
    ShardStarts(s, m);
    if m >= 1 { ShardInRange(s, m); }
    if m <= 1 {
      return 0;
    }
    var cache := new BitCache();
    var _ := cache.GetBit(Null, 0);
    var d := FindLevel(m);
    ghost var top := d;
    LevelOfWord(m);
    var a := d;
    StartNext(d, 0);
    var attempt := 0;
    while attempt < MAX_TRIES
      invariant 0 <= attempt <= MAX_TRIES
      invariant fresh(cache) && fresh(cache.hash) && cache.Valid(key) && cache.hash.Length == FURC_CACHE_SIZE
      invariant d == top > 0 && a == Start(top, attempt)
      invariant Shard(s, m) == Search(s, m, top, attempt)
    {
      SearchTurn(s, m, top, attempt);
      DescendAtSetLead(s, top - 1);
      StartNext(SetLead(s, top - 1), 0);
      d, a := FindSetLead(cache, key, d, a, attempt);
      if d == 0 {
        return 0;
      }
      ghost var from := a;
      var num;
      num, a := ReadNumber(cache, key, a, d, if d == top then attempt else 0);
      DigitsRange(s, from, d);
      if d < top { Pow2Monotone(d, top - 1); }
      if num < m {
        return num;
      }
      StartNext(top, attempt);
      attempt := attempt + 1;
    }
    SearchTurn(s, m, top, 0);
    return 0;
  }
}
