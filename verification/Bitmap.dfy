/**
 The word-level bitmap of idxd/util/bitmap.c over an array of 64-bit words. Bit n of the map is bit
 n mod 64, counted from the least significant end, of word n div 64.
 */
module Bitmap {
  import opened Lfsr
  import opened Word64

  function Bit(w: bv64, i: nat): bool
    requires i < 64
  {
    View(w)[63 - i]
  }

  function BitAt(words: seq<bv64>, n: nat): bool
    requires n < 64 * |words|
  {
    Bit(words[n / 64], n % 64)
  }

  function FirstWordMask(start: nat): bv64 { Shl(0xFFFF_FFFF_FFFF_FFFF, start % 64) }

  function LastWordMask(nbits: nat): bv64 { Shr(0xFFFF_FFFF_FFFF_FFFF, (64 - nbits % 64) % 64) }

  lemma FirstMaskBits(start: nat, i: nat)
    requires i < 64
    ensures Bit(FirstWordMask(start), i) == (i >= start % 64)
  {
    hide View, Shl;
    ViewOfShl(0xFFFF_FFFF_FFFF_FFFF, start % 64);
    AllOnes();
  }

  lemma LastMaskBits(nbits: nat, i: nat)
    requires i < 64
    ensures Bit(LastWordMask(nbits), i) == (nbits % 64 == 0 || i < nbits % 64)
  {
    hide View, Shr;
    ViewOfShr(0xFFFF_FFFF_FFFF_FFFF, (64 - nbits % 64) % 64);
    AllOnes();
  }

  lemma BitOfOr(x: bv64, y: bv64, i: nat)
    requires i < 64
    ensures Bit(Or(x, y), i) == (Bit(x, i) || Bit(y, i))
  {
    hide Or, MsbBits;
    BitsOfOr(x, y, 64);
  }

  lemma BitOfAnd(x: bv64, y: bv64, i: nat)
    requires i < 64
    ensures Bit(And(x, y), i) == (Bit(x, i) && Bit(y, i))
  {
    hide And, MsbBits;
    BitsOfAnd(x, y, 64);
  }

  lemma BitOfNot(x: bv64, i: nat)
    requires i < 64
    ensures Bit(Not(x), i) == !Bit(x, i)
  {
    hide View, Not;
    ViewOfNot(x);
  }

  lemma BitOfPlus(x: bv64, y: bv64, i: nat)
    requires i < 64
    ensures Bit(Plus(x, y), i) == (Bit(x, i) != Bit(y, i))
  {
    hide View, Plus;
    ViewOfPlus(x, y);
  }

  lemma BitOfAll(i: nat)
    requires i < 64
    ensures Bit(0xFFFF_FFFF_FFFF_FFFF, i)
  {
    hide View;
    AllOnes();
  }

  lemma BitOfZero(i: nat)
    requires i < 64
    ensures !Bit(0, i)
  {
    BitsOfZero(64);
  }

  /** `test_bit` reads the bit of the map. */
  function TestBit(nr: nat, words: seq<bv64>): (r: bool)
    requires nr < 64 * |words|
    ensures r == BitAt(words, nr)
  {
    TestBitReads(words[nr / 64], nr % 64);
    Shr(words[nr / 64], nr % 64) & 1 == 1
  }

  lemma TestBitReads(w: bv64, i: nat)
    requires i < 64
    ensures (Shr(w, i) & 1 == 1) == Bit(w, i)
  {
    hide View, Shr;
    ViewLast(Shr(w, i));
    ViewOfShr(w, i);
  }

  // ----- setting and clearing a range

  /** `after` is `before` with bits lo up to but not including hi made equal to `on`. */
  ghost predicate RangeWritten(before: seq<bv64>, after: seq<bv64>, lo: nat, hi: nat, on: bool) {
    && |after| == |before|
    && forall n :: 0 <= n < 64 * |before| ==> BitAt(after, n) == if lo <= n < hi then on else BitAt(before, n)
  }

  /** One word, the part of it selected by a mask. */
  function Written(w: bv64, mask: bv64, on: bool): bv64 {
    if on then Or(w, mask) else And(w, Not(mask))
  }

  lemma WrittenBits(w: bv64, mask: bv64, on: bool, i: nat)
    requires i < 64
    ensures Bit(Written(w, mask, on), i) == if Bit(mask, i) then on else Bit(w, i)
  {
    hide Or, And, Not, Bit;
    BitOfOr(w, mask, i);
    BitOfAnd(w, Not(mask), i);
    BitOfNot(mask, i);
  }

  /** The mask has exactly the bits from `lo` up to `hi`. */
  ghost predicate MaskIs(mask: bv64, lo: nat, hi: nat) {
    forall i :: 0 <= i < 64 ==> Bit(mask, i) == (lo <= i < hi)
  }

  lemma FirstMaskIs(start: nat)
    ensures MaskIs(FirstWordMask(start), start % 64, 64)
  {
    hide Bit, FirstWordMask;
    forall i | 0 <= i < 64 ensures Bit(FirstWordMask(start), i) == (start % 64 <= i < 64) { FirstMaskBits(start, i); }
  }

  lemma WholeMaskIs()
    ensures MaskIs(0xFFFF_FFFF_FFFF_FFFF, 0, 64)
  {
    hide Bit;
    forall i | 0 <= i < 64 ensures Bit(0xFFFF_FFFF_FFFF_FFFF, i) { BitOfAll(i); }
  }

  lemma LastMaskIs(mask: bv64, lo: nat, size: nat)
    requires MaskIs(mask, lo, 64) && size % 64 != 0
    ensures MaskIs(And(mask, LastWordMask(size)), lo, size % 64)
  {
    hide Bit, And, LastWordMask;
    forall i | 0 <= i < 64 ensures Bit(And(mask, LastWordMask(size)), i) == (lo <= i < size % 64) {
      BitOfAnd(mask, LastWordMask(size), i);
      LastMaskBits(size, i);
    }
  }

  /** Writing the masked part of word `p` extends a written range, when the mask covers exactly the extension. */
  lemma ExtendRange(before: seq<bv64>, words: seq<bv64>, p: nat, mask: bv64, lo: nat, mid: nat, hi: nat, on: bool)
    requires RangeWritten(before, words, lo, mid, on)
    requires p < |words| && lo <= mid <= hi && 64 * p <= mid && hi <= 64 * p + 64
    requires MaskIs(mask, mid - 64 * p, hi - 64 * p)
    ensures RangeWritten(before, words[p := Written(words[p], mask, on)], lo, hi, on)
  {
    hide Bit, Written;
    var after := words[p := Written(words[p], mask, on)];
    forall n | 0 <= n < 64 * |before|
      ensures BitAt(after, n) == if lo <= n < hi then on else BitAt(before, n)
    {
      assert BitAt(words, n) == if lo <= n < mid then on else BitAt(before, n);
      if n / 64 == p { WrittenBits(words[p], mask, on, n % 64); }
    }
  }

  lemma NothingWritten(words: seq<bv64>, lo: nat, on: bool)
    ensures RangeWritten(words, words, lo, lo, on)
  {
  }

  /** Write the bits of one word, which extend the range already written. */
  method WriteWord(words: array<bv64>, p: nat, mask: bv64, on: bool,
                   ghost before: seq<bv64>, ghost lo: nat, ghost mid: nat, ghost hi: nat)
    requires p < words.Length && lo <= mid <= hi && 64 * p <= mid && hi <= 64 * p + 64
    requires RangeWritten(before, words[..], lo, mid, on) && MaskIs(mask, mid - 64 * p, hi - 64 * p)
    modifies words
    ensures RangeWritten(before, words[..], lo, hi, on)
  {
    hide RangeWritten, MaskIs, Written;
    ExtendRange(before, words[..], p, mask, lo, mid, hi, on);
    words[p] := Written(words[p], mask, on);
  }

  /** The loop shared by `bitmap_set` and `bitmap_clear`; they differ only in how a masked word is written. */
  method WriteRange(words: array<bv64>, start: nat, len0: nat, on: bool)
    requires start + len0 <= 64 * words.Length
    modifies words
    ensures RangeWritten(old(words[..]), words[..], start, start + len0, on)
  {
    hide RangeWritten, MaskIs, Written, FirstWordMask, LastWordMask, And;
    var p, size, len := start / 64, start + len0, len0;
    var bits := 64 - start % 64;
    var mask := FirstWordMask(start);
    ghost var before := words[..];
    NothingWritten(before, start, on);
    FirstMaskIs(start);
    WholeMaskIs();
    while len - bits >= 0
      invariant 0 <= len && 0 < bits <= 64 && start <= 64 * p + 64 - bits
      invariant 64 * p + 64 - bits + len == size
      invariant MaskIs(mask, 64 - bits, 64)
      invariant RangeWritten(before, words[..], start, 64 * p + 64 - bits, on)
      decreases len
    {
      WriteWord(words, p, mask, on, before, start, 64 * p + 64 - bits, 64 * p + 64);
      len := len - bits;
      bits := 64;
      mask := 0xFFFF_FFFF_FFFF_FFFF;
      p := p + 1;
    }
    if len > 0 {
      LastMaskIs(mask, 64 - bits, size);
      mask := And(mask, LastWordMask(size));
      WriteWord(words, p, mask, on, before, start, 64 * p + 64 - bits, size);
    }
  }

  /** Exactly the bits of the range are set, across any number of words. */
  method BitmapSet(words: array<bv64>, start: nat, len: nat)
    requires start + len <= 64 * words.Length
    modifies words
    ensures RangeWritten(old(words[..]), words[..], start, start + len, true)
  {
    WriteRange(words, start, len, true);
  }

  method BitmapClear(words: array<bv64>, start: nat, len: nat)
    requires start + len <= 64 * words.Length
    modifies words
    ensures RangeWritten(old(words[..]), words[..], start, start + len, false)
  {
    WriteRange(words, start, len, false);
  }

  // ----- searching

  /** Bit n matches: it is set, or clear when the search is inverted. */
  predicate Match(words: seq<bv64>, n: nat, invert: bool)
    requires n < 64 * |words|
  {
    BitAt(words, n) != invert
  }

  /** The least matching position from `start` on, or `nbits` when there is none below it. */
  function FirstMatch(words: seq<bv64>, nbits: nat, start: nat, invert: bool): (p: nat)
    requires start <= nbits <= 64 * |words|
    ensures start <= p <= nbits
    decreases nbits - start
  {
    if start == nbits || Match(words, start, invert) then start else FirstMatch(words, nbits, start + 1, invert)
  }

  lemma {:induction false} FirstMatchLeast(words: seq<bv64>, nbits: nat, start: nat, invert: bool)
    requires start <= nbits <= 64 * |words|
    ensures var p := FirstMatch(words, nbits, start, invert);
            (forall n :: start <= n < p ==> !Match(words, n, invert)) && (p < nbits ==> Match(words, p, invert))
    decreases nbits - start
  {
    hide Match;
    if start < nbits && !Match(words, start, invert) { FirstMatchLeast(words, nbits, start + 1, invert); }
  }

  lemma FirstMatchIs(words: seq<bv64>, nbits: nat, start: nat, invert: bool, p: nat)
    requires start <= p <= nbits <= 64 * |words|
    requires forall n :: start <= n < p ==> !Match(words, n, invert)
    requires p < nbits ==> Match(words, p, invert)
    ensures FirstMatch(words, nbits, start, invert) == p
  {
    hide Match;
    var q := FirstMatch(words, nbits, start, invert);
    FirstMatchLeast(words, nbits, start, invert);
    assert !(q < p) && !(p < q);
  }

  function LeastBit(w: bv64, i: nat): (j: nat)
    requires i <= 64
    ensures i <= j <= 64
    ensures forall k :: i <= k < j ==> !Bit(w, k)
    ensures j < 64 ==> Bit(w, j)
    decreases 64 - i
  {
    if i == 64 || Bit(w, i) then i else LeastBit(w, i + 1)
  }

  /** The compiler's find-first-set: one more than the index of the least set bit, and 0 for 0. */
  function Ffs(w: bv64): nat { if w == 0 then 0 else LeastBit(w, 0) + 1 }

  lemma NonzeroHasBit(w: bv64)
    ensures w == 0 <==> LeastBit(w, 0) == 64
  {
    hide LeastBit, View;
    if w == 0 {
      forall i | 0 <= i < 64 ensures !Bit(w, i) { BitOfZero(i); }
    } else if LeastBit(w, 0) == 64 {
      forall i | 0 <= i < 64 ensures View(w)[i] == View(0)[i] {
        assert !Bit(w, 63 - i);
        BitOfZero(63 - i);
      }
      ViewInjective(w, 0);
    }
  }

  /** A fetched word, inverted on request. */
  function Fetched(w: bv64, invert: bool): bv64 { Plus(w, if invert then 0xFFFF_FFFF_FFFF_FFFF else 0) }

  lemma FetchedBits(words: seq<bv64>, k: nat, invert: bool, i: nat)
    requires k < |words| && i < 64
    ensures Bit(Fetched(words[k], invert), i) == Match(words, 64 * k + i, invert)
  {
    hide Plus, Bit;
    BitOfPlus(words[k], if invert then 0xFFFF_FFFF_FFFF_FFFF else 0, i);
    BitOfAll(i);
    BitOfZero(i);
    assert (64 * k + i) / 64 == k && (64 * k + i) % 64 == i;
  }

  /** What a scanned word shows: the matches in word `k`, from `from` on. */
  ghost predicate Shows(words: seq<bv64>, k: nat, invert: bool, from: nat, tmp: bv64) {
    k < |words| && forall i :: 0 <= i < 64 ==> Bit(tmp, i) == (64 * k + i >= from && Match(words, 64 * k + i, invert))
  }

  lemma FirstWordShows(words: seq<bv64>, start: nat, invert: bool)
    requires start < 64 * |words|
    ensures Shows(words, start / 64, invert, start, And(Fetched(words[start / 64], invert), FirstWordMask(start)))
  {
    hide And, Bit, Fetched, FirstWordMask, Match;
    var k := start / 64;
    forall i | 0 <= i < 64
      ensures Bit(And(Fetched(words[k], invert), FirstWordMask(start)), i)
           == (64 * k + i >= start && Match(words, 64 * k + i, invert))
    {
      BitOfAnd(Fetched(words[k], invert), FirstWordMask(start), i);
      FetchedBits(words, k, invert, i);
      FirstMaskBits(start, i);
    }
  }

  lemma WordShows(words: seq<bv64>, k: nat, invert: bool, start: nat)
    requires k < |words| && start <= 64 * k
    ensures Shows(words, k, invert, start, Fetched(words[k], invert))
  {
    hide Bit, Fetched, Match;
    forall i | 0 <= i < 64
      ensures Bit(Fetched(words[k], invert), i) == (64 * k + i >= start && Match(words, 64 * k + i, invert))
    {
      FetchedBits(words, k, invert, i);
    }
  }

  /** A word that shows nothing adds no match below its end. */
  lemma NothingShown(words: seq<bv64>, k: nat, invert: bool, start: nat, tmp: bv64)
    requires Shows(words, k, invert, start, tmp) && tmp == 0
    requires forall n :: start <= n < 64 * k ==> !Match(words, n, invert)
    ensures forall n :: start <= n < 64 * k + 64 ==> !Match(words, n, invert)
  {
    hide Match, Bit;
    forall n | start <= n < 64 * k + 64 ensures !Match(words, n, invert) {
      if n >= 64 * k {
        BitOfZero(n - 64 * k);
        assert 64 * k + (n - 64 * k) == n;
      }
    }
  }

  /** What the search reports: one past the least match, or `nbits`. */
  function Reported(words: seq<bv64>, nbits: nat, from: nat, invert: bool): nat
    requires nbits <= 64 * |words|
  {
    if from >= nbits then nbits
    else var p := FirstMatch(words, nbits, from, invert); if p < nbits then p + 1 else nbits
  }

  /**
   The search locates the least match, but reports one more than its position, because find-first-set
   counts from 1; only a search that finds nothing reports what was meant, namely `nbits`.
   */
  method FindNextBit(words: seq<bv64>, nbits: nat, from: nat, invert: bool) returns (r: nat)
    requires nbits <= 64 * |words|
    ensures r == Reported(words, nbits, from, invert)
  {
    hide And, Fetched, FirstWordMask, Match, Shows, FirstMatch, LeastBit, Bit;
    if nbits == 0 || from >= nbits {
      return nbits;
    }
    var start := from;
    var tmp := And(Fetched(words[start / 64], invert), FirstWordMask(start));
    FirstWordShows(words, start, invert);
    start := start - start % 64;
    while tmp == 0
      invariant start % 64 == 0 && start < nbits
      invariant Shows(words, start / 64, invert, from, tmp)
      invariant forall n :: from <= n < start ==> !Match(words, n, invert)
      decreases nbits - start
    {
      NothingShown(words, start / 64, invert, from, tmp);
      start := start + 64;
      if start >= nbits {
        FirstMatchIs(words, nbits, from, invert, nbits);
        return nbits;
      }
      WordShows(words, start / 64, invert, from);
      tmp := Fetched(words[start / 64], invert);
    }
    var q := start + Ffs(tmp);
    LeastShown(words, start / 64, invert, from, tmp);
    if q - 1 < nbits { FirstMatchIs(words, nbits, from, invert, q - 1); } else { FirstMatchIs(words, nbits, from, invert, nbits); }
    return if q < nbits then q else nbits;
  }

  lemma LeastShown(words: seq<bv64>, k: nat, invert: bool, from: nat, tmp: bv64)
    requires Shows(words, k, invert, from, tmp) && tmp != 0
    requires forall n :: from <= n < 64 * k ==> !Match(words, n, invert)
    ensures var q := 64 * k + Ffs(tmp) - 1;
            && from <= q < 64 * k + 64 && Match(words, q, invert)
            && forall n :: from <= n < q ==> !Match(words, n, invert)
  {
    hide Match, Bit;
    NonzeroHasBit(tmp);
    var j := LeastBit(tmp, 0);
    forall n | from <= n < 64 * k + j ensures !Match(words, n, invert) {
      if n >= 64 * k {
        assert !Bit(tmp, n - 64 * k);
        assert 64 * k + (n - 64 * k) == n;
      }
    }
  }

  /** The search returns the position it means to exactly when there is nothing to find. */
  lemma FindRightExactly(words: seq<bv64>, nbits: nat, from: nat, invert: bool)
    requires from < nbits <= 64 * |words|
    ensures Reported(words, nbits, from, invert) == FirstMatch(words, nbits, from, invert) <==>
            forall n :: from <= n < nbits ==> !Match(words, n, invert)
  {
    hide Match, FirstMatch;
    FirstMatchLeast(words, nbits, from, invert);
  }

  /** Bit 0 of the one-word map 1 is set, so the search for it from 0 reports 1. */
  lemma FindOffByOne()
    ensures FirstMatch([1], 64, 0, false) == 0 && Reported([1], 64, 0, false) == 1
  {
    hide View;
    ViewLast(1);
    assert Match([1], 0, false);
  }

  ghost predicate AllSet(words: seq<bv64>, n: nat)
    requires n <= 64 * |words|
  {
    forall k :: 0 <= k < n ==> BitAt(words, k)
  }

  /** The answer by searching for a clear bit. */
  predicate SearchedFull(words: seq<bv64>, nbits: nat)
    requires nbits <= 64 * |words|
  {
    Reported(words, nbits, 0, true) == nbits
  }

  /** The search looks at every bit but the last. */
  lemma SearchIgnoresLastBit(words: seq<bv64>, nbits: nat)
    requires nbits <= 64 * |words|
    ensures SearchedFull(words, nbits) <==> AllSet(words, if nbits == 0 then 0 else nbits - 1)
  {
    hide Bit, FirstMatch;
    if nbits > 0 {
      var p := FirstMatch(words, nbits, 0, true);
      FirstMatchLeast(words, nbits, 0, true);
      forall n | 0 <= n < p ensures BitAt(words, n) { assert !Match(words, n, true); }
      assert p < nbits ==> Match(words, p, true);
    }
  }

  /**
   `bitmap_full`. A constant size of at most a word is tested with a mask. Otherwise the search decides,
   and its off-by-one makes the last bit irrelevant.
   */
  method BitmapFull(words: seq<bv64>, nbits: nat, constant: bool) returns (full: bool)
    requires nbits <= 64 * |words| && (constant ==> |words| > 0)
    ensures constant && nbits <= 64 ==> full == AllSet(words, if nbits == 0 then 64 else nbits)
    ensures !(constant && nbits <= 64) ==> full == SearchedFull(words, nbits)
  {
    hide And, Not, LastWordMask, Bit, Reported;
    if constant && nbits <= 64 {
      var left := And(Not(words[0]), LastWordMask(nbits));
      MaskedWord(words, nbits);
      full := left == 0;
    } else {
      var r := FindNextBit(words, nbits, 0, true);
      full := r == nbits;
    }
  }

  lemma MaskedWord(words: seq<bv64>, nbits: nat)
    requires |words| > 0 && nbits <= 64
    ensures And(Not(words[0]), LastWordMask(nbits)) == 0 <==> AllSet(words, if nbits == 0 then 64 else nbits)
  {
    hide And, Not, LastWordMask, Bit, LeastBit;
    var left, n := And(Not(words[0]), LastWordMask(nbits)), if nbits == 0 then 64 else nbits;
    forall i | 0 <= i < 64 ensures Bit(left, i) == (!BitAt(words, i) && i < n) {
      BitOfAnd(Not(words[0]), LastWordMask(nbits), i);
      BitOfNot(words[0], i);
      LastMaskBits(nbits, i);
    }
    NonzeroHasBit(left);
    if left == 0 {
      forall k | 0 <= k < n ensures BitAt(words, k) { assert !Bit(left, k); }
    } else {
      assert Bit(left, LeastBit(left, 0));
    }
  }

  /** The search answers rightly exactly when the last bit is set or some earlier one is clear. */
  lemma FullRightExactly(words: seq<bv64>, nbits: nat)
    requires 0 < nbits <= 64 * |words|
    ensures SearchedFull(words, nbits) == AllSet(words, nbits) <==>
            BitAt(words, nbits - 1) || exists n :: 0 <= n < nbits - 1 && !BitAt(words, n)
  {
    hide BitAt, SearchedFull;
    SearchIgnoresLastBit(words, nbits);
  }

  /** A full word followed by a clear bit counts as a full map of 65 bits. */
  lemma FullMissesLastBit()
    ensures SearchedFull([0xFFFF_FFFF_FFFF_FFFF, 0], 65) && !AllSet([0xFFFF_FFFF_FFFF_FFFF, 0], 65)
  {
    hide Bit, SearchedFull;
    var words: seq<bv64> := [0xFFFF_FFFF_FFFF_FFFF, 0];
    forall k | 0 <= k < 64 ensures BitAt(words, k) { BitOfAll(k); }
    BitOfZero(0);
    assert !BitAt(words, 64);
    SearchIgnoresLastBit(words, 65);
  }
}
