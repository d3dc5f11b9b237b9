/**
 The random pointer chain of chaining-demo/compress_crc.c: a Fisher-Yates shuffle of cache-line
 numbers, the chain linked through them, and the chase over it. Addresses count 8-byte words, so a
 64-byte line is eight of them; the outcomes of `rand` are a parameter.
 */
module PointerChain {
  import opened Prelude

  // ----- the shuffle

  function Swap(s: seq<nat>, i: nat, j: nat): (t: seq<nat>)
    requires i < |s| && j < |s|
    ensures |t| == |s|
  {
    s[i := s[j]][j := s[i]]
  }

  lemma SwapPermutes(s: seq<nat>, i: nat, j: nat)
    requires i < |s| && j < |s|
    ensures multiset(Swap(s, i, j)) == multiset(s)
  {
    assert multiset(s[i := s[j]]) == multiset(s)[s[i] := multiset(s)[s[i]] - 1] + multiset{s[j]};
  }

  /** Positions chosen by a shuffle of the first `n` elements: for position i, one of 0 to i. */
  ghost predicate Choices(js: seq<nat>, n: nat) {
    n >= 1 && |js| == n - 1 && forall k :: 0 <= k < n - 1 ==> js[k] <= n - 1 - k
  }

  /** Shuffle the first `n` elements: position n - 1 is exchanged with js[0], then n - 2 with js[1], ... */
  function Shuffled(s: seq<nat>, n: nat, js: seq<nat>): (t: seq<nat>)
    requires 1 <= n <= |s| && Choices(js, n)
    ensures |t| == |s|
    decreases n
  {
    if n == 1 then s else Shuffled(Swap(s, n - 1, js[0]), n - 1, js[1..])
  }

  /** Whatever is chosen, the result is a permutation. */
  lemma {:induction false} ShufflePermutes(s: seq<nat>, n: nat, js: seq<nat>)
    requires 1 <= n <= |s| && Choices(js, n)
    ensures multiset(Shuffled(s, n, js)) == multiset(s)
    decreases n
  {
    hide Swap;
    if n > 1 {
      SwapPermutes(s, n - 1, js[0]);
      ShufflePermutes(Swap(s, n - 1, js[0]), n - 1, js[1..]);
    }
  }

  lemma {:induction false} ShuffleKeepsAbove(s: seq<nat>, n: nat, js: seq<nat>, k: nat)
    requires 1 <= n <= k < |s| && Choices(js, n)
    ensures Shuffled(s, n, js)[k] == s[k]
    decreases n
  {
    if n > 1 { ShuffleKeepsAbove(Swap(s, n - 1, js[0]), n - 1, js[1..], k); }
  }

  ghost predicate Distinct(s: seq<nat>) { forall i, j :: 0 <= i < j < |s| ==> s[i] != s[j] }

  lemma SwapDistinct(s: seq<nat>, i: nat, j: nat)
    requires i < |s| && j < |s| && Distinct(s)
    ensures Distinct(Swap(s, i, j))
  {
  }

  lemma SameElement(s: seq<nat>, i: nat, j: nat)
    requires Distinct(s) && i < |s| && j < |s| && s[i] == s[j]
    ensures i == j
  {
  }

  lemma SameChoice(s: seq<nat>, n: nat, js: seq<nat>, ks: seq<nat>)
    requires 1 < n <= |s| && Distinct(s) && Choices(js, n) && Choices(ks, n)
    requires Shuffled(s, n, js) == Shuffled(s, n, ks)
    ensures js[0] == ks[0] && js[0] < n
  {
    hide Shuffled, Distinct;
    FirstChoiceIsLast(s, n, js);
    FirstChoiceIsLast(s, n, ks);
    SameElement(s, js[0], ks[0]);
  }

  /** Different choices give different permutations. */
  lemma {:induction false} ShuffleInjective(s: seq<nat>, n: nat, js: seq<nat>, ks: seq<nat>)
    requires 1 <= n <= |s| && Distinct(s) && Choices(js, n) && Choices(ks, n)
    requires Shuffled(s, n, js) == Shuffled(s, n, ks)
    ensures js == ks
    decreases n
  {
    if n > 1 {
      SameChoice(s, n, js, ks);
      SwapDistinct(s, n - 1, js[0]);
      hide Distinct, Swap;
      ShuffleInjective(Swap(s, n - 1, js[0]), n - 1, js[1..], ks[1..]);
      assert js == [js[0]] + js[1..] && ks == [ks[0]] + ks[1..];
    }
  }

  /** Every permutation is the result of some choices; with the above, each of exactly one. */
  lemma {:induction false} ShuffleSurjective(s: seq<nat>, n: nat, t: seq<nat>) returns (js: seq<nat>)
    requires 1 <= n <= |s| == |t| && s[n..] == t[n..] && multiset(s[..n]) == multiset(t[..n])
    ensures Choices(js, n) && Shuffled(s, n, js) == t
    decreases n
  {
    if n == 1 {
      assert s[..1] == [s[0]] && t[..1] == [t[0]];
      assert s[0] in multiset(t[..1]);
      assert s == s[..1] + s[1..] && t == t[..1] + t[1..];
      js := [];
    } else {
      var j := LastChoice(s, n, t);
      var rest := ShuffleSurjective(Swap(s, n - 1, j), n - 1, t);
      js := [j] + rest;
      assert js[1..] == rest;
    }
  }

  /** Some element of the first `n` belongs at position n - 1; exchanging it there leaves a smaller problem. */
  lemma LastChoice(s: seq<nat>, n: nat, t: seq<nat>) returns (j: nat)
    requires 1 < n <= |s| == |t| && s[n..] == t[n..] && multiset(s[..n]) == multiset(t[..n])
    ensures j < n
    ensures Swap(s, n - 1, j)[n - 1..] == t[n - 1..]
    ensures multiset(Swap(s, n - 1, j)[..n - 1]) == multiset(t[..n - 1])
  {
    var a, b := s[..n], t[..n];
    j := IndexOf(a, b[n - 1]);
    SwapPermutes(a, n - 1, j);
    DropLast(Swap(a, n - 1, j), b);
    SwapSlices(s, n, t, j);
  }

  lemma IndexOf(a: seq<nat>, x: nat) returns (j: nat)
    requires x in multiset(a)
    ensures j < |a| && a[j] == x
  {
    j :| 0 <= j < |a| && a[j] == x;
  }

  lemma SwapSlices(s: seq<nat>, n: nat, t: seq<nat>, j: nat)
    requires 1 < n <= |s| == |t| && s[n..] == t[n..] && j < n && s[j] == t[n - 1]
    ensures Swap(s, n - 1, j)[n - 1..] == t[n - 1..]
    ensures Swap(s[..n], n - 1, j)[..n - 1] == Swap(s, n - 1, j)[..n - 1]
    ensures t[..n][..n - 1] == t[..n - 1]
  {
    assert t[n - 1..] == [t[n - 1]] + t[n..];
    assert s[n - 1..] == [s[n - 1]] + s[n..];
  }

  lemma WithoutLast(p: seq<nat>, x: nat)
    ensures multiset(p + [x]) - multiset{x} == multiset(p)
  {
  }

  lemma DropLast(u: seq<nat>, t: seq<nat>)
    requires |u| == |t| > 0 && multiset(u) == multiset(t) && u[|u| - 1] == t[|t| - 1]
    ensures multiset(u[..|u| - 1]) == multiset(t[..|t| - 1])
  {
    var p, q, x := u[..|u| - 1], t[..|t| - 1], u[|u| - 1];
    assert u == p + [x] && t == q + [x];
    WithoutLast(p, x);
    WithoutLast(q, x);
  }

  /** What the draws of `rand` choose. */
  function FromDraws(draws: seq<nat>, n: nat): (js: seq<nat>)
    requires n >= 1 && |draws| == n - 1
    ensures Choices(js, n)
  {
    seq(n - 1, k requires 0 <= k < n - 1 => draws[k] % (n - k))
  }

  /** Each choice is its draw's remainder, the first modulo `n`, the next modulo `n - 1`, and so on. */
  lemma DrawsDecide(draws: seq<nat>, n: nat, k: nat)
    requires n >= 1 && |draws| == n - 1 && k < n - 1
    ensures |FromDraws(draws, n)| == n - 1 && FromDraws(draws, n)[k] == draws[k] % (n - k)
  {
  }

  lemma SmallRemainder(x: nat, n: nat)
    requires x < n
    ensures x % n == x
  {
  }

  /** Every list of choices comes from some draws: from itself, for one. */
  lemma DrawsReachAll(js: seq<nat>, n: nat)
    requires n >= 1 && Choices(js, n)
    ensures |js| == n - 1 && FromDraws(js, n) == js
  {
    hide FromDraws;
    assert |FromDraws(js, n)| == n - 1;
    forall k | 0 <= k < n - 1 ensures FromDraws(js, n)[k] == js[k] {
      DrawsDecide(js, n, k);
      SmallRemainder(js[k], n - k);
    }
  }

  /** The first choice picks the element that ends up last, and the others leave it there. */
  lemma FirstChoiceIsLast(s: seq<nat>, n: nat, js: seq<nat>)
    requires 1 < n <= |s| && Choices(js, n)
    ensures js[0] < n && Shuffled(s, n, js)[n - 1] == s[js[0]]
  {
    ShuffleKeepsAbove(Swap(s, n - 1, js[0]), n - 1, js[1..], n - 1);
  }

  method RandomPermutation(a: array<nat>, draws: seq<nat>)
    requires a.Length >= 1 ==> |draws| == a.Length - 1
    modifies a
    ensures a.Length >= 1 ==> a[..] == Shuffled(old(a[..]), a.Length, FromDraws(draws, a.Length))
  {
    hide Shuffled;
    if a.Length == 0 {
      return;
    }
    var i := a.Length - 1;
    ghost var goal, rest := Shuffled(a[..], a.Length, FromDraws(draws, a.Length)), FromDraws(draws, a.Length);
    while i > 0
      invariant 0 <= i < a.Length
      invariant |rest| == i && forall k :: 0 <= k < i ==> rest[k] == draws[a.Length - 1 - i + k] % (i + 1 - k)
      invariant Choices(rest, i + 1) && Shuffled(a[..], i + 1, rest) == goal
    {
      var j := draws[a.Length - 1 - i] % (i + 1);
      ExchangeOne(a[..], i, rest);
      ghost var before := a[..];
      var temp := a[i];
      a[i] := a[j];
      a[j] := temp;
      assert a[..] == Swap(before, i, j);
      rest := rest[1..];
      i := i - 1;
    }
    ShuffleDone(a[..], rest);
  }

  lemma ShuffleDone(s: seq<nat>, js: seq<nat>)
    requires |s| >= 1 && Choices(js, 1)
    ensures Shuffled(s, 1, js) == s
  {
  }

  lemma ExchangeOne(s: seq<nat>, i: nat, js: seq<nat>)
    requires 1 <= i < |s| && Choices(js, i + 1)
    ensures Choices(js[1..], i)
    ensures Shuffled(s, i + 1, js) == Shuffled(Swap(s, i, js[0]), i, js[1..])
  {
  }

  // ----- the chain

  /** `p` lists each of 0 to |p| - 1 once. */
  ghost predicate Permutation(p: seq<nat>) { multiset(p) == multiset(Iota(|p|)) }

  lemma PermutationFacts(p: seq<nat>)
    requires Permutation(p)
    ensures Distinct(p)
    ensures forall i :: 0 <= i < |p| ==> p[i] < |p|
    ensures forall x :: 0 <= x < |p| ==> x in p
  {
    var n := |p|;
    forall i | 0 <= i < n ensures p[i] < n { assert p[i] in multiset(p); assert p[i] in Iota(n); }
    forall x | 0 <= x < n ensures x in p { assert Iota(n)[x] in multiset(Iota(n)); assert x in multiset(p); }
    forall i, j | 0 <= i < j < n ensures p[i] != p[j] {
      if p[i] == p[j] {
        CountTwice(p, i, j);
        CountOnce(n, p[i]);
      }
    }
  }

  lemma {:induction false} CountOnce(n: nat, x: nat)
    ensures multiset(Iota(n))[x] <= 1
  {
    if n > 0 {
      CountOnce(n - 1, x);
      assert Iota(n) == Iota(n - 1) + [n - 1];
      if x == n - 1 { assert x !in Iota(n - 1); }
    }
  }

  /** The line that follows line p[k] when the lines are linked in the order of `p`, and the last to the first. */
  function Successor(p: seq<nat>, k: nat): nat
    requires k < |p|
  {
    if k + 1 < |p| then p[k + 1] else p[0]
  }

  /** The lines before position `m` are linked. */
  ghost predicate LinkedUpTo(memory: seq<nat>, base: nat, p: seq<nat>, m: nat)
    requires m <= |p|
  {
    forall k :: 0 <= k < m ==> 8 * p[k] < |memory| && memory[8 * p[k]] == base + 8 * Successor(p, k)
  }

  /** The word at the start of each line holds the address of the start of the next line. */
  ghost predicate Linked(memory: seq<nat>, base: nat, p: seq<nat>) {
    Permutation(p) && |p| > 0 && 8 * |p| <= |memory| && LinkedUpTo(memory, base, p, |p|)
  }

  lemma LinkOne(memory: seq<nat>, base: nat, p: seq<nat>, m: nat)
    requires m < |p| && Distinct(p) && 8 * p[m] < |memory| && LinkedUpTo(memory, base, p, m)
    ensures LinkedUpTo(memory[8 * p[m] := base + 8 * Successor(p, m)], base, p, m + 1)
  {
  }

  lemma SuccessorIs(p: seq<nat>, k: nat)
    requires k < |p|
    ensures Successor(p, k) == p[if k + 1 < |p| then k + 1 else 0]
  {
  }

  lemma LineInRange(p: seq<nat>, k: nat)
    requires Permutation(p) && k < |p|
    ensures Distinct(p) && p[k] < |p|
  {
    hide Permutation, Distinct;
    PermutationFacts(p);
  }

  /** Point the first word of one line at the first word of another. */
  method SetLink(memory: array<nat>, line: nat, next: nat, base: nat, ghost p: seq<nat>, ghost k: nat)
    requires Permutation(p) && k < |p| && 8 * |p| <= memory.Length
    requires line == p[k] && next == p[if k + 1 < |p| then k + 1 else 0]
    requires LinkedUpTo(memory[..], base, p, k)
    modifies memory
    ensures LinkedUpTo(memory[..], base, p, k + 1)
  {
    hide Permutation, LinkedUpTo, Distinct, Successor;
    LineInRange(p, k);
    SuccessorIs(p, k);
    LinkOne(memory[..], base, p, k);
    memory[8 * line] := base + 8 * next;
  }

  /** The linking loop, and the last pointer back to the first line. */
  method LinkLines(memory: array<nat>, indices: array<nat>, base: nat)
    requires memory != indices && indices.Length > 0 && 8 * indices.Length <= memory.Length
    requires Permutation(indices[..])
    modifies memory
    ensures Linked(memory[..], base, indices[..]) && indices[..] == old(indices[..])
  {
    hide Permutation, LinkedUpTo, Linked, Distinct, Successor;
    ghost var p := indices[..];
    var len, i := indices.Length, 1;
    NoneLinked(memory[..], base, p);
    while i < len
      invariant 1 <= i <= len && indices[..] == p
      invariant LinkedUpTo(memory[..], base, p, i - 1)
    {
      SetLink(memory, indices[i - 1], indices[i], base, p, i - 1);
      i := i + 1;
    }
    SetLink(memory, indices[len - 1], indices[0], base, p, len - 1);
    AllLinked(memory[..], base, p);
  }

  lemma NoneLinked(memory: seq<nat>, base: nat, p: seq<nat>)
    ensures LinkedUpTo(memory, base, p, 0)
  {
  }

  lemma AllLinked(memory: seq<nat>, base: nat, p: seq<nat>)
    requires Permutation(p) && |p| > 0 && 8 * |p| <= |memory| && LinkedUpTo(memory, base, p, |p|)
    ensures Linked(memory, base, p)
  {
  }

  /**
   A chain of `size / 64` lines whose pointers assume the memory sits at `base`: its own address for
   one variant, a caller's buffer that it will be copied to for the other. A size below one line is
   excluded, as it makes the source index before the start of its arrays.
   */
  method CreateRandomChain(size: nat, base: nat, draws: seq<nat>) returns (memory: array<nat>, ghost p: seq<nat>)
    requires size >= 64 && |draws| == size / 64 - 1
    ensures fresh(memory) && memory.Length == size / 8 && |p| == size / 64
    ensures p == Shuffled(Iota(size / 64), size / 64, FromDraws(draws, size / 64))
    ensures Linked(memory[..], base, p)
  {
    hide Shuffled, FromDraws, Linked;
    var len := size / 64;
    memory := new nat[size / 8];
    var indices := new nat[len];
    var i := 0;
    while i < len
      invariant 0 <= i <= len
      invariant forall k :: 0 <= k < i ==> indices[k] == k
    {
      indices[i] := i;
      i := i + 1;
    }
    assert indices[..] == Iota(len);
    RandomPermutation(indices, draws);
    ShufflePermutes(Iota(len), len, FromDraws(draws, len));
    LinkLines(memory, indices, base);
    p := indices[..];
  }

  // ----- the chase

  /** Where `steps` dereferences from `start` lead; a pointer that leaves the memory stays where it is. */
  function Chase(memory: seq<nat>, base: nat, start: nat, steps: nat): nat
    decreases steps
  {
    if steps == 0 then start
    else
      var at := Chase(memory, base, start, steps - 1);
      if base <= at < base + |memory| then memory[at - base] else at
  }

  /** Position in the order reached after `k` steps from position `z`, going round. */
  function Around(z: nat, k: nat, n: nat): (r: nat)
    requires z < n
    ensures r < n
    decreases k
  {
    if k == 0 then z
    else
      var r := Around(z, k - 1, n);
      if r + 1 < n then r + 1 else 0
  }

  lemma {:induction false} AroundOnce(z: nat, k: nat, n: nat)
    requires z < n && k <= n
    ensures Around(z, k, n) == if z + k < n then z + k else z + k - n
    decreases k
  {
    if k > 0 { AroundOnce(z, k - 1, n); }
  }

  lemma {:induction false} AroundAgain(z: nat, k: nat, n: nat)
    requires z < n
    ensures Around(z, k + n, n) == Around(z, k, n)
    decreases k
  {
    if k == 0 { AroundOnce(z, n, n); } else { AroundAgain(z, k - 1, n); }
  }

  lemma LinkAt(memory: seq<nat>, base: nat, p: seq<nat>, k: nat)
    requires Linked(memory, base, p) && k < |p|
    ensures 8 * p[k] < |memory| && memory[8 * p[k]] == base + 8 * Successor(p, k)
  {
  }

  lemma {:induction false} ChaseFollows(memory: seq<nat>, base: nat, p: seq<nat>, z: nat, k: nat)
    requires Linked(memory, base, p) && z < |p| && p[z] == 0
    ensures Chase(memory, base, base, k) == base + 8 * p[Around(z, k, |p|)]
    ensures Chase(memory, base, base, k) < base + |memory|
    decreases k
  {
    hide Linked;
    LinkAt(memory, base, p, Around(z, k, |p|));
    if k > 0 {
      ChaseFollows(memory, base, p, z, k - 1);
      LinkAt(memory, base, p, Around(z, k - 1, |p|));
    }
  }

  lemma PositionOf(p: seq<nat>, x: nat) returns (z: nat)
    requires Permutation(p) && x < |p|
    ensures z < |p| && p[z] == x
  {
    PermutationFacts(p);
    assert x in p;
    z :| 0 <= z < |p| && p[z] == x;
  }

  /** The line under the pointer after `k` steps. */
  ghost predicate At(memory: seq<nat>, base: nat, k: nat, line: nat) {
    Chase(memory, base, base, k) == base + 8 * line
  }

  ghost predicate Visited(memory: seq<nat>, base: nat, n: nat, line: nat) {
    exists k :: 0 <= k < n && At(memory, base, k, line)
  }

  lemma VisitsLine(memory: seq<nat>, base: nat, p: seq<nat>, line: nat) returns (k: nat)
    requires Linked(memory, base, p) && line < |p|
    ensures k < |p| && At(memory, base, k, line)
  {
    var n := |p|;
    var z := PositionOf(p, 0);
    var i := PositionOf(p, line);
    hide Linked, Chase, Around;
    k := if i >= z then i - z else i + n - z;
    AroundOnce(z, k, n);
    ChaseFollows(memory, base, p, z, k);
  }

  lemma VisitsOnce(memory: seq<nat>, base: nat, p: seq<nat>, j: nat, k: nat)
    requires Linked(memory, base, p) && j < k < |p|
    ensures Chase(memory, base, base, j) != Chase(memory, base, base, k)
  {
    var n := |p|;
    var z := PositionOf(p, 0);
    PermutationFacts(p);
    hide Linked, Chase, Around;
    ChaseFollows(memory, base, p, z, j);
    ChaseFollows(memory, base, p, z, k);
    AroundOnce(z, j, n);
    AroundOnce(z, k, n);
  }

  lemma Repeats(memory: seq<nat>, base: nat, p: seq<nat>, k: nat)
    requires Linked(memory, base, p)
    ensures Chase(memory, base, base, k + |p|) == Chase(memory, base, base, k)
  {
    var z := PositionOf(p, 0);
    hide Linked, Chase, Around, Permutation;
    ChaseFollows(memory, base, p, z, k);
    ChaseFollows(memory, base, p, z, k + |p|);
    AroundAgain(z, k, |p|);
  }

  /**
   The chain is one single cycle: the first |p| steps of a chase from the start of the memory visit
   every line once, the next step is back at the start, and from there on the visit repeats.
   */
  lemma SingleCycle(memory: seq<nat>, base: nat, p: seq<nat>)
    requires Linked(memory, base, p)
    ensures forall line :: 0 <= line < |p| ==> Visited(memory, base, |p|, line)
    ensures forall j, k :: 0 <= j < k < |p| ==> Chase(memory, base, base, j) != Chase(memory, base, base, k)
    ensures forall k: nat :: Chase(memory, base, base, k + |p|) == Chase(memory, base, base, k)
    ensures Chase(memory, base, base, |p|) == base
  {
    hide Linked, At;
    forall line | 0 <= line < |p| ensures Visited(memory, base, |p|, line) {
      var k := VisitsLine(memory, base, p, line);
    }
    forall j, k | 0 <= j < k < |p| ensures Chase(memory, base, base, j) != Chase(memory, base, base, k) {
      VisitsOnce(memory, base, p, j, k);
    }
    forall k: nat ensures Chase(memory, base, base, k + |p|) == Chase(memory, base, base, k) {
      Repeats(memory, base, p, k);
    }
    Repeats(memory, base, p, 0);
  }

  lemma NextStep(memory: seq<nat>, base: nat, p: seq<nat>, k: nat)
    requires Linked(memory, base, p)
    ensures var at := Chase(memory, base, base, k);
            base <= at < base + |memory| && Chase(memory, base, base, k + 1) == memory[at - base]
  {
    var z := PositionOf(p, 0);
    hide Linked, Around;
    ChaseFollows(memory, base, p, z, k);
  }

  /** The chase loop over a linked chain never leaves the memory. */
  method ChasePointers(memory: seq<nat>, base: nat, count: int, ghost order: seq<nat>)
    returns (p: nat, global: nat)
    requires Linked(memory, base, order)
    ensures p == Chase(memory, base, base, if count > 0 then count else 0)
    ensures global == Chase(memory, base, base, (if count > 0 then count else 0) + 1)
  {
    hide Linked;
    p := base;
    var done := 0;
    while done < count
      invariant 0 <= done && (done <= count || done == 0)
      invariant p == Chase(memory, base, base, done)
    {
      NextStep(memory, base, order, done);
      p := memory[p - base];
      done := done + 1;
    }
    NextStep(memory, base, order, done);
    global := memory[p - base];
  }
}
