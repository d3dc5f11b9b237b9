/** What several of the modules use. */
module Prelude {
  datatype Option<+T> = None | Some(value: T)

  /** 0, 1, ..., n - 1. */
  function Iota(n: nat): (r: seq<nat>)
    ensures |r| == n && forall i :: 0 <= i < n ==> r[i] == i
  {
    seq(n, i => i)
  }

  lemma CountTwice<T>(p: seq<T>, i: nat, j: nat)
    requires i < j < |p| && p[i] == p[j]
    ensures multiset(p)[p[i]] >= 2
  {
    assert p == p[..j] + [p[j]] + p[j + 1..];
    assert p[i] in p[..j];
  }

  /** `memmove` of `n` elements from `src` down to `dst`. */
  method MoveDown<T>(buf: array<T>, dst: nat, src: nat, n: nat)
    requires dst <= src && src + n <= buf.Length
    modifies buf
    ensures buf[..] == Moved(old(buf[..]), dst, src, n)
  {
    ghost var was := buf[..];
    var i := 0;
    assert buf[..] == Moved(was, dst, src, 0);
    while i < n
      invariant 0 <= i <= n && buf[..] == Moved(was, dst, src, i)
    {
      MovedOneMore(was, dst, src, i);
      assert buf[src + i] == buf[..][src + i];
      buf[dst + i] := buf[src + i];
      i := i + 1;
    }
  }

  /** `was` after its first `n` elements at `src` have been moved to `dst`. */
  function Moved<T>(was: seq<T>, dst: nat, src: nat, n: nat): (s: seq<T>)
    requires dst <= src && src + n <= |was|
    ensures |s| == |was|
  {
    was[..dst] + was[src..src + n] + was[dst + n..]
  }

  lemma MovedAt<T>(was: seq<T>, dst: nat, src: nat, n: nat, i: nat)
    requires dst <= src && src + n <= |was| && i < |was|
    ensures Moved(was, dst, src, n)[i] == if dst <= i < dst + n then was[src + (i - dst)] else was[i]
  {
  }

  lemma MovedOneMore<T>(was: seq<T>, dst: nat, src: nat, n: nat)
    requires dst <= src && src + n < |was|
    ensures var s := Moved(was, dst, src, n); s[dst + n := s[src + n]] == Moved(was, dst, src, n + 1)
  {
    hide Moved;
    var s, t := Moved(was, dst, src, n), Moved(was, dst, src, n + 1);
    MovedAt(was, dst, src, n, src + n);
    forall i | 0 <= i < |was| ensures s[dst + n := s[src + n]][i] == t[i] {
      MovedAt(was, dst, src, n, i);
      MovedAt(was, dst, src, n + 1, i);
    }
  }
}
