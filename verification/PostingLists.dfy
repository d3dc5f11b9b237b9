/**
 The posting-list intersection of ax_access_overhead_measurement/walker_ax_access_overhead.cpp: three
 cursors walk two linked lists and build a third, whose last node is always an unused placeholder.
 */
module PostingLists {
  import opened Prelude

  class Node {
    var docID: int
    var next: Node?
  }

  ghost function NodeAt(nodes: seq<Node>, i: nat): Node? { if i < |nodes| then nodes[i] else null }

  /** The list from `head` consists of exactly `nodes`, which hold `ids`. */
  ghost predicate Holds(head: Node?, nodes: seq<Node>, ids: seq<int>)
    reads nodes
  {
    && head == NodeAt(nodes, 0) && |nodes| == |ids|
    && forall i :: 0 <= i < |nodes| ==> nodes[i].docID == ids[i] && nodes[i].next == NodeAt(nodes, i + 1)
  }

  /** What the walk emits from two sequences of ids, sorted or not. */
  function Common(x: seq<int>, y: seq<int>): seq<int>
    decreases |x| + |y|
  {
    if x == [] || y == [] then []
    else if x[0] == y[0] then [x[0]] + Common(x[1..], y[1..])
    else if x[0] < y[0] then Common(x[1..], y)
    else Common(x, y[1..])
  }

  ghost predicate Ascending(x: seq<int>) { forall i, j :: 0 <= i < j < |x| ==> x[i] <= x[j] }

  ghost predicate Strict(x: seq<int>) { forall i, j :: 0 <= i < j < |x| ==> x[i] < x[j] }

  /** On ascending inputs, repeated ids included, the walk emits the intersection as a multiset. */
  lemma {:induction false} CommonIsIntersection(x: seq<int>, y: seq<int>)
    requires Ascending(x) && Ascending(y)
    ensures multiset(Common(x, y)) == multiset(x) * multiset(y)
    decreases |x| + |y|
  {
    if x != [] && y != [] {
      assert x == [x[0]] + x[1..] && y == [y[0]] + y[1..];
      if x[0] == y[0] {
        CommonIsIntersection(x[1..], y[1..]);
        InBoth(x[0], x[1..], y[1..]);
      } else if x[0] < y[0] {
        CommonIsIntersection(x[1..], y);
        InOne(x[0], x[1..], y);
      } else {
        CommonIsIntersection(x, y[1..]);
        InOne(y[0], y[1..], x);
      }
    }
  }

  lemma InBoth(v: int, x: seq<int>, y: seq<int>)
    ensures multiset([v] + x) * multiset([v] + y) == multiset{v} + multiset(x) * multiset(y)
  {
  }

  lemma InOne(v: int, x: seq<int>, y: seq<int>)
    requires v !in y
    ensures multiset([v] + x) * multiset(y) == multiset(x) * multiset(y)
    ensures multiset(y) * multiset([v] + x) == multiset(y) * multiset(x)
  {
  }

  lemma {:induction false} CommonAscends(x: seq<int>, y: seq<int>)
    requires Ascending(x) && Ascending(y)
    ensures Ascending(Common(x, y))
    ensures forall v :: v in Common(x, y) ==> v in x && v in y
    decreases |x| + |y|
  {
    if x != [] && y != [] {
      if x[0] == y[0] {
        CommonAscends(x[1..], y[1..]);
        var rest := Common(x[1..], y[1..]);
        forall k | 0 <= k < |rest| ensures x[0] <= rest[k] { assert rest[k] in rest; }
      }
      else if x[0] < y[0] { CommonAscends(x[1..], y); }
      else { CommonAscends(x, y[1..]); }
    }
  }

  /** On strictly ascending inputs it emits exactly the ids in both, once each, ascending. */
  lemma CommonOfStrict(x: seq<int>, y: seq<int>)
    requires Strict(x) && Strict(y)
    ensures Strict(Common(x, y))
    ensures forall v :: v in Common(x, y) <==> v in x && v in y
  {
    CommonIsIntersection(x, y);
    CommonAscends(x, y);
    forall v ensures v in Common(x, y) <==> v in x && v in y {
      assert v in Common(x, y) <==> v in multiset(Common(x, y));
      assert v in x <==> v in multiset(x);
      assert v in y <==> v in multiset(y);
    }
    var c := Common(x, y);
    forall i, j | 0 <= i < j < |c| ensures c[i] < c[j] {
      if c[i] == c[j] {
        CountTwice(c, i, j);
        Once(x, c[i]);
      }
    }
  }

  lemma {:induction false} Once(x: seq<int>, v: int)
    requires Strict(x)
    ensures multiset(x)[v] <= 1
  {
    if x != [] {
      Once(x[1..], v);
      assert x == [x[0]] + x[1..];
      if v == x[0] { assert v !in x[1..]; }
    }
  }

  /** With the cursors at `i` and `j`, `ids` is what has been emitted. */
  ghost predicate SoFar(ids: seq<int>, x: seq<int>, y: seq<int>, i: nat, j: nat)
    requires i <= |x| && j <= |y|
  {
    ids + Common(x[i..], y[j..]) == Common(x, y)
  }

  lemma AtStart(x: seq<int>, y: seq<int>)
    ensures SoFar([], x, y, 0, 0)
  {
    assert x[0..] == x && y[0..] == y;
  }

  lemma OneStep(ids: seq<int>, x: seq<int>, y: seq<int>, i: nat, j: nat)
    requires i < |x| && j < |y| && SoFar(ids, x, y, i, j)
    ensures x[i] == y[j] ==> SoFar(ids + [x[i]], x, y, i + 1, j + 1)
    ensures x[i] < y[j] ==> SoFar(ids, x, y, i + 1, j)
    ensures x[i] > y[j] ==> SoFar(ids, x, y, i, j + 1)
  {
    assert x[i..][1..] == x[i + 1..] && y[j..][1..] == y[j + 1..];
    var rest := Common(x[i + 1..], y[j + 1..]);
    assert (ids + [x[i]]) + rest == ids + ([x[i]] + rest);
  }

  lemma AtEnd(ids: seq<int>, x: seq<int>, y: seq<int>, i: nat, j: nat)
    requires i <= |x| && j <= |y| && (i == |x| || j == |y|) && SoFar(ids, x, y, i, j)
    ensures ids == Common(x, y)
  {
  }

  /** A list under construction: distinct nodes holding `ids`, linked in order, and one more node still open. */
  ghost predicate Open(out: seq<Node>, ids: seq<int>)
    reads out
  {
    && |out| == |ids| + 1
    && (forall k, l :: 0 <= k < l < |out| ==> out[k] != out[l])
    && forall k :: 0 <= k < |ids| ==> out[k].docID == ids[k] && out[k].next == out[k + 1]
  }

  /** Fill in the open node and open a new one after it. */
  method Emit(cur: Node, id: int, ghost out: seq<Node>, ghost ids: seq<int>) returns (next: Node)
    requires Open(out, ids) && cur == out[|ids|]
    modifies cur
    ensures fresh(next) && Open(out + [next], ids + [id])
  {
    cur.docID := id;
    next := new Node;
    cur.next := next;
  }

  /** End the list at the open node. */
  method Close(cur: Node, ghost out: seq<Node>, ghost ids: seq<int>)
    requires Open(out, ids) && cur == out[|ids|]
    modifies cur
    ensures Open(out, ids) && cur.next == null
  {
    cur.next := null;
  }

  lemma OpenSize(out: seq<Node>, ids: seq<int>)
    requires Open(out, ids)
    ensures |out| == |ids| + 1
  {
  }

  lemma Begins(first: Node, head: Node?, nodes: seq<Node>, ids: seq<int>)
    requires Holds(head, nodes, ids)
    ensures head == NodeAt(nodes, 0) && Open([first], [])
  {
  }

  lemma HoldsAt(head: Node?, nodes: seq<Node>, ids: seq<int>, i: nat)
    requires Holds(head, nodes, ids) && i <= |nodes|
    ensures |ids| == |nodes|
    ensures i < |nodes| ==> nodes[i].docID == ids[i] && nodes[i].next == NodeAt(nodes, i + 1)
  {
  }

  /**
   The list that starts at `intersected` ends up holding what `Common` says in all its nodes but the
   last; both inputs are untouched, and every node after the first is newly allocated.
   */
  method IntersectPostingLists(intersected: Node, head1: Node?, head2: Node?,
                               ghost a: seq<Node>, ghost x: seq<int>, ghost b: seq<Node>, ghost y: seq<int>)
    returns (ghost out: seq<Node>)
    requires Holds(head1, a, x) && Holds(head2, b, y)
    requires intersected !in a && intersected !in b
    modifies intersected
    ensures Holds(head1, a, x) && Holds(head2, b, y)
    ensures Open(out, Common(x, y)) && out[0] == intersected && out[|out| - 1].next == null
    ensures forall k :: 1 <= k < |out| ==> fresh(out[k])
  {
    hide Common, SoFar, Holds, Open;
    HoldsAt(head1, a, x, 0);
    HoldsAt(head2, b, y, 0);
    assert head1 == NodeAt(a, 0) && head2 == NodeAt(b, 0) && Open([intersected], []) by {
      Begins(intersected, head1, a, x);
      Begins(intersected, head2, b, y);
    }
    OpenSize([intersected], []);
    var cur1, cur2, cur3 := head1, head2, intersected;
    ghost var i, j, ids := 0, 0, [];
    out := [intersected];
    AtStart(x, y);
    while cur1 != null && cur2 != null
      invariant i <= |a| && j <= |b| && cur1 == NodeAt(a, i) && cur2 == NodeAt(b, j)
      invariant Holds(head1, a, x) && Holds(head2, b, y)
      invariant Open(out, ids) && |out| == |ids| + 1 && out[0] == intersected && cur3 == out[|ids|]
      invariant cur3 !in a && cur3 !in b
      invariant forall k :: 1 <= k < |out| ==> fresh(out[k])
      invariant SoFar(ids, x, y, i, j)
      decreases |a| - i + |b| - j
    {
      OneStep(ids, x, y, i, j);
      HoldsAt(head1, a, x, i);
      HoldsAt(head2, b, y, j);
      if cur1.docID == cur2.docID {
        var next := Emit(cur3, cur1.docID, out, ids);
        out, ids := out + [next], ids + [x[i]];
        cur3 := next;
        cur1 := cur1.next;
        cur2 := cur2.next;
        i, j := i + 1, j + 1;
      } else if cur1.docID < cur2.docID {
        cur1 := cur1.next;
        i := i + 1;
      } else {
        cur2 := cur2.next;
        j := j + 1;
      }
    }
    AtEnd(ids, x, y, i, j);
    Close(cur3, out, ids);
  }
}
