/**
 The growable string buffer of idxd/util/strbuf.c and strbuf.h. A buffer that owns no memory points
 at a shared one-byte slop buffer; otherwise it owns `alloc` bytes and keeps a NUL after its `len`
 bytes of content. Memory obtained from the allocator holds `junk`; a request for more than `limit`
 bytes, or a size that overflows, ends the process, which the methods report as `ok == false`.
 */
module Strbuf {
  import opened Prelude


  const SIZE_RANGE: nat := 0x1_0000_0000_0000_0000

  /** The growth policy, on 64-bit sizes. */
  function AllocNr(x: nat): nat { (x + 16) * 3 % SIZE_RANGE / 2 }

  function NewAlloc(alloc: nat, need: nat): (n: nat)
    ensures n >= need
  {
    if AllocNr(alloc) < need then need else AllocNr(alloc)
  }

  /** The growth policy does not wrap. */
  predicate NoWrap(alloc: nat) { (alloc + 16) * 3 < SIZE_RANGE }

  /** Growing multiplies the allocation by at least 3/2, whatever is needed, exactly while the policy does not wrap. */
  lemma GrowsGeometrically(alloc: nat)
    requires alloc < SIZE_RANGE
    ensures (forall need :: need > alloc ==> 2 * NewAlloc(alloc, need) >= 3 * alloc) <==> NoWrap(alloc)
  {
    if !NoWrap(alloc) { WrapsBelow(alloc); }
  }

  lemma WrapsBelow(alloc: nat)
    requires alloc < SIZE_RANGE && !NoWrap(alloc)
    ensures 2 * NewAlloc(alloc, alloc + 1) < 3 * alloc
  {
    var x := (alloc + 16) * 3;
    assert x % SIZE_RANGE <= x - SIZE_RANGE;
  }

  // ----- the cost of growing

  /** The sizes of a buffer, and how many bytes its reallocations have moved. */
  datatype Sizes = Sizes(alloc: nat, len: nat, copied: nat)

  /** One append of `n` bytes. */
  function Appended(z: Sizes, n: nat): Sizes {
    if z.len + n + 1 <= z.alloc then z.(len := z.len + n)
    else Sizes(NewAlloc(z.alloc, z.len + n + 1), z.len + n, z.copied + z.alloc)
  }

  function AppendedAll(z: Sizes, ns: seq<nat>): (r: Sizes)
    ensures r.len >= z.len
    decreases |ns|
  {
    if ns == [] then z else AppendedAll(Appended(z, ns[0]), ns[1..])
  }

  /** The least allocation for which the growth policy wraps. */
  const WRAP: nat := 6148914691236517190

  ghost predicate Amortised(z: Sizes) {
    && z.copied <= 3 * z.len && (z.len < z.alloc || z.alloc == 0)
    && (z.copied <= 2 * z.alloc || z.len == WRAP)
  }

  lemma AppendAmortised(z: Sizes, n: nat)
    requires Amortised(z) && z.len + n <= WRAP
    ensures Amortised(Appended(z, n))
  {
    if z.alloc < z.len + n + 1 && z.alloc < WRAP {
      GrowsGeometrically(z.alloc);
      assert NewAlloc(z.alloc, z.len + n + 1) >= 0;
    }
  }

  /** However the appends are sized and however many there are, up to that length. */
  lemma {:induction false} AppendsAmortised(z: Sizes, ns: seq<nat>)
    requires Amortised(z) && AppendedAll(z, ns).len <= WRAP
    ensures Amortised(AppendedAll(z, ns))
    decreases |ns|
  {
    hide Appended;
    if ns != [] {
      var y := Appended(z, ns[0]);
      assert y.len == z.len + ns[0] by { LengthAdds(z, ns[0]); }
      AppendAmortised(z, ns[0]);
      AppendsAmortised(y, ns[1..]);
    }
  }

  lemma LengthAdds(z: Sizes, n: nat)
    ensures Appended(z, n).len == z.len + n
  {
  }

  /** The sizes of a fresh buffer after these appends. */
  function FreshAfter(ns: seq<nat>): Sizes { AppendedAll(Sizes(0, 0, 0), ns) }

  /** Reallocation has copied at most three times the final length. */
  ghost predicate CopiesThrice(ns: seq<nat>) { FreshAfter(ns).copied <= 3 * FreshAfter(ns).len }

  /** Five appends, the last two of one byte each, past the length where the policy wraps. */
  function Wrapping(): seq<nat> { [2732850973882896437, 1366425486941448325, 2049638230412172427, 1, 1] }

  lemma WrappingCopiesMore()
    ensures FreshAfter(Wrapping()).len == WRAP + 1 && !CopiesThrice(Wrapping())
  {
    hide AppendedAll, Appended, NewAlloc;
    var z0, z1 := Sizes(0, 0, 0), Sizes(2732850973882896438, 2732850973882896437, 0);
    Reallocates(z0, 2732850973882896437);
    var z2 := Sizes(4099276460824344763, 4099276460824344762, 2732850973882896438);
    Reallocates(z1, 1366425486941448325);
    var z3 := Sizes(6148914691236517190, 6148914691236517189, 6832127434707241201);
    Reallocates(z2, 2049638230412172427);
    var z4 := Sizes(6148914691236517191, 6148914691236517190, 12981042125943758391);
    Reallocates(z3, 1);
    Reallocates(z4, 1);
    var n4: seq<nat> := [1] + [];
    var n3 := [1] + n4;
    var n2 := [2049638230412172427] + n3;
    var n1 := [1366425486941448325] + n2;
    AppendNext(z4, 1, []);
    AppendNext(z3, 1, n4);
    AppendNext(z2, 2049638230412172427, n3);
    AppendNext(z1, 1366425486941448325, n2);
    AppendNext(z0, 2732850973882896437, n1);
    assert Wrapping() == [2732850973882896437] + n1;
    NoAppends(Appended(z4, 1));
  }

  lemma Reallocates(z: Sizes, n: nat)
    requires z.len + n + 1 > z.alloc && AllocNr(z.alloc) <= z.len + n + 1
    ensures Appended(z, n) == Sizes(z.len + n + 1, z.len + n, z.copied + z.alloc)
  {
  }

  lemma AppendNext(z: Sizes, n: nat, ns: seq<nat>)
    ensures AppendedAll(z, [n] + ns) == AppendedAll(Appended(z, n), ns)
  {
    assert ([n] + ns)[1..] == ns;
  }

  lemma NoAppends(z: Sizes)
    ensures AppendedAll(z, []) == z
  {
  }

  /**
   From a fresh buffer, however appends are sized, reallocations copy at most three times the final length:
   so for all runs up to a given length exactly when that length does not pass the point where the policy wraps.
   */
  lemma CopiesThriceExactly(most: nat)
    ensures (forall ns :: FreshAfter(ns).len <= most ==> CopiesThrice(ns)) <==> most <= WRAP
  {
    hide AppendedAll;
    if most <= WRAP {
      forall ns | FreshAfter(ns).len <= most ensures CopiesThrice(ns) { AppendsAmortised(Sizes(0, 0, 0), ns); }
    } else {
      WrappingCopiesMore();
    }
  }

  // ----- room

  /** What `strbuf_avail` reports. */
  function Room(alloc: nat, len: nat): nat { if alloc > len then alloc - len - 1 else 0 }

  /** The room is exactly what can be appended to an allocated buffer without reallocating it. */
  lemma RoomExactly(z: Sizes, n: nat)
    requires z.len < z.alloc
    ensures n <= Room(z.alloc, z.len) <==> Appended(z, n) == z.(len := z.len + n)
  {
  }

  /** Room for `extra` more bytes can be had without ending the process. */
  predicate Fits(limit: nat, len: nat, alloc: nat, extra: nat) {
    len + extra + 1 < SIZE_RANGE && (alloc < len + extra + 1 ==> NewAlloc(alloc, len + extra + 1) <= limit)
  }

  /** The allocation after making that room. */
  function Grown(len: nat, alloc: nat, extra: nat): (n: nat)
    ensures n >= alloc && n > len + extra
  {
    if alloc < len + extra + 1 then NewAlloc(alloc, len + extra + 1) else alloc
  }

  /** Is there a NUL after the contents once room was made, if the allocator's memory holds `junk`? */
  predicate NulAfterGrow(alloc: nat, terminated: bool, junk: bv8) { if alloc == 0 then junk == 0 else terminated }

  /** Making room keeps the NUL, whatever the allocator's memory holds, exactly for a buffer already allocated. */
  lemma KeepsNulExactly(alloc: nat, terminated: bool)
    ensures (forall junk :: NulAfterGrow(alloc, terminated, junk)) <==> alloc > 0 && terminated
  {
    if alloc == 0 || !terminated { assert !NulAfterGrow(alloc, terminated, 1); }
  }

  /** `memcpy` of `data` to position `at`. */
  method CopyInto(buf: array<bv8>, at: nat, data: seq<bv8>)
    requires at + |data| <= buf.Length
    modifies buf
    ensures buf[..] == old(buf[..at]) + data + old(buf[at + |data|..])
  {
    var i := 0;
    while i < |data|
      invariant 0 <= i <= |data|
      invariant forall k :: 0 <= k < buf.Length ==>
                  buf[k] == if at <= k < at + i then data[k - at] else old(buf[k])
    {
      buf[at + i] := data[i];
      i := i + 1;
    }
  }

  lemma ClosesUp(was: seq<bv8>, len: nat, pos: nat, n: nat)
    requires pos + n <= len <= |was|
    ensures Moved(was, pos, pos + n, len - pos - n)[..len - n] == was[..len][..pos] + was[..len][pos + n..]
  {
  }

  /**
   What a file descriptor will deliver: chunks in order, or a failure. A read takes at most the room
   it is given and leaves the rest of a larger chunk for the next read; an empty chunk, or none, is
   the end of the file.
   */
  datatype Event = Chunk(data: seq<bv8>) | Failure

  datatype Outcome = Bytes(data: seq<bv8>) | Failed

  /** All the bytes up to the end of the file, unless a read fails first. */
  function Slurp(input: seq<Event>): Outcome {
    if input == [] then Bytes([])
    else match input[0]
      case Failure => Failed
      case Chunk(d) =>
        if d == [] then Bytes([])
        else match Slurp(input[1..])
          case Failed => Failed
          case Bytes(rest) => Bytes(d + rest)
  }

  /** What consecutive chunks hold together. */
  function Together(chunks: seq<seq<bv8>>): seq<bv8> {
    if chunks == [] then [] else chunks[0] + Together(chunks[1..])
  }

  function Chunks(chunks: seq<seq<bv8>>): (r: seq<Event>)
    ensures |r| == |chunks| && forall i :: 0 <= i < |r| ==> r[i] == Chunk(chunks[i])
  {
    seq(|chunks|, i requires 0 <= i < |chunks| => Chunk(chunks[i]))
  }

  /**
   Chunks are joined up to the first that is empty, or to the end; a failure met before that loses them all.
   Whatever comes after is not read.
   */
  lemma {:induction false} SlurpMeans(chunks: seq<seq<bv8>>, post: seq<Event>)
    requires forall i :: 0 <= i < |chunks| ==> chunks[i] != []
    ensures Slurp(Chunks(chunks)) == Bytes(Together(chunks))
    ensures Slurp(Chunks(chunks) + ([Chunk([])] + post)) == Bytes(Together(chunks))
    ensures Slurp(Chunks(chunks) + ([Failure] + post)) == Failed
  {
    var end, fail := [Chunk([])] + post, [Failure] + post;
    if chunks == [] {
      assert Chunks(chunks) + end == end && Chunks(chunks) + fail == fail;
    } else {
      SlurpMeans(chunks[1..], post);
      var later := Chunks(chunks[1..]);
      assert Chunks(chunks) == [Chunk(chunks[0])] + later;
      assert Chunks(chunks) + end == [Chunk(chunks[0])] + (later + end);
      assert Chunks(chunks) + fail == [Chunk(chunks[0])] + (later + fail);
      SlurpCons(chunks[0], later);
      SlurpCons(chunks[0], later + end);
      SlurpCons(chunks[0], later + fail);
    }
  }

  /** How much a read of at most `room` bytes takes from a chunk, and what it leaves for later. */
  function Count(d: seq<bv8>, room: nat): (n: nat)
    ensures n <= |d| && n <= room
  {
    if |d| <= room then |d| else room
  }

  function AfterRead(d: seq<bv8>, later: seq<Event>, room: nat): seq<Event> {
    if |d| <= room then later else [Chunk(d[room..])] + later
  }

  function Pending(input: seq<Event>): nat {
    if input == [] then 0 else 1 + (if input[0].Chunk? then |input[0].data| else 0) + Pending(input[1..])
  }

  /** Bytes already read, followed by what is still to come. */
  function Joined(got: seq<bv8>, rest: Outcome): Outcome {
    match rest
    case Failed => Failed
    case Bytes(d) => Bytes(got + d)
  }

  lemma SlurpCons(d: seq<bv8>, rest: seq<Event>)
    requires d != []
    ensures Slurp([Chunk(d)] + rest) == Joined(d, Slurp(rest))
    ensures Pending([Chunk(d)] + rest) == 1 + |d| + Pending(rest)
  {
    assert ([Chunk(d)] + rest)[1..] == rest;
  }

  lemma JoinedTwice(a: seq<bv8>, b: seq<bv8>, rest: Outcome)
    ensures Joined(a, Joined(b, rest)) == Joined(a + b, rest)
  {
    if rest.Bytes? { assert a + (b + rest.data) == (a + b) + rest.data; }
  }

  lemma ReadSome(d: seq<bv8>, later: seq<Event>, room: nat)
    requires d != [] && room >= 1
    ensures Pending(AfterRead(d, later, room)) < Pending([Chunk(d)] + later)
    ensures Slurp([Chunk(d)] + later) == Joined(d[..Count(d, room)], Slurp(AfterRead(d, later, room)))
  {
    hide Slurp, Pending, Joined;
    SlurpCons(d, later);
    if |d| <= room {
      assert d[..|d|] == d;
    } else {
      SlurpCons(d[room..], later);
      JoinedTwice(d[..room], d[room..], Slurp(later));
      assert d == d[..room] + d[room..];
    }
  }

  /** How much a read asks for at a time. */
  const CHUNK: nat := 8192

  /** Can the read loop run to its end, from this allocation and length? */
  predicate Absorbs(limit: nat, alloc: nat, len: nat, input: seq<Event>)
    requires alloc > len + 1
    decreases Pending(input)
  {
    if input == [] || input[0].Failure? || input[0].data == [] then true
    else
      var d, later, room := input[0].data, input[1..], Room(alloc, len);
      var more := len + Count(d, room);
      assert input == [Chunk(d)] + later;
      ReadSome(d, later, room);
      Fits(limit, more, alloc, CHUNK) && Absorbs(limit, Grown(more, alloc, CHUNK), more, AfterRead(d, later, room))
  }

  lemma AbsorbsNext(limit: nat, alloc: nat, len: nat, input: seq<Event>)
    requires alloc > len + 1
    ensures input == [] || input[0].Failure? || input[0].data == [] ==> Absorbs(limit, alloc, len, input)
    ensures input != [] && input[0].Chunk? && input[0].data != [] ==>
              var d, room := input[0].data, Room(alloc, len);
              var more := len + Count(d, room);
              Absorbs(limit, alloc, len, input) ==
              (Fits(limit, more, alloc, CHUNK) && Absorbs(limit, Grown(more, alloc, CHUNK), more, AfterRead(d, input[1..], room)))
  {
  }

  /** Can the whole of `Read` be done? */
  predicate ReadFits(limit: nat, alloc: nat, len: nat, events: seq<Event>, hint: nat) {
    var h := if hint != 0 then hint else CHUNK;
    Fits(limit, len, alloc, h) && Absorbs(limit, Grown(len, alloc, h), len, events)
  }

  /** The bytes delivered before the end of the file or a failure. */
  function Delivered(input: seq<Event>): nat {
    if input == [] || input[0].Failure? || input[0].data == [] then 0 else |input[0].data| + Delivered(input[1..])
  }

  lemma DeliveredRest(d: seq<bv8>, later: seq<Event>, room: nat)
    requires d != []
    ensures Delivered([Chunk(d)] + later) == Count(d, room) + Delivered(AfterRead(d, later, room))
  {
    assert ([Chunk(d)] + later)[1..] == later;
    if |d| > room { assert ([Chunk(d[room..])] + later)[1..] == later; }
  }

  predicate Ample(limit: nat, size: nat) { 3 * (size + 1) + 48 <= 2 * limit && limit < SIZE_RANGE }

  lemma AmpleFits(limit: nat, len: nat, alloc: nat, extra: nat)
    requires Ample(limit, len + extra)
    ensures Fits(limit, len, alloc, extra)
  {
  }

  lemma {:induction false} AmpleAbsorbs(limit: nat, alloc: nat, len: nat, input: seq<Event>)
    requires alloc > len + 1 && Ample(limit, len + Delivered(input) + CHUNK)
    ensures Absorbs(limit, alloc, len, input)
    decreases Pending(input)
  {
    hide Absorbs, Fits, Grown, Pending, AfterRead, Slurp, Delivered;
    AbsorbsNext(limit, alloc, len, input);
    if input != [] && input[0].Chunk? && input[0].data != [] {
      var d, later, room := input[0].data, input[1..], Room(alloc, len);
      assert input == [Chunk(d)] + later;
      var more := len + Count(d, room);
      ReadSome(d, later, room);
      DeliveredRest(d, later, room);
      AmpleFits(limit, more, alloc, CHUNK);
      AmpleAbsorbs(limit, Grown(more, alloc, CHUNK), more, AfterRead(d, later, room));
    }
  }

  /**
   A limit of about half as much again as the old contents, the bytes delivered and one request for more is enough,
   however the bytes are chunked.
   */
  lemma AmpleRead(limit: nat, alloc: nat, len: nat, events: seq<Event>, hint: nat)
    requires Ample(limit, len + Delivered(events) + if hint > CHUNK then hint else CHUNK)
    ensures ReadFits(limit, alloc, len, events, hint)
  {
    hide Absorbs, Fits, Grown, Delivered;
    var h := if hint != 0 then hint else CHUNK;
    AmpleFits(limit, len, alloc, h);
    AmpleAbsorbs(limit, Grown(len, alloc, h), len, events);
  }

  class Buffer {
    const slop: array<bv8>
    const limit: nat
    var alloc: nat
    var len: nat
    var buf: array<bv8>
    /** Bytes moved by reallocations so far. */
    ghost var copied: nat

    ghost predicate Valid()
      reads this, slop, buf
    {
      && slop.Length == 1 && slop[0] == 0
      && limit < SIZE_RANGE
      && (alloc == 0 ==> len == 0 && buf == slop)
      && (alloc > 0 ==> buf != slop && buf.Length == alloc && len < alloc <= limit)
    }

    /** The content is followed by a NUL, so the buffer is also a C string. */
    ghost predicate Terminated()
      reads this, buf
    {
      len < buf.Length && buf[len] == 0
    }

    ghost function Contents(): (s: seq<bv8>)
      requires Valid()
      reads this, slop, buf
    {
      buf[..len]
    }

    /** The memory a call may write: what the buffer owns, never the slop buffer. */
    ghost function Owned(): (s: set<object>)
      reads this
    {
      if alloc == 0 then {} else {buf}
    }

    constructor (slop: array<bv8>, limit: nat)
      requires slop.Length == 1 && slop[0] == 0 && limit < SIZE_RANGE
      ensures Valid() && Terminated() && Contents() == [] && alloc == 0 && copied == 0
      ensures this.slop == slop && this.limit == limit
    {
      this.slop := slop;
      this.limit := limit;
      alloc, len, buf := 0, 0, slop;
      copied := 0;
    }

    function Avail(): (n: nat)
      requires Valid()
      reads this, slop, buf
      ensures alloc > 0 ==> len + n + 1 == alloc
    {
      Room(alloc, len)
    }

    /**
     Make room for `extra` more bytes and a NUL. The content stays; a buffer that owned nothing is
     left with whatever the allocator put in it, so it is a C string exactly if that starts with NUL.
     */
    method Grow(extra: nat, junk: bv8) returns (ok: bool)
      requires Valid()
      modifies this, Owned()
      ensures ok <==> Fits(limit, old(len), old(alloc), extra)
      ensures !ok ==> unchanged(this) && unchanged(old(Owned()))
      ensures ok ==> Valid() && alloc > 0 && len == old(len) && Avail() >= extra && Contents() == old(Contents())
      ensures ok && buf != old(buf) ==> fresh(buf)
      ensures ok ==> (Terminated() <==> NulAfterGrow(old(alloc), old(Terminated()), junk))
      ensures ok ==> copied == old(copied) + (if old(alloc) < len + extra + 1 then old(alloc) else 0)
      ensures ok ==> alloc == Grown(len, old(alloc), extra)
      ensures ok && alloc == old(alloc) ==> buf == old(buf)
    {
      if len + extra + 1 >= SIZE_RANGE {
        return false;
      }
      var need := len + extra + 1;
      if need > alloc {
        var size := NewAlloc(alloc, need);
        if size > limit {
          return false;
        }
        var moved := new bv8[size](_ => junk);
        if alloc > 0 {
          CopyInto(moved, 0, buf[..]);
          assert moved[..][..len] == buf[..len] && moved[..][len] == buf[len];
        }
        copied := copied + alloc;
        buf, alloc := moved, size;
      }
      return true;
    }

    /** `strbuf_setlen`; its assertion failing is a failure too. */
    method SetLen(n: nat, junk: bv8) returns (ok: bool)
      requires Valid()
      modifies this, Owned()
      ensures ok <==> (old(alloc) > 0 || Fits(limit, old(len), 0, 0)) && n < if old(alloc) == 0 then NewAlloc(0, 1) else old(alloc)
      ensures ok ==> Valid() && alloc > 0 && Terminated() && len == n && copied == old(copied)
      ensures ok && old(alloc) > 0 ==> buf == old(buf) && alloc == old(alloc) && Contents() == old(buf[..n])
      ensures ok && old(alloc) == 0 ==> fresh(buf)
    {
      if alloc == 0 {
        ok := Grow(0, junk);
        if !ok {
          return;
        }
      }
      if n >= alloc {
        return false;
      }
      len := n;
      buf[n] := 0;
      return true;
    }

    ghost function Measure(): Sizes
      reads this
    {
      Sizes(alloc, len, copied)
    }

    method Add(data: seq<bv8>, junk: bv8) returns (ok: bool)
      requires Valid()
      modifies this, Owned()
      ensures ok <==> Fits(limit, old(len), old(alloc), |data|)
      ensures ok ==> Valid() && Terminated() && Contents() == old(Contents()) + data
      ensures ok ==> buf == old(buf) || fresh(buf)
      ensures ok ==> Measure() == Appended(old(Measure()), |data|)
    {
      ok := Grow(|data|, junk);
      if !ok {
        return;
      }
      ghost var before := buf[..];
      CopyInto(buf, len, data);
      assert buf[..][..len + |data|] == before[..len] + data;
      ok := SetLen(len + |data|, junk);
    }

    method AddCh(c: bv8, junk: bv8) returns (ok: bool)
      requires Valid()
      modifies this, Owned()
      ensures ok <==> Fits(limit, old(len), old(alloc), 1)
      ensures ok ==> Valid() && Terminated() && Contents() == old(Contents()) + [c]
      ensures ok ==> buf == old(buf) || fresh(buf)
      ensures ok ==> Measure() == Appended(old(Measure()), 1)
    {
      ok := Grow(1, junk);
      if !ok {
        return;
      }
      buf[len] := c;
      len := len + 1;
      buf[len] := 0;
    }

    /** Remove `n` bytes at `pos`; a range outside the content ends the process. */
    method Remove(pos: nat, n: nat, junk: bv8) returns (ok: bool)
      requires Valid()
      modifies this, Owned()
      ensures ok <==> pos + n <= old(len) && (n > 0 || Fits(limit, old(len), old(alloc), 0))
      ensures ok ==> Valid() && Terminated() && Contents() == old(Contents())[..pos] + old(Contents())[pos + n..]
    {
      hide Moved;
      if pos + n >= SIZE_RANGE || pos > len || pos + n > len {
        return false;
      }
      if n == 0 {
        ok := Grow(0, junk);
        if !ok {
          return;
        }
      }
      ghost var was, content := buf[..], Contents();
      MoveDown(buf, pos, pos + n, len - pos - n);
      ClosesUp(was, len, pos, n);
      assert buf[..][..len - n] == content[..pos] + content[pos + n..];
      ok := SetLen(len - n, junk);
    }

    method Release()
      requires Valid()
      modifies this
      ensures Valid() && Terminated() && Contents() == [] && alloc == 0
    {
      if alloc > 0 {
        alloc, len, buf := 0, 0, slop;
      }
    }

    /** Hand the memory over and start afresh; a buffer that owns nothing hands over nothing. */
    method Detach() returns (res: array?<bv8>, size: nat)
      requires Valid()
      modifies this
      ensures size == old(len) && (res == null <==> old(alloc) == 0)
      ensures res != null ==> res == old(buf) && size < res.Length && res[..size] == old(Contents())
      ensures Valid() && Terminated() && Contents() == [] && alloc == 0 && res != buf
    {
      res := if alloc > 0 then buf else null;
      size := len;
      alloc, len, buf := 0, 0, slop;
    }

    /** One round of `Read`: bytes land in the free room, which is then topped up; no NUL is written. */
    method Absorb(data: seq<bv8>, junk: bv8) returns (ok: bool)
      requires Valid() && alloc > 0 && |data| <= Avail()
      modifies this, Owned()
      ensures ok <==> Fits(limit, old(len) + |data|, old(alloc), CHUNK)
      ensures ok ==> alloc == Grown(len, old(alloc), CHUNK)
      ensures ok ==> Valid() && alloc > 0 && Avail() >= 1 && Contents() == old(Contents()) + data
      ensures ok ==> len == old(len) + |data| && (buf == old(buf) || fresh(buf))
    {
      ghost var whole := Contents();
      CopyInto(buf, len, data);
      assert buf[..][..len + |data|] == whole + data;
      len := len + |data|;
      ok := Grow(CHUNK, junk);
    }

    /** The read loop, up to the end of the file or the first failure. */
    method ReadLoop(events: seq<Event>, junk: bv8) returns (ok: bool, failed: bool)
      requires Valid() && alloc > 0 && Avail() >= 1
      modifies this, Owned()
      ensures ok ==> Valid() && alloc > 0 && old(Contents()) <= Contents() && (buf == old(buf) || fresh(buf))
      ensures ok <==> Absorbs(limit, old(alloc), old(len), events)
      ensures ok ==> failed == Slurp(events).Failed?
      ensures ok && !failed ==> Contents() == old(Contents()) + Slurp(events).data
      ensures ok && !failed ==> if len == old(len) then alloc == old(alloc) else Avail() >= CHUNK
    {
      hide Slurp, Pending, AfterRead, Joined, Absorbs, Fits, Grown;
      ok, failed := true, false;
      var input := events;
      ghost var got: seq<bv8> := [];
      NothingRead(events);
      while true
        invariant Valid() && alloc > 0 && Avail() >= 1
        invariant buf == old(buf) || fresh(buf)
        invariant Contents() == old(Contents()) + got && len == old(len) + |got|
        invariant if got == [] then alloc == old(alloc) else Avail() >= CHUNK
        invariant Slurp(events) == Joined(got, Slurp(input))
        invariant Absorbs(limit, old(alloc), old(len), events) == Absorbs(limit, alloc, len, input)
        decreases Pending(input)
      {
        EndOfInput(input, got);
        AbsorbsNext(limit, alloc, len, input);
        if input != [] && input[0].Failure? {
          return true, true;
        }
        if input == [] || input[0].data == [] {
          return true, false;
        }
        var d, later, room := input[0].data, input[1..], alloc - len - 1;
        assert input == [Chunk(d)] + later;
        var cnt := Count(d, room);
        ReadSome(d, later, room);
        JoinedTwice(got, d[..cnt], Slurp(AfterRead(d, later, room)));
        assert old(Contents()) + got + d[..cnt] == old(Contents()) + (got + d[..cnt]);
        got := got + d[..cnt];
        input := AfterRead(d, later, room);
        ok := Absorb(d[..cnt], junk);
        if !ok {
          return;
        }
      }
    }

    /**
     Append everything the descriptor delivers. A failed read gives back the old content, whatever
     was read before the failure; a success appends all of it and reports its length.
     */
    method Read(events: seq<Event>, hint: nat, junk: bv8) returns (ok: bool, n: int)
      requires Valid()
      modifies this, Owned()
      ensures ok <==> ReadFits(limit, old(alloc), old(len), events, hint)
      ensures ok ==> Valid() && Terminated()
      ensures ok && Slurp(events).Failed? ==> n == -1 && Contents() == old(Contents())
      ensures ok && Slurp(events).Bytes? ==>
                n == |Slurp(events).data| && Contents() == old(Contents()) + Slurp(events).data
      ensures ok && Slurp(events).Failed? && old(alloc) == 0 ==> alloc == 0
      ensures ok && Slurp(events).Bytes? ==> Avail() >= if n > 0 || hint == 0 then CHUNK else hint
    {
      hide Absorbs, Slurp;
      n := 0;
      var oldLen, oldAlloc, failed := len, alloc, false;
      ok := Grow(if hint != 0 then hint else CHUNK, junk);
      if !ok {
        return;
      }
      ok, failed := ReadLoop(events, junk);
      if !ok {
        return;
      }
      if failed {
        if oldAlloc == 0 {
          Release();
        } else {
          ok := SetLen(oldLen, junk);
        }
        n := -1;
      } else {
        buf[len] := 0;
        n := len - oldLen;
      }
    }
  }

  lemma NothingRead(events: seq<Event>)
    ensures Slurp(events) == Joined([], Slurp(events))
  {
  }

  lemma EndOfInput(input: seq<Event>, got: seq<bv8>)
    ensures input != [] && input[0].Failure? ==> Joined(got, Slurp(input)) == Failed
    ensures input == [] || (input[0].Chunk? && input[0].data == []) ==> Joined(got, Slurp(input)) == Bytes(got)
  {
  }

  /** A new buffer that is asked for room, from an allocator whose memory is not clear, is no longer a C string. */
  method GrowFresh(slop: array<bv8>, limit: nat) returns (b: Buffer)
    requires slop.Length == 1 && slop[0] == 0 && 24 <= limit < SIZE_RANGE
    ensures b.Valid() && b.Contents() == [] && !b.Terminated()
  {
    b := new Buffer(slop, limit);
    var ok := b.Grow(0, 1);
  }
}
