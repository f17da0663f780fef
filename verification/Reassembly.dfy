/**
 The receiver's list surgery as the code performs it: index loops over entries that carry
 32-bit sequence numbers, proved to compute the position-level functions of `OutOfOrder`.
 */
module Reassembly {
  import opened Bytes
  import opened SeqNum
  import opened OutOfOrder

  datatype OooSegment = OooSegment(sn: u32, data: seq<byte>)

  /** A chunk as it is stored: its position offset by `base` and wrapped. */
  ghost function Stored(base: int, c: Chunk): OooSegment {
    OooSegment(Wrap(base + c.pos), c.data)
  }

  ghost function Wire(base: int, g: seq<Chunk>): (w: seq<OooSegment>)
    ensures |w| == |g|
  {
    seq(|g|, i requires 0 <= i < |g| => Stored(base, g[i]))
  }

  /** All starts and ends of `g` lie in a span of less than half the sequence space. */
  ghost predicate Span(g: seq<Chunk>, lo: int) {
    forall i :: 0 <= i < |g| ==> lo < g[i].pos && g[i].End() < lo + TWO_31
  }

  /** `seq + uint32(len(data))` is the wrapped end. */
  lemma EndAgrees(base: int, c: Chunk)
    ensures Add(Wrap(base + c.pos), |c.data|) == Wrap(base + c.End())
  {
    WrapDistributes(base + c.pos, |c.data|);
  }

  /** Whether some stored entry covers `[sn, end)`: the duplicate scan of `insertOOO`. */
  method IsCovered(ooo: seq<OooSegment>, sn: u32, end: u32,
                   ghost base: int, ghost g: seq<Chunk>, ghost c: Chunk, ghost lo: int) returns (dup: bool)
    requires ooo == Wire(base, g) && Span(g, lo) && Span([c], lo)
    requires sn == Wrap(base + c.pos) && end == Wrap(base + c.End())
    ensures dup <==> Covered(g, c)
  {
    var k := 0;
    while k < |ooo|
      invariant 0 <= k <= |ooo|
      invariant forall i :: 0 <= i < k ==> !(g[i].pos <= c.pos && c.End() <= g[i].End())
    {
      var entry := ooo[k];
      var entryEnd := Add(entry.sn, |entry.data|);
      assert lo < [c][0].pos;
      EndAgrees(base, g[k]);
      OrderAgrees(base + c.pos, base + g[k].pos);
      OrderAgrees(base + c.End(), base + g[k].End());
      if !SeqLessThan(sn, entry.sn) && !SeqGreaterThan(end, entryEnd) {
        return true;
      }
      k := k + 1;
    }
    dup := false;
  }

  /** The insertion point: the first entry that does not start before `sn`. */
  method FindSlot(ooo: seq<OooSegment>, sn: u32,
                  ghost base: int, ghost g: seq<Chunk>, ghost p: int, ghost lo: int) returns (i: nat)
    requires ooo == Wire(base, g) && Span(g, lo) && lo < p < lo + TWO_31
    requires sn == Wrap(base + p)
    requires Separated(g)
    ensures i == Rank(g, p)
    ensures i < |ooo| ==> (ooo[i].sn == sn <==> g[i].pos == p)
  {
    i := 0;
    while i < |ooo| && SeqLessThan(ooo[i].sn, sn)
      invariant 0 <= i <= |ooo|
      invariant forall k :: 0 <= k < i ==> g[k].pos < p
    {
      OrderAgrees(base + g[i].pos, base + p);
      i := i + 1;
    }
    if i < |ooo| {
      OrderAgrees(base + g[i].pos, base + p);
    }
  }

  /** `cur` overlaps or touches the entry `next` that follows it. */
  predicate Reaches(cur: OooSegment, next: OooSegment) {
    !SeqLessThan(Add(cur.sn, |cur.data|), next.sn)
  }

  /** Appends to `cur` what `next` has beyond its end. */
  function Extend(cur: OooSegment, next: OooSegment): OooSegment
    requires InRange(cur, next)
  {
    var curEnd := Add(cur.sn, |cur.data|);
    if SeqGreaterThan(Add(next.sn, |next.data|), curEnd) then
      OooSegment(cur.sn, cur.data + next.data[Sub(curEnd, next.sn)..])
    else
      cur
  }

  /** The slice that extends `cur` is in bounds. */
  predicate InRange(cur: OooSegment, next: OooSegment) {
    var curEnd := Add(cur.sn, |cur.data|);
    SeqGreaterThan(Add(next.sn, |next.data|), curEnd) ==> Sub(curEnd, next.sn) <= |next.data|
  }

  lemma ExtendAgrees(base: int, a: Chunk, b: Chunk, s: seq<byte>, lo: int, hi: int)
    requires hi < lo + TWO_31 && Cut(a, s, lo, hi) && Cut(b, s, lo, hi)
    ensures Reaches(Stored(base, a), Stored(base, b)) <==> b.pos <= a.End()
    ensures a.pos <= b.pos <= a.End() ==>
              && InRange(Stored(base, a), Stored(base, b))
              && Extend(Stored(base, a), Stored(base, b)) == Stored(base, Join(a, b))
  {
    EndAgrees(base, a);
    EndAgrees(base, b);
    OrderAgrees(base + a.End(), base + b.pos);
    OrderAgrees(base + b.End(), base + a.End());
  }

  lemma SwallowStep(base: int, g: seq<Chunk>, i: nat, s: seq<byte>, lo: int, hi: int)
    requires Pending(g, i) && AllCut(g, s, lo, hi)
    requires i + 1 < |g| && g[i + 1].pos <= g[i].End()
    ensures Pending(Swallow(g, i), i) && AllCut(Swallow(g, i), s, lo, hi)
    ensures Wire(base, Swallow(g, i))
         == Wire(base, g)[..i] + [Stored(base, Join(g[i], g[i + 1]))] + Wire(base, g)[i + 2..]
  {
    SwallowPending(g, i);
    SwallowCut(g, i, s, lo, hi);
  }

  /** Absorbs the entries after `i` that entry `i` overlaps or touches. */
  method MergeForward(ooo: seq<OooSegment>, i: nat,
                      ghost base: int, ghost g: seq<Chunk>, ghost s: seq<byte>, ghost lo: int, ghost hi: int)
    returns (out: seq<OooSegment>)
    requires ooo == Wire(base, g) && hi < lo + TWO_31
    requires Pending(g, i) && AllCut(g, s, lo, hi)
    ensures out == Wire(base, Absorb(g, i))
  {
    out := ooo;
    ghost var h := g;
    while i + 1 < |out|
      invariant out == Wire(base, h) && Pending(h, i) && AllCut(h, s, lo, hi)
      invariant Absorb(h, i) == Absorb(g, i)
      decreases |out|
    {
      ExtendAgrees(base, h[i], h[i + 1], s, lo, hi);
      if !Reaches(out[i], out[i + 1]) {
        break;
      }
      SwallowStep(base, h, i, s, lo, hi);
      out := out[..i] + [Extend(out[i], out[i + 1])] + out[i + 2..];
      h := Swallow(h, i);
    }
  }

  /** The preconditions under which a chunk is offered to the out-of-order list. */
  ghost predicate Offered(base: int, g: seq<Chunk>, c: Chunk, s: seq<byte>, lo: int, hi: int) {
    hi < lo + TWO_31 && Separated(g) && AllCut(g, s, lo, hi) && Cut(c, s, lo, hi)
  }

  lemma WireUpdate(base: int, g: seq<Chunk>, i: nat, c: Chunk)
    requires i < |g|
    ensures Wire(base, g[i := c]) == Wire(base, g)[i := Stored(base, c)]
  {
  }

  lemma WireInsert(base: int, g: seq<Chunk>, i: nat, c: Chunk)
    requires i <= |g|
    ensures Wire(base, g[..i] + [c] + g[i..]) == Wire(base, g)[..i] + [Stored(base, c)] + Wire(base, g)[i..]
  {
  }

  lemma OfferedSpan(base: int, g: seq<Chunk>, c: Chunk, s: seq<byte>, lo: int, hi: int)
    requires Offered(base, g, c, s, lo, hi)
    ensures Separated(g) && Span(g, lo) && lo < c.pos < lo + TWO_31
  {
    hide Separated;
  }

  /** How the new entry meets the stored one before it. */
  lemma PredecessorAgrees(base: int, g: seq<Chunk>, c: Chunk, s: seq<byte>, lo: int, hi: int, i: nat)
    requires Offered(base, g, c, s, lo, hi) && i < |g| && g[i].pos <= c.pos
    ensures Reaches(Wire(base, g)[i], Stored(base, c)) <==> c.pos <= g[i].End()
    ensures c.pos <= g[i].End() ==>
              && InRange(Wire(base, g)[i], Stored(base, c))
              && Extend(Wire(base, g)[i], Stored(base, c)) == Stored(base, Join(g[i], c))
  {
    hide Separated, Reaches, InRange, Extend, Join;
    ExtendAgrees(base, g[i], c, s, lo, hi);
  }

  /** Stores the new entry, merged into the predecessor it overlaps or touches. */
  method PlaceEntry(ooo: seq<OooSegment>, sn: u32, data: seq<byte>,
                    ghost base: int, ghost g: seq<Chunk>, ghost c: Chunk, ghost s: seq<byte>, ghost lo: int, ghost hi: int)
    returns (out: seq<OooSegment>, i: nat)
    requires Offered(base, g, c, s, lo, hi)
    requires ooo == Wire(base, g) && OooSegment(sn, data) == Stored(base, c)
    ensures i == Place(g, c).1 && out == Wire(base, Place(g, c).0)
  {
    hide Wrap, Add, Sub, SeqLessThan, SeqGreaterThan, Extend, Reaches, InRange, Join, Wire, Offered, Separated, Span;
    OfferedSpan(base, g, c, s, lo, hi);
    i := FindSlot(ooo, sn, base, g, c.pos, lo);
    if i > 0 {
      PredecessorAgrees(base, g, c, s, lo, hi, i - 1);
      if Reaches(ooo[i - 1], OooSegment(sn, data)) {
        i := i - 1;
        WireUpdate(base, g, i, Join(g[i], c));
        out := ooo[i := Extend(ooo[i], OooSegment(sn, data))];
        return;
      }
    }
    if i < |ooo| && ooo[i].sn == sn {
      WireUpdate(base, g, i, c);
      out := ooo[i := OooSegment(sn, data)];
    } else {
      WireInsert(base, g, i, c);
      out := ooo[..i] + [OooSegment(sn, data)] + ooo[i..];
    }
  }

  /** `insertOOO`: the new list, or the report that the segment is a duplicate. */
  method InsertEntry(ooo: seq<OooSegment>, sn: u32, data: seq<byte>,
                     ghost base: int, ghost g: seq<Chunk>, ghost c: Chunk, ghost s: seq<byte>, ghost lo: int, ghost hi: int)
    returns (out: seq<OooSegment>, dup: bool)
    requires Offered(base, g, c, s, lo, hi)
    requires ooo == Wire(base, g) && OooSegment(sn, data) == Stored(base, c)
    ensures dup <==> Covered(g, c)
    ensures dup ==> out == ooo
    ensures !dup ==> Pending(Place(g, c).0, Place(g, c).1) && out == Wire(base, Insert(g, c))
  {
    EndAgrees(base, c);
    dup := IsCovered(ooo, sn, Add(sn, |data|), base, g, c, lo);
    if dup {
      return ooo, true;
    }
    var i;
    out, i := PlaceEntry(ooo, sn, data, base, g, c, s, lo, hi);
    PlacePending(g, c);
    PlaceCut(g, c, s, lo, hi);
    out := MergeForward(out, i, base, Place(g, c).0, s, lo, hi);
  }
}
