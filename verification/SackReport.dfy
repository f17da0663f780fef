/**
 The SACK blocks a receiver reports (section 4 of RFC 2018, section 4 of RFC 2883). The code
 coalesces the out-of-order list with plain unsigned comparisons; this module says what that
 reports when the list crosses the 2^32 boundary.
 */
module SackReport {
  import opened Bytes
  import opened SeqNum
  import opened OutOfOrder
  import opened Reassembly
  import opened TcpReceiver
  import opened Ring

  /** The range of one stored entry. */
  function BlockOf(e: OooSegment): SackBlock {
    SackBlock(e.sn, Add(e.sn, |e.data|))
  }

  /** The ranges the loop builds from `cur` and the entries that follow it. */
  function RangesFrom(cur: SackBlock, rest: seq<OooSegment>): (r: seq<SackBlock>)
    ensures r != []
    decreases |rest|
  {
    if rest == [] then [cur]
    else
      var b := BlockOf(rest[0]);
      if b.start <= cur.end then
        RangesFrom(if b.end > cur.end then SackBlock(cur.start, b.end) else cur, rest[1..])
      else
        [cur] + RangesFrom(b, rest[1..])
  }

  /** The coalescing loop. */
  method Coalesce(ooo: seq<OooSegment>) returns (ranges: seq<SackBlock>)
    requires ooo != []
    ensures ranges == RangesFrom(BlockOf(ooo[0]), ooo[1..])
  {
    hide Add;
    ranges := [];
    var cur := BlockOf(ooo[0]);
    for j := 1 to |ooo|
      invariant ranges + RangesFrom(cur, ooo[j..]) == RangesFrom(BlockOf(ooo[0]), ooo[1..])
    {
      var b := BlockOf(ooo[j]);
      RangesStep(ranges, cur, ooo, j);
      if b.start <= cur.end {
        if b.end > cur.end {
          cur := SackBlock(cur.start, b.end);
        }
      } else {
        ranges := ranges + [cur];
        cur := b;
      }
    }
    ranges := ranges + [cur];
  }

  lemma RangesStep(ranges: seq<SackBlock>, cur: SackBlock, ooo: seq<OooSegment>, j: nat)
    requires j < |ooo|
    ensures var b := BlockOf(ooo[j]);
            ranges + RangesFrom(cur, ooo[j..]) ==
            if b.start > cur.end then (ranges + [cur]) + RangesFrom(b, ooo[j + 1..])
            else ranges + RangesFrom(if b.end > cur.end then SackBlock(cur.start, b.end) else cur, ooo[j + 1..])
  {
    hide Add;
    assert ooo[j..][1..] == ooo[j + 1..];
  }

  /** The wrap count of a position. */
  function Epoch(base: int, p: int): int {
    (base + p) / TWO_32
  }

  lemma EpochOrder(base: int, p: int, q: int)
    requires p < q < p + TWO_31
    ensures Epoch(base, p) <= Epoch(base, q) <= Epoch(base, p) + 1
    ensures Epoch(base, p) == Epoch(base, q) ==> Wrap(base + p) < Wrap(base + q)
    ensures Epoch(base, p) != Epoch(base, q) ==> Wrap(base + q) < TWO_31 <= Wrap(base + p)
  {
  }

  /** No 2^32 boundary falls into a gap between two entries. */
  ghost predicate NoGapWraps(base: int, g: seq<Chunk>) {
    forall i :: 0 < i < |g| ==> Epoch(base, g[i - 1].End()) == Epoch(base, g[i].pos)
  }

  /** The entries up to the first gap that holds a 2^32 boundary. */
  ghost function Visible(base: int, g: seq<Chunk>): (v: seq<Chunk>)
    requires g != []
    ensures v <= g && v != []
  {
    if |g| == 1 || Epoch(base, g[0].End()) != Epoch(base, g[1].pos) then [g[0]]
    else [g[0]] + Visible(base, g[1..])
  }

  ghost function Blocks(base: int, g: seq<Chunk>): (b: seq<SackBlock>)
    ensures |b| == |g|
  {
    seq(|g|, i requires 0 <= i < |g| => SackBlock(Wrap(base + g[i].pos), Wrap(base + g[i].End())))
  }

  lemma {:induction false} SkipsHidden(cur: SackBlock, rest: seq<OooSegment>)
    requires TWO_31 <= cur.end
    requires forall i :: 0 <= i < |rest| ==> BlockOf(rest[i]).start < TWO_31 && BlockOf(rest[i]).end < TWO_31
    ensures RangesFrom(cur, rest) == [cur]
    decreases |rest|
  {
    hide Add;
    if rest != [] {
      SkipsHidden(cur, rest[1..]);
    }
  }

  /** Beyond a gap that holds a 2^32 boundary, the comparisons swallow every entry. */
  lemma HiddenTail(base: int, g: seq<Chunk>, s: seq<byte>, lo: int, hi: int)
    requires |g| > 1 && Separated(g) && AllCut(g, s, lo, hi) && hi < lo + TWO_31
    requires Epoch(base, g[0].End()) != Epoch(base, g[1].pos)
    ensures RangesFrom(BlockOf(Stored(base, g[0])), Wire(base, g[1..])) == [BlockOf(Stored(base, g[0]))]
  {
    hide Wrap, Add, Epoch, RangesFrom;
    EndAgrees(base, g[0]);
    EpochOrder(base, g[0].End(), g[1].pos);
    forall i | 1 <= i < |g|
      ensures BlockOf(Stored(base, g[i])).start < TWO_31 && BlockOf(Stored(base, g[i])).end < TWO_31
    {
      EndAgrees(base, g[i]);
      assert Cut(g[i], s, lo, hi) && Cut(g[0], s, lo, hi);
      assert g[1].pos <= g[i].pos by { assert i > 1 ==> g[1].End() < g[i].pos; }
      BeyondWrap(base, g[0].End(), g[1].pos, g[i].pos);
      BeyondWrap(base, g[0].End(), g[1].pos, g[i].End());
    }
    SkipsHidden(BlockOf(Stored(base, g[0])), Wire(base, g[1..]));
  }

  lemma BlocksCons(base: int, c: Chunk, g: seq<Chunk>)
    ensures Blocks(base, [c] + g) == [BlockOf(Stored(base, c))] + Blocks(base, g)
  {
    hide Wrap, Add;
    EndAgrees(base, c);
  }

  /** In every case the loop yields the exact ranges of the visible entries, one per entry. */
  lemma {:induction false} RangesAreEntries(base: int, g: seq<Chunk>, s: seq<byte>, lo: int, hi: int)
    requires g != [] && Separated(g) && AllCut(g, s, lo, hi) && hi < lo + TWO_31
    ensures RangesFrom(BlockOf(Stored(base, g[0])), Wire(base, g[1..])) == Blocks(base, Visible(base, g))
    decreases |g|
  {
    hide Wrap, Add, Epoch, Blocks, Stored;
    BlocksCons(base, g[0], []);
    assert [g[0]] + [] == [g[0]];
    if |g| > 1 {
      ListTail(base, g, s, lo, hi);
      ListTail(base, g[1..], s, lo, hi);
      if Epoch(base, g[0].End()) == Epoch(base, g[1].pos) {
        assert BlockOf(Stored(base, g[1])).start > BlockOf(Stored(base, g[0])).end by {
          VisibleNext(base, g[0], g[1], s, lo, hi);
        }
        RangesAreEntries(base, g[1..], s, lo, hi);
        BlocksCons(base, g[0], Visible(base, g[1..]));
      } else {
        HiddenTail(base, g, s, lo, hi);
      }
    }
  }

  lemma VisibleNext(base: int, a: Chunk, b: Chunk, s: seq<byte>, lo: int, hi: int)
    requires Cut(a, s, lo, hi) && Cut(b, s, lo, hi) && hi < lo + TWO_31
    requires a.End() < b.pos && Epoch(base, a.End()) == Epoch(base, b.pos)
    ensures BlockOf(Stored(base, b)).start > BlockOf(Stored(base, a)).end
  {
    hide Wrap, Add, Epoch;
    EndAgrees(base, a);
    EpochOrder(base, a.End(), b.pos);
  }

  lemma BeyondWrap(base: int, p: int, q: int, x: int)
    requires p < q <= x < p + TWO_31 && Epoch(base, p) != Epoch(base, q)
    ensures Wrap(base + x) < TWO_31
  {
    EpochOrder(base, p, x);
  }

  /** Nothing is hidden exactly when no gap holds a 2^32 boundary. */
  lemma {:induction false} VisibleIsAll(base: int, g: seq<Chunk>)
    requires g != []
    ensures Visible(base, g) == g <==> NoGapWraps(base, g)
    decreases |g|
  {
    hide Epoch;
    if |g| > 1 {
      VisibleIsAll(base, g[1..]);
      assert forall i :: 0 < i < |g| - 1 ==> g[1..][i] == g[i + 1] && g[1..][i - 1] == g[i];
      if NoGapWraps(base, g[1..]) && Epoch(base, g[0].End()) == Epoch(base, g[1].pos) {
        forall i | 0 < i < |g|
          ensures Epoch(base, g[i - 1].End()) == Epoch(base, g[i].pos)
        {
          if i > 1 {
            assert g[1..][i - 1] == g[i] && g[1..][i - 2] == g[i - 1];
          }
        }
      }
      if Visible(base, g) == g {
        assert g[1..] == Visible(base, g)[1..];
      }
    }
  }

  /** The last `n` ranges, newest first. */
  function NewestFirst(ranges: seq<SackBlock>, n: int): seq<SackBlock> {
    seq(Max(0, Min(|ranges|, n)), i requires 0 <= i < Max(0, Min(|ranges|, n)) => ranges[|ranges| - 1 - i])
  }

  /** What the receiver reports besides a duplicate: the exact ranges of its visible entries. */
  ghost function Reportable(base: int, g: seq<Chunk>): seq<SackBlock> {
    if g == [] then [] else Blocks(base, Visible(base, g))
  }

  /** The regular blocks: coalesce, then append the newest ranges while they fit. */
  method RegularBlocks(ooo: seq<OooSegment>, remaining: nat,
                       ghost base: int, ghost g: seq<Chunk>, ghost s: seq<byte>, ghost lo: int, ghost hi: int)
    returns (blocks: seq<SackBlock>)
    requires ooo == Wire(base, g) && Separated(g) && AllCut(g, s, lo, hi) && hi < lo + TWO_31
    ensures blocks == NewestFirst(Reportable(base, g), remaining)
  {
    hide Wrap, Add, Epoch, Separated, AllCut, Visible, RangesFrom, Blocks;
    blocks := [];
    if |ooo| > 0 {
      ListTail(base, g, s, lo, hi);
      RangesAreEntries(base, g, s, lo, hi);
      var ranges := Coalesce(ooo);
      var n := Min(|ranges|, remaining);
      for i := 0 to n
        invariant blocks == NewestFirst(ranges, remaining)[..i]
      {
        blocks := blocks + [ranges[|ranges| - 1 - i]];
      }
    }
  }

  /**
   `sackBlocks`: a pending duplicate report first, and once; then the newest stored ranges that
   fit, three blocks in all beside a timestamp and four otherwise.
   */
  method SackBlocks(r: Receiver, tsEnabled: bool, ghost s: seq<byte>) returns (blocks: seq<SackBlock>)
    requires r.Valid(s)
    modifies r`hasDSACKBlock, r`dsackBlock
    ensures r.Valid(s) && !r.hasDSACKBlock
    ensures var dsack := if old(r.hasDSACKBlock) then [old(r.dsackBlock)] else [];
            blocks == dsack + NewestFirst(Reportable(r.irs + 1, r.g), (if tsEnabled then 3 else 4) - |dsack|)
  {
    hide Wrap, RingBuffer.Contents, RingBuffer.Len, Separated, AllCut, Wire, Visible;
    blocks := [];
    if |r.ooo| == 0 && !r.hasDSACKBlock {
      return;
    }
    var maxBlocks := if tsEnabled then 3 else 4;
    if r.hasDSACKBlock {
      blocks := [r.dsackBlock];
      r.hasDSACKBlock := false;
      r.dsackBlock := SackBlock(0, 0);
    }
    var regular := RegularBlocks(r.ooo, maxBlocks - |blocks|, r.irs + 1, r.g, s, r.pos, r.Edge());
    blocks := blocks + regular;
  }

  /** Each reportable block is a maximal run of held positions. */
  lemma ReportedRunsAreHeld(base: int, g: seq<Chunk>, k: nat)
    requires Separated(g) && (forall i :: 0 <= i < |g| ==> g[i].data != []) && k < |Reportable(base, g)|
    ensures var c := g[k];
            && Reportable(base, g)[k] == SackBlock(Wrap(base + c.pos), Wrap(base + c.End()))
            && (forall x :: c.pos <= x < c.End() ==> Holds(g, x))
            && !Holds(g, c.pos - 1) && !Holds(g, c.End())
  {
    hide Wrap, Visible;
    forall i | 0 <= i < |g|
      ensures !(g[i].pos <= g[k].pos - 1 < g[i].End()) && !(g[i].pos <= g[k].End() < g[i].End())
    {
      assert i < k ==> g[i].End() < g[k].pos;
      assert i > k ==> g[k].End() < g[i].pos;
    }
  }

  /** Without a boundary in a gap, every held run is reportable; with one, the last run never is. */
  lemma NothingOmittedIff(base: int, g: seq<Chunk>)
    requires g != []
    ensures |Reportable(base, g)| == |g| <==> NoGapWraps(base, g)
  {
    hide Epoch, Blocks;
    VisibleIsAll(base, g);
  }

  /** A list that loses its second range: the boundary lies in the gap between the two. */
  lemma OmissionExample()
    ensures var g := [Chunk(1, [0]), Chunk(20, [0])];
            !NoGapWraps(TWO_32 - 10, g) && Reportable(TWO_32 - 10, g) == [SackBlock(TWO_32 - 9, TWO_32 - 8)]
  {
    var g := [Chunk(1, [0]), Chunk(20, [0])];
    assert Epoch(TWO_32 - 10, g[0].End()) == 0 && Epoch(TWO_32 - 10, g[1].pos) == 1;
  }
}
