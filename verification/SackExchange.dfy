/**
 Both ends of SACK together. The ranges a receiver reports, sent as wrapped blocks and compared raw, mark exactly the
 queue entries that lie inside one of them, as long as no 2^32 boundary falls into the live range. Reports that arrive
 late, repeatedly or out of order mark nothing that has not been received.
 */
module SackExchange {
  import opened Bytes
  import opened SeqNum
  import opened OutOfOrder
  import opened SendQueue
  import opened SackMark
  import opened SackReport
  import opened TcpReceiver

  /** A reported range by position. */
  datatype Span = Span(lo: int, hi: int)

  /** The blocks that stand for the spans. */
  ghost function BlocksFor(base: int, spans: seq<Span>): (b: seq<SackBlock>)
    ensures |b| == |spans|
  {
    seq(|spans|, j requires 0 <= j < |spans| => SackBlock(Wrap(base + spans[j].lo), Wrap(base + spans[j].hi)))
  }

  /** The spans lie in `[lo, hi]`. */
  ghost predicate Within(spans: seq<Span>, lo: int, hi: int) {
    forall j :: 0 <= j < |spans| ==> lo <= spans[j].lo <= spans[j].hi <= hi
  }

  /** `[a, b)` lies inside one of the spans. */
  ghost predicate Inside(spans: seq<Span>, a: int, b: int) {
    exists j :: 0 <= j < |spans| && spans[j].lo <= a && b <= spans[j].hi
  }

  lemma BetweenSameWrap(base: int, lo: int, hi: int, p: int, q: int)
    requires SameWrap(base + lo, base + hi) && lo <= p <= hi && lo <= q <= hi
    ensures SameWrap(base + p, base + q)
  {
  }

  /** Without a boundary in the live range, marking is containment in a reported span. */
  lemma SpansCover(base: int, spans: seq<Span>, e: Unacked, a: int, lo: int, hi: int)
    requires Within(spans, lo, hi) && lo <= a && a + |e.data| <= hi < lo + TWO_31 && SameWrap(base + lo, base + hi)
    requires e.sn == Wrap(base + a)
    ensures CoveredBy(BlocksFor(base, spans), e) <==> Inside(spans, a, a + |e.data|)
  {
    hide Wrap, Covers, SameWrap;
    var blocks, b := BlocksFor(base, spans), a + |e.data|;
    forall j | 0 <= j < |spans|
      ensures Covers(blocks[j], e) <==> spans[j].lo <= a && b <= spans[j].hi
    {
      BetweenSameWrap(base, lo, hi, spans[j].lo, a);
      BetweenSameWrap(base, lo, hi, b, spans[j].hi);
      CoversExact(e, base + a, |e.data|, base + spans[j].lo, base + spans[j].hi);
    }
    if CoveredBy(blocks, e) {
      var j :| 0 <= j < |blocks| && Covers(blocks[j], e);
      assert spans[j].lo <= a;
    }
    if Inside(spans, a, b) {
      var j :| 0 <= j < |spans| && spans[j].lo <= a && b <= spans[j].hi;
      assert Covers(blocks[j], e);
    }
  }

  /** The newest `m` entries of the list, as spans. */
  ghost function Newest(g: seq<Chunk>, m: int): (s: seq<Span>)
    ensures |s| == Max(0, Min(|g|, m))
  {
    seq(Max(0, Min(|g|, m)), i requires 0 <= i < Max(0, Min(|g|, m)) => Span(g[|g| - 1 - i].pos, g[|g| - 1 - i].End()))
  }

  /** Without a boundary in the live range nothing is hidden. */
  lemma AllVisible(base: int, g: seq<Chunk>, s: seq<byte>, lo: int, hi: int)
    requires g != [] && AllCut(g, s, lo, hi) && SameWrap(base + lo, base + hi)
    ensures Visible(base, g) == g
  {
    hide SameWrap, Visible, Epoch, Cut;
    forall i | 0 < i < |g|
      ensures Epoch(base, g[i - 1].End()) == Epoch(base, g[i].pos)
    {
      CutBounds(g[i - 1], s, lo, hi);
      CutBounds(g[i], s, lo, hi);
      EpochIsWrap(base, lo, hi, g[i - 1].End(), g[i].pos);
    }
    VisibleIsAll(base, g);
  }

  lemma CutBounds(c: Chunk, s: seq<byte>, lo: int, hi: int)
    requires Cut(c, s, lo, hi)
    ensures lo <= c.pos <= c.End() <= hi
  {
  }

  lemma NewestWithin(g: seq<Chunk>, s: seq<byte>, m: int, lo: int, hi: int)
    requires AllCut(g, s, lo, hi)
    ensures Within(Newest(g, m), lo, hi)
  {
    hide Cut;
    forall i | 0 <= i < |g|
      ensures lo <= g[i].pos <= g[i].End() <= hi
    {
      CutBounds(g[i], s, lo, hi);
    }
  }

  /** Then the regular blocks are those of the newest entries. */
  lemma RegularAreNewest(base: int, g: seq<Chunk>, s: seq<byte>, m: int, lo: int, hi: int)
    requires AllCut(g, s, lo, hi) && SameWrap(base + lo, base + hi)
    ensures NewestFirst(Reportable(base, g), m) == BlocksFor(base, Newest(g, m))
  {
    hide Wrap, SameWrap, Visible, AllCut;
    if g != [] {
      AllVisible(base, g, s, lo, hi);
    }
  }

  lemma EpochIsWrap(base: int, lo: int, hi: int, p: int, q: int)
    requires SameWrap(base + lo, base + hi) && lo <= p <= hi && lo <= q <= hi
    ensures Epoch(base, p) == Epoch(base, q)
  {
  }

  /** What of a report the sender uses: a leading span that ends by the acknowledgement is set aside. */
  ghost function Used(spans: seq<Span>, ack: int): seq<Span> {
    if spans != [] && spans[0].hi <= ack then spans[1..] else spans
  }

  lemma RegularIsUsed(base: int, spans: seq<Span>, ack: int)
    requires spans != [] ==> -TWO_31 < spans[0].hi - ack < TWO_31
    ensures Regular(BlocksFor(base, spans), Wrap(base + ack)) == BlocksFor(base, Used(spans, ack))
  {
    hide Wrap, SeqGreaterThan;
    if spans != [] {
      OrderAgrees(base + spans[0].hi, base + ack);
    }
  }

  /** Every entry of the queue: marked by the report exactly when its bytes lie inside a span that is used. */
  lemma ReportMarks(base: int, spans: seq<Span>, ack: int, q: seq<Unacked>, at: seq<int>, w: seq<byte>, i: nat)
    requires Tiles(q, at, base, w) && i < |q| && at[|q|] < at[0] + TWO_31 && SameWrap(base + at[0], base + at[|q|])
    requires Within(Used(spans, ack), at[0], at[|q|]) && (spans != [] ==> -TWO_31 < spans[0].hi - ack < TWO_31)
    ensures CoveredBy(Regular(BlocksFor(base, spans), Wrap(base + ack)), q[i]) <==>
            Inside(Used(spans, ack), at[i], at[i] + |q[i].data|)
  {
    hide Wrap, SameWrap, CoveredBy, Inside, Used, Regular, BlocksFor, Within;
    RegularIsUsed(base, spans, ack);
    assert Occupies(q[i], at[i], at[i + 1], base, w);
    assert at[0] <= at[i] && at[i + 1] <= at[|q|];
    SpansCover(base, Used(spans, ack), q[i], at[i], at[0], at[|q|]);
  }

  /** What a receiver reports: the pending duplicate, then the newest entries, `limit` spans in all. */
  ghost function Report(pending: bool, at: int, end: int, g: seq<Chunk>, limit: nat): seq<Span> {
    if pending then [Span(at, end)] + Newest(g, limit - 1) else Newest(g, limit)
  }

  lemma ReportBlocks(base: int, pending: bool, at: int, end: int, g: seq<Chunk>, s: seq<byte>, limit: nat, lo: int,
                     hi: int)
    requires AllCut(g, s, lo, hi) && SameWrap(base + lo, base + hi)
    ensures var dsack := if pending then [SackBlock(Wrap(base + at), Wrap(base + end))] else [];
            dsack + NewestFirst(Reportable(base, g), limit - |dsack|) == BlocksFor(base, Report(pending, at, end, g, limit))
  {
    hide Wrap, SameWrap, AllCut, Reportable, NewestFirst, Newest;
    var n := if pending then limit - 1 else limit;
    RegularAreNewest(base, g, s, n, lo, hi);
    assert BlocksFor(base, [Span(at, end)] + Newest(g, n)) ==
           [SackBlock(Wrap(base + at), Wrap(base + end))] + BlocksFor(base, Newest(g, n));
  }

  /** A pending duplicate report that is used lies above the next position, so all of it is held. */
  lemma UsedIsHeld(pending: bool, at: int, end: int, g: seq<Chunk>, s: seq<byte>, limit: nat, pos: int, ack: int,
                   lo: int, hi: int)
    requires AllCut(g, s, pos, hi) && lo <= pos <= ack && pos <= hi
    requires pending ==> at < end && forall x :: at <= x < end ==> x < pos || Holds(g, x)
    ensures Within(Used(Report(pending, at, end, g, limit), ack), lo, hi)
    ensures forall j :: 0 <= j < |Used(Report(pending, at, end, g, limit), ack)| ==>
              HeldSpan(g, Used(Report(pending, at, end, g, limit), ack)[j])
  {
    hide AllCut, Newest, HeldSpan;
    var n := if pending then limit - 1 else limit;
    NewestHeld(g, s, n, pos, hi);
    if pending && end > ack {
      NothingHeldBelow(g, s, pos, hi);
      assert !Holds(g, pos) && at > pos;
      assert Holds(g, end - 1);
      DuplicateHeld(g, at, end, pos);
    }
  }

  ghost predicate HeldSpan(g: seq<Chunk>, p: Span) {
    forall x :: p.lo <= x < p.hi ==> Holds(g, x)
  }

  lemma DuplicateHeld(g: seq<Chunk>, at: int, end: int, pos: int)
    requires pos < at && forall x :: at <= x < end ==> x < pos || Holds(g, x)
    ensures HeldSpan(g, Span(at, end))
  {
  }

  lemma NothingHeldBelow(g: seq<Chunk>, s: seq<byte>, pos: int, hi: int)
    requires AllCut(g, s, pos, hi)
    ensures forall x :: Holds(g, x) ==> pos < x < hi
  {
    forall x | Holds(g, x)
      ensures pos < x < hi
    {
      var i :| 0 <= i < |g| && g[i].pos <= x < g[i].End();
      assert Cut(g[i], s, pos, hi);
    }
  }

  lemma NewestHeld(g: seq<Chunk>, s: seq<byte>, n: int, pos: int, hi: int)
    requires AllCut(g, s, pos, hi)
    ensures forall j :: 0 <= j < |Newest(g, n)| ==>
              HeldSpan(g, Newest(g, n)[j]) && pos <= Newest(g, n)[j].lo <= Newest(g, n)[j].hi <= hi
  {
    hide AllCut;
    NewestWithin(g, s, n, pos, hi);
    forall j | 0 <= j < |Newest(g, n)|
      ensures HeldSpan(g, Newest(g, n)[j])
    {
      var c := g[|g| - 1 - j];
      assert forall x :: c.pos <= x < c.End() ==> Holds(g, x);
    }
  }

  /** The blocks of an honest report, as the sender uses them: exactly the entries inside, and those are held. */
  lemma Exchange(base: int, pending: bool, b: SackBlock, dat: int, dend: int, g: seq<Chunk>, s: seq<byte>, limit: nat,
                 pos: int, ack: int, blocks: seq<SackBlock>, q: seq<Unacked>, at: seq<int>, w: seq<byte>, i: nat)
    requires |at| == |q| + 1 && i < |q| && at[|q|] < at[0] + TWO_31 && SameWrap(base + at[0], base + at[|q|])
    requires Tiles(q, at, base, w)
    requires AllCut(g, s, pos, at[|q|]) && AllCut(g, s, at[0], at[|q|]) && at[0] <= pos <= ack <= pos + 1 && pos <= at[|q|]
    requires Reported(pending, b, base, dat, dend, pos, HeldIn(g)) && (pending ==> ack - dend < TWO_31)
    requires var dsack := if pending then [b] else [];
             blocks == dsack + NewestFirst(Reportable(base, g), limit - |dsack|)
    ensures var used := Used(Report(pending, dat, dend, g, limit), ack);
            && (CoveredBy(Regular(blocks, Wrap(base + ack)), q[i]) <==> Inside(used, at[i], at[i] + |q[i].data|))
            && (Inside(used, at[i], at[i] + |q[i].data|) ==> HeldSpan(g, Span(at[i], at[i] + |q[i].data|)))
  {
    hide Wrap, SameWrap, AllCut, Tiles, Reportable, NewestFirst, CoveredBy, Inside, Regular, BlocksFor, Within,
      HeldSpan;
    var spans := Report(pending, dat, dend, g, limit);
    ReportBlocks(base, pending, dat, dend, g, s, limit, at[0], at[|q|]);
    assert pending ==> forall x :: dat <= x < dend ==> x < pos || Holds(g, x) by {
      assert forall x :: x in HeldIn(g) <==> Holds(g, x);
    }
    UsedIsHeld(pending, dat, dend, g, s, limit, pos, ack, at[0], at[|q|]);
    FirstNear(pending, dat, dend, g, s, limit, pos, ack, at[|q|]);
    ReportMarks(base, spans, ack, q, at, w, i);
    SpanHeld(g, Used(spans, ack), at[i], at[i] + |q[i].data|);
  }

  lemma SpanHeld(g: seq<Chunk>, spans: seq<Span>, a: int, b: int)
    requires forall j :: 0 <= j < |spans| ==> HeldSpan(g, spans[j])
    ensures Inside(spans, a, b) ==> HeldSpan(g, Span(a, b))
  {
    if Inside(spans, a, b) {
      var j :| 0 <= j < |spans| && spans[j].lo <= a && b <= spans[j].hi;
      assert HeldSpan(g, spans[j]);
    }
  }

  /** The first span of a report ends near the acknowledgement. */
  lemma FirstNear(pending: bool, at: int, end: int, g: seq<Chunk>, s: seq<byte>, limit: nat, pos: int, ack: int,
                  hi: int)
    requires AllCut(g, s, pos, hi) && pos <= ack <= pos + 1 && pos <= hi < pos + TWO_31
    requires pending ==> at < end && ack - end < TWO_31 && forall x :: at <= x < end ==> x < pos || Holds(g, x)
    ensures var spans := Report(pending, at, end, g, limit);
            spans != [] ==> -TWO_31 < spans[0].hi - ack < TWO_31
  {
    hide AllCut, HeldSpan;
    NewestHeld(g, s, limit, pos, hi);
    NothingHeldBelow(g, s, pos, hi);
    if pending {
      assert end - 1 < pos || Holds(g, end - 1);
    }
  }

  // ----- Reports that arrive late, repeatedly or out of order -----

  /** The positions that the receiver has: delivered or held. */
  ghost function Got(pos: int, g: seq<Chunk>): iset<int> {
    iset x | x < pos || Holds(g, x)
  }

  ghost predicate Included(m: iset<int>, m': iset<int>) {
    forall x :: x in m ==> x in m'
  }

  /** Nothing the receiver has is ever lost again. */
  lemma GotGrows(pos: int, g: seq<Chunk>, lo: int, hi: int, pos': int, g': seq<Chunk>)
    requires Accepts(pos, HeldIn(g), lo, hi, pos', HeldIn(g')) && pos <= pos'
    ensures Included(Got(pos, g), Got(pos', g'))
  {
    hide Holds;
    forall x | x in Got(pos, g)
      ensures x in Got(pos', g')
    {
      assert Holds(g, x) ==> x in HeldIn(g);
      assert x in HeldIn(g') ==> Holds(g', x);
    }
  }

  /** Every position of the spans is in `got`, and none is beyond `nxt`. */
  ghost predicate Backed(spans: seq<Span>, got: iset<int>, nxt: int) {
    forall j :: 0 <= j < |spans| ==> spans[j].lo <= spans[j].hi <= nxt && Contains(got, spans[j].lo, spans[j].hi)
  }

  ghost predicate AllBacked(reports: seq<seq<Span>>, got: iset<int>, nxt: int) {
    forall k :: 0 <= k < |reports| ==> Backed(reports[k], got, nxt)
  }

  lemma AllBackedMore(reports: seq<seq<Span>>, got: iset<int>, nxt: int, got': iset<int>, nxt': int)
    requires AllBacked(reports, got, nxt) && Included(got, got') && nxt <= nxt'
    ensures AllBacked(reports, got', nxt')
  {
    forall k | 0 <= k < |reports|
      ensures Backed(reports[k], got', nxt')
    {
      assert Backed(reports[k], got, nxt);
    }
  }

  /** The entries that a report can show. */
  ghost function Shown(base: int, g: seq<Chunk>): (v: seq<Chunk>)
    ensures v <= g
  {
    if g == [] then [] else Visible(base, g)
  }

  lemma NewestIsBlocks(base: int, g: seq<Chunk>, n: int)
    ensures NewestFirst(Reportable(base, g), n) == BlocksFor(base, Newest(Shown(base, g), n))
  {
    hide Wrap, Visible;
  }

  /** The blocks of any report, whatever boundary lies between, stand for its spans. */
  lemma ReportIsBlocks(base: int, pending: bool, at: int, end: int, g: seq<Chunk>, limit: nat)
    ensures var dsack := if pending then [SackBlock(Wrap(base + at), Wrap(base + end))] else [];
            dsack + NewestFirst(Reportable(base, g), limit - |dsack|) ==
            BlocksFor(base, Report(pending, at, end, Shown(base, g), limit))
  {
    hide Wrap, Shown, Reportable, NewestFirst, Newest;
    var n, shown := if pending then limit - 1 else limit, Shown(base, g);
    NewestIsBlocks(base, g, n);
    assert BlocksFor(base, [Span(at, end)] + Newest(shown, n)) ==
           [SackBlock(Wrap(base + at), Wrap(base + end))] + BlocksFor(base, Newest(shown, n));
  }

  /** Whatever is reported has been received. */
  lemma ReportBacked(base: int, pending: bool, at: int, end: int, g: seq<Chunk>, s: seq<byte>, limit: nat, pos: int,
                     nxt: int)
    requires AllCut(g, s, pos, nxt) && pos <= nxt
    requires pending ==> at < end && forall x :: at <= x < end ==> x < pos || Holds(g, x)
    ensures Backed(Report(pending, at, end, Shown(base, g), limit), Got(pos, g), nxt)
  {
    hide AllCut, Shown, Newest;
    var n, shown := if pending then limit - 1 else limit, Shown(base, g);
    NewestBacked(g, shown, s, n, pos, nxt);
    if pending {
      NothingHeldBelow(g, s, pos, nxt);
      assert end - 1 < pos || Holds(g, end - 1);
    }
  }

  lemma NewestBacked(g: seq<Chunk>, shown: seq<Chunk>, s: seq<byte>, n: int, pos: int, nxt: int)
    requires AllCut(g, s, pos, nxt) && shown <= g
    ensures Backed(Newest(shown, n), Got(pos, g), nxt)
  {
    hide AllCut, Cut;
    forall j | 0 <= j < |Newest(shown, n)|
      ensures var p := Newest(shown, n)[j]; p.lo <= p.hi <= nxt && Contains(Got(pos, g), p.lo, p.hi)
    {
      var i := |shown| - 1 - j;
      assert g[i] == shown[i];
      AllCutAt(g, s, pos, nxt, i);
      CutBounds(g[i], s, pos, nxt);
      assert forall x :: g[i].pos <= x < g[i].End() ==> Holds(g, x);
    }
  }

  lemma AllCutAt(g: seq<Chunk>, s: seq<byte>, lo: int, hi: int, i: nat)
    requires AllCut(g, s, lo, hi) && i < |g|
    ensures Cut(g[i], s, lo, hi)
  {
    hide Cut;
  }

  /** No span starts half the number space ago. */
  ghost predicate Recent(spans: seq<Span>, nxt: int) {
    forall j :: 0 <= j < |spans| ==> nxt - spans[j].lo < TWO_31
  }

  lemma SameWrapTwice(p: int, q: int, r: int)
    requires SameWrap(p, q) && SameWrap(q, r)
    ensures SameWrap(p, r) && SameWrap(r, p)
  {
  }

  /** A block from the past that covers an entry of the live range contains it. */
  lemma CoversLate(base: int, e: Unacked, a: int, p: Span, first: int, last: int)
    requires first <= a && a + |e.data| <= last < first + TWO_31 && SameWrap(base + first, base + last)
    requires e.sn == Wrap(base + a) && p.lo <= p.hi <= last && last - p.lo < TWO_31
    requires Covers(SackBlock(Wrap(base + p.lo), Wrap(base + p.hi)), e)
    ensures p.lo <= a && a + |e.data| <= p.hi
  {
    hide Wrap, Covers, SameWrap;
    var b := a + |e.data|;
    CoversMeans(e, base + a, |e.data|, base + p.lo, base + p.hi);
    BetweenSameWrap(base, first, last, b, a);
    if p.lo > a {
      BetweenSameWrap(base, first, last, p.lo, a);
    } else if p.hi < b {
      if p.hi >= first {
        BetweenSameWrap(base, first, last, b, p.hi);
      } else {
        BetweenSameWrap(base, p.lo, a, a, p.hi);
        SameWrapTwice(base + b, base + a, base + p.hi);
      }
    }
  }

  /** So whatever a report marks, whenever it arrives, is what its spans contain. */
  lemma LateSound(base: int, spans: seq<Span>, ack: u32, q: seq<Unacked>, at: seq<int>, w: seq<byte>, got: iset<int>)
    requires Tiles(q, at, base, w) && at[|q|] < at[0] + TWO_31 && SameWrap(base + at[0], base + at[|q|])
    requires Backed(spans, got, at[|q|]) && Recent(spans, at[|q|])
    ensures Included(Covering(Regular(BlocksFor(base, spans), ack), q, at), got)
  {
    hide Wrap, SameWrap, Covers, Occupies, SeqGreaterThan;
    var blocks := BlocksFor(base, spans);
    forall x | CoveredAt(Regular(blocks, ack), q, at, x)
      ensures x in got
    {
      var i :| 0 <= i < |q| && i < |at| && at[i] <= x < at[i] + |q[i].data| && CoveredBy(Regular(blocks, ack), q[i]);
      var j := CoveringSpan(blocks, ack, q[i]);
      EntryInRange(q, at, base, w, i);
      CoversLate(base, q[i], at[i], spans[j], at[0], at[|q|]);
      assert Contains(got, spans[j].lo, spans[j].hi);
    }
  }

  lemma CoveringSpan(blocks: seq<SackBlock>, ack: u32, e: Unacked) returns (j: nat)
    requires CoveredBy(Regular(blocks, ack), e)
    ensures j < |blocks| && Covers(blocks[j], e)
  {
    hide Covers, SeqGreaterThan;
    var k :| 0 <= k < |Regular(blocks, ack)| && Covers(Regular(blocks, ack)[k], e);
    j := k + |blocks| - |Regular(blocks, ack)|;
  }

  lemma EntryInRange(q: seq<Unacked>, at: seq<int>, base: int, w: seq<byte>, i: nat)
    requires Tiles(q, at, base, w) && i < |q|
    ensures at[0] <= at[i] && at[i] + |q[i].data| <= at[|q|] && q[i].sn == Wrap(base + at[i])
  {
    hide Wrap;
    assert Occupies(q[i], at[i], at[i + 1], base, w);
    assert at[i + 1] <= at[|q|];
  }

  lemma CoveringHeld(blocks: seq<SackBlock>, q: seq<Unacked>, at: seq<int>, pos: int, g: seq<Chunk>)
    requires |at| == |q| + 1
    requires forall i :: 0 <= i < |q| && CoveredBy(blocks, q[i]) ==> HeldSpan(g, Span(at[i], at[i] + |q[i].data|))
    ensures Included(Covering(blocks, q, at), Got(pos, g))
  {
    hide CoveredBy, Holds;
    forall x | CoveredAt(blocks, q, at, x)
      ensures x in Got(pos, g)
    {
      var i :| 0 <= i < |q| && i < |at| && at[i] <= x < at[i] + |q[i].data| && CoveredBy(blocks, q[i]);
      assert HeldSpan(g, Span(at[i], at[i] + |q[i].data|));
    }
  }

  /** The same for the whole queue; whatever it marks has been received. */
  lemma ExchangeAll(base: int, pending: bool, b: SackBlock, dat: int, dend: int, g: seq<Chunk>, s: seq<byte>,
                    limit: nat,
                    pos: int, ack: int, blocks: seq<SackBlock>, q: seq<Unacked>, at: seq<int>, w: seq<byte>)
    requires |at| == |q| + 1 && at[|q|] < at[0] + TWO_31 && SameWrap(base + at[0], base + at[|q|])
    requires Tiles(q, at, base, w) && pos <= ack <= pos + 1
    requires q != [] ==> AllCut(g, s, pos, at[|q|]) && AllCut(g, s, at[0], at[|q|]) && at[0] <= pos <= at[|q|]
    requires Reported(pending, b, base, dat, dend, pos, HeldIn(g)) && (pending ==> ack - dend < TWO_31)
    requires var dsack := if pending then [b] else [];
             blocks == dsack + NewestFirst(Reportable(base, g), limit - |dsack|)
    ensures var used := Used(Report(pending, dat, dend, g, limit), ack);
            forall i :: 0 <= i < |q| ==>
              && (CoveredBy(Regular(blocks, Wrap(base + ack)), q[i]) <==> Inside(used, at[i], at[i] + |q[i].data|))
              && (Inside(used, at[i], at[i] + |q[i].data|) ==> HeldSpan(g, Span(at[i], at[i] + |q[i].data|)))
    ensures Included(Covering(Regular(blocks, Wrap(base + ack)), q, at), Got(pos, g))
  {
    hide Wrap, SameWrap, AllCut, Tiles, Reportable, NewestFirst, CoveredBy, Inside, Regular, Used, Report, HeldSpan,
      Included, Covering, Got, Reported;
    var used := Used(Report(pending, dat, dend, g, limit), ack);
    forall i | 0 <= i < |q|
      ensures CoveredBy(Regular(blocks, Wrap(base + ack)), q[i]) <==> Inside(used, at[i], at[i] + |q[i].data|)
      ensures Inside(used, at[i], at[i] + |q[i].data|) ==> HeldSpan(g, Span(at[i], at[i] + |q[i].data|))
    {
      Exchange(base, pending, b, dat, dend, g, s, limit, pos, ack, blocks, q, at, w, i);
    }
    CoveringHeld(Regular(blocks, Wrap(base + ack)), q, at, pos, g);
  }
}
