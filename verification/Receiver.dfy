/**
 The receive side of a connection: window trimming, in-order delivery into the read buffer,
 out-of-order storage and draining, buffer auto-tuning.
 */
module TcpReceiver {
  import opened Bytes
  import opened SeqNum
  import opened OutOfOrder
  import opened Reassembly
  import Window
  import opened Ring

  /** What is left of a segment after trimming it to the receive window. */
  datatype Trimmed =
    | Nothing
    | Duplicate
    | Accept(sn: u32, data: seq<byte>)

  /** Segment trimming: drop the bytes already received, then the bytes beyond the window. */
  function Trim(sn: u32, data: seq<byte>, nxt: u32, wnd: nat): Trimmed
    requires |data| < TWO_31
  {
    if data == [] then Nothing
    else if SeqLessThan(sn, nxt) && Sub(nxt, sn) >= |data| then Duplicate
    else
      var sn' := if SeqLessThan(sn, nxt) then nxt else sn;
      var data' := if SeqLessThan(sn, nxt) then data[Sub(nxt, sn)..] else data;
      if wnd == 0 then Nothing
      else
        var wndEnd := Add(nxt, wnd);
        if !SeqLessThan(sn', wndEnd) then Nothing
        else if SeqGreaterThan(Add(sn', |data'|), wndEnd) then
          TailInRange(sn', |data'|, wndEnd);
          Accept(sn', data'[..Sub(wndEnd, sn')])
        else Accept(sn', data')
  }

  lemma TailInRange(sn: u32, len: nat, wndEnd: u32)
    requires len < TWO_31
    requires SeqLessThan(sn, wndEnd) && SeqGreaterThan(Add(sn, len), wndEnd)
    ensures Sub(wndEnd, sn) <= len
  {
    hide *;
    var x := Sub(wndEnd, sn);
    LessMeansAhead(sn, wndEnd);
    AddSubInverse(sn, wndEnd);
    WrapDistributes(sn, len);
    assert Wrap(sn) == sn by { WrapSelf(sn); }
    OrderAgrees(sn + len, sn + x);
  }

  /**
   Trimming on wire numbers is interval intersection on positions: of a segment at `p`, exactly
   the bytes in `[n, n + wnd)` are accepted, and a segment that lies wholly below `n` is a duplicate.
   */
  lemma TrimAgrees(base: int, p: int, data: seq<byte>, n: int, wnd: nat)
    requires -TWO_31 <= p - n < TWO_31 && |data| < TWO_31 && wnd < TWO_31
    ensures var lo, hi := Max(p, n), Min(p + |data|, n + wnd);
            Trim(Wrap(base + p), data, Wrap(base + n), wnd) ==
            if data == [] then Nothing
            else if p + |data| <= n then Duplicate
            else if lo >= hi then Nothing
            else Accept(Wrap(base + lo), data[lo - p..hi - p])
  {
    hide Wrap, Add, Sub, SeqLessThan, SeqGreaterThan;
    OrderAgrees(base + p, base + n);
    if p + |data| > n {
      var lo := Max(p, n);
      var rest := data[lo - p..];
      WrapDistributes(base + n, wnd);
      OrderAgrees(base + lo, base + n + wnd);
      if wnd > 0 && lo < n + wnd {
        WrapDistributes(base + lo, |rest|);
        OrderAgrees(base + lo + |rest|, base + n + wnd);
      }
    }
  }

  /** What `deliverOOO` makes of the first entry: a gap before it, nothing new in it, or data due now. */
  datatype Head =
    | Gap
    | Stale
    | Due(data: seq<byte>)

  function HeadOf(entry: OooSegment, nxt: u32): Head {
    if SeqGreaterThan(entry.sn, nxt) then Gap
    else if SeqLessThan(entry.sn, nxt) then
      if Sub(nxt, entry.sn) >= |entry.data| then Stale else Due(entry.data[Sub(nxt, entry.sn)..])
    else Due(entry.data)
  }

  lemma HeadAgrees(base: int, c: Chunk, n: int, s: seq<byte>, lo: int, hi: int)
    requires Cut(c, s, lo, hi) && lo <= n <= hi < lo + TWO_31
    ensures HeadOf(Stored(base, c), Wrap(base + n)) ==
            if c.pos > n then Gap else if c.End() <= n then Stale else Due(s[n..c.End()])
  {
    hide Wrap, Sub, SeqLessThan, SeqGreaterThan;
    OrderAgrees(base + c.pos, base + n);
  }

  /**
   The simple receiver: a next position and a set of held positions. Accepting `[lo, hi)` adds it
   to what is known; if it starts at the next position, that position moves to the first one not
   known, and what stays held is everything known above it.
   */
  ghost predicate Accepts(pos: int, held: iset<int>, lo: int, hi: int, pos': int, held': iset<int>) {
    var known := iset x | x in held || lo <= x < hi;
    if lo == pos then
      && pos <= pos' && (forall x :: pos <= x < pos' ==> x in known) && pos' !in known
      && held' == (iset x | x in known && x > pos')
    else
      pos' == pos && held' == known
  }

  lemma ListTail(base: int, g: seq<Chunk>, s: seq<byte>, lo: int, hi: int)
    requires g != [] && Separated(g) && AllCut(g, s, lo, hi)
    ensures Separated(g[1..]) && AllCut(g[1..], s, lo, hi) && Cut(g[0], s, lo, hi)
    ensures Wire(base, g)[0] == Stored(base, g[0]) && Wire(base, g[1..]) == Wire(base, g)[1..]
  {
  }

  ghost function HeldIn(g: seq<Chunk>): iset<int> {
    iset x | Holds(g, x)
  }

  /** Delivering `[pos, n)` and draining the list is the simple receiver's step. */
  lemma DrainAccepts(g: seq<Chunk>, s: seq<byte>, pos: int, hi: int, n: int)
    requires Separated(g) && AllCut(g, s, pos, hi) && pos < n <= Min(hi, |s|)
    ensures var (n', g') := Drain(g, n);
            && Accepts(pos, HeldIn(g), pos, n, n', HeldIn(g'))
            && n <= n' <= |s| && Separated(g') && forall e :: e >= hi ==> AllCut(g', s, n', e)
  {
    hide Separated, AllCut, Drain, Holds;
    DrainSound(g, s, pos, hi, n);
    forall e | e >= hi
      ensures AllCut(Drain(g, n).1, s, Drain(g, n).0, e)
    {
      WiderCut(Drain(g, n).1, s, Drain(g, n).0, hi, e);
    }
  }

  lemma WiderCut(g: seq<Chunk>, s: seq<byte>, lo: int, hi: int, e: int)
    requires AllCut(g, s, lo, hi) && hi <= e
    ensures AllCut(g, s, lo, e)
  {
  }

  /** A duplicate report is honest: it is a range of positions that are all delivered or held. */
  ghost predicate Reported(pending: bool, b: SackBlock, base: int, at: int, end: int, pos: int, held: iset<int>) {
    pending ==>
      && b == SackBlock(Wrap(base + at), Wrap(base + end)) && at < end
      && forall x :: at <= x < end ==> x < pos || x in held
  }

  /** Whatever is accepted later, the report stays honest. */
  lemma ReportedStays(pending: bool, b: SackBlock, base: int, at: int, end: int, pos: int, held: iset<int>,
                      lo: int, hi: int, pos': int, held': iset<int>)
    requires Reported(pending, b, base, at, end, pos, held) && Accepts(pos, held, lo, hi, pos', held')
    ensures Reported(pending, b, base, at, end, pos', held')
  {
    hide Wrap;
  }

  lemma ReportedMore(pending: bool, b: SackBlock, base: int, at: int, end: int, pos: int, held: iset<int>,
                     held': iset<int>)
    requires Reported(pending, b, base, at, end, pos, held) && forall x :: x in held ==> x in held'
    ensures Reported(pending, b, base, at, end, pos, held')
  {
    hide Wrap;
  }

  /** A segment inside a stored entry is reported honestly. */
  lemma CoveredReported(base: int, g: seq<Chunk>, c: Chunk, pos: int)
    requires Covered(g, c) && c.data != []
    ensures Reported(true, SackBlock(Wrap(base + c.pos), Wrap(base + c.End())), base, c.pos, c.End(), pos, HeldIn(g))
  {
    hide Wrap;
    forall x | c.pos <= x < c.End()
      ensures Holds(g, x)
    {
      CoveredHolds(g, c, x);
    }
  }

  /** Accepting `[lo, hi)` moves the next position exactly when `lo` is it, to `hi` at least and not beyond what was held. */
  lemma AcceptsReach(pos: int, held: iset<int>, lo: int, hi: int, pos': int, held': iset<int>, edge: int)
    requires Accepts(pos, held, lo, hi, pos', held') && pos <= lo < hi <= edge && forall x :: x in held ==> pos < x < edge
    ensures if lo == pos then hi <= pos' <= edge else pos' == pos
  {
    if lo == pos {
      var known := iset x | x in held || lo <= x < hi;
      assert pos' < hi ==> pos' in known;
      assert pos' > edge ==> edge in known;
    }
  }

  /** What trimming leaves of a piece of the stream `s` is the piece of it inside the window. */
  lemma TrimmedPiece(base: int, p: int, data: seq<byte>, n: int, wnd: nat, s: seq<byte>)
    requires -TWO_31 <= p - n < TWO_31 && |data| < TWO_31 && wnd < TWO_31 && 0 <= n
    requires 0 <= p && p + |data| <= |s| && data == s[p..p + |data|]
    ensures var t, lo, hi := Trim(Wrap(base + p), data, Wrap(base + n), wnd), Max(p, n), Min(p + |data|, n + wnd);
            && (t.Duplicate? <==> data != [] && p + |data| <= n)
            && (t.Accept? <==> lo < hi)
            && (t.Accept? ==> t.sn == Wrap(base + lo) && |t.data| == hi - lo && t.data == s[lo..lo + |t.data|])
  {
    hide Wrap, Trim, Add, Sub, SeqLessThan, SeqGreaterThan;
    var t, lo, hi := Trim(Wrap(base + p), data, Wrap(base + n), wnd), Max(p, n), Min(p + |data|, n + wnd);
    TrimAgrees(base, p, data, n, wnd);
    if data != [] && n < p + |data| && lo < hi {
      assert t == Accept(Wrap(base + lo), data[lo - p..hi - p]);
      SubSlice(s, p, data, lo, hi);
    }
  }

  /** Moving the front of a queue to what was taken keeps the whole exactly when the rest stays. */
  lemma SameWhole(taken: seq<byte>, c: seq<byte>, n: nat, rest: seq<byte>)
    requires n <= |c|
    ensures taken + c[..n] + rest == taken + c <==> rest == c[n..]
  {
    assert c == c[..n] + c[n..];
    if taken + c[..n] + rest == taken + c {
      assert rest == (taken + c[..n] + rest)[|taken| + n..];
      assert c[n..] == (taken + c)[|taken| + n..];
    }
  }

  /** Of a segment trimmed at position `n`, what follows on from there, and when it is a duplicate. */
  lemma DiscardReach(base: int, p: int, data: seq<byte>, n: int, wnd: nat)
    requires -TWO_31 <= p - n < TWO_31 && |data| < TWO_31 && wnd < TWO_31
    ensures var t := Trim(Wrap(base + p), data, Wrap(base + n), wnd);
            && (t.Duplicate? <==> data != [] && p + |data| <= n)
            && n + (if t.Accept? && t.sn == Wrap(base + n) then |t.data| else 0) ==
               (if p <= n < p + |data| then Min(p + |data|, n + wnd) else n)
  {
    hide Wrap, Trim, Add, Sub, SeqLessThan, SeqGreaterThan;
    var lo, hi := Max(p, n), Min(p + |data|, n + wnd);
    var t := Trim(Wrap(base + p), data, Wrap(base + n), wnd);
    TrimAgrees(base, p, data, n, wnd);
    if data != [] && n < p + |data| && lo < hi {
      assert t == Accept(Wrap(base + lo), data[lo - p..hi - p]);
      OrderAgrees(base + lo, base + n);
    }
  }

  /** A segment that ends the stream takes the next position to the end exactly when it follows on and fits the window. */
  lemma LastReach(pos: int, held: iset<int>, p: int, len: int, edge: int, pos': int, held': iset<int>)
    requires var lo, hi := Max(p, pos), Min(p + len, edge);
             if lo < hi then Accepts(pos, held, lo, hi, pos', held') else pos' == pos
    requires 0 < len && pos <= edge && pos <= p + len && pos' <= p + len && forall x :: x in held ==> pos < x < edge
    ensures pos' == p + len <==> p <= pos && p + len <= edge
  {
    hide Accepts;
    var lo, hi := Max(p, pos), Min(p + len, edge);
    if lo < hi {
      AcceptsReach(pos, held, lo, hi, pos', held', edge);
    }
  }

  lemma CutHasData(c: Chunk, s: seq<byte>, lo: int, hi: int)
    requires Cut(c, s, lo, hi)
    ensures c.data != []
  {
  }

  class Receiver {
    const irs: u32
    var nxt: u32
    var ooo: seq<OooSegment>
    const readBuf: RingBuffer
    var readShutdown: bool
    var finReceived: bool
    var finSeq: u32
    var dsackBlock: SackBlock
    var hasDSACKBlock: bool

    // Auto-tuning: both ceilings are zero when it is off.
    const readBufSize: nat
    const maxBufSize: nat
    var bytesDelivered: nat
    /** The largest capacity the buffer can ever have, which the window scale was computed for. */
    ghost const limit: nat

    /** Stream position of `nxt`, counting data bytes only. */
    ghost var pos: nat
    /** The peer's FIN has been consumed. */
    ghost var finDone: bool
    /** The out-of-order list by position. */
    ghost var g: seq<Chunk>
    /** Bytes the application has read so far. */
    ghost var taken: seq<byte>
    /** The positions of the pending duplicate report. */
    ghost var dsackAt: int
    ghost var dsackEnd: int

    constructor (irs: u32, readBuf: RingBuffer, readBufSize: nat, maxBufSize: nat)
      requires readBuf.Valid() && readBuf.Contents() == [] && !readBuf.closed
      requires readBuf.Cap() < TWO_31 && readBufSize < TWO_31 && maxBufSize < TWO_31
      ensures Valid([]) && Honest() && Delivered() == [] && this.readBuf == readBuf && this.irs == irs
      ensures !finReceived && !finDone && g == [] && taken == []
      ensures limit == Max(readBuf.Cap(), Max(readBufSize, maxBufSize))
    {
      this.irs, this.readBuf := irs, readBuf;
      nxt := Add(irs, 1);
      ooo, readShutdown, finReceived, finSeq := [], false, false, 0;
      dsackBlock, hasDSACKBlock := SackBlock(0, 0), false;
      var tuned := readBufSize > readBuf.Cap() || maxBufSize > readBuf.Cap();
      this.readBufSize := if tuned then readBufSize else 0;
      this.maxBufSize := if tuned then maxBufSize else 0;
      bytesDelivered := 0;
      limit := Max(readBuf.Cap(), Max(readBufSize, maxBufSize));
      pos, finDone, g, taken, dsackAt, dsackEnd := 0, false, [], [], 0, 0;
    }

    /** Everything ever put into the read buffer. */
    ghost function Delivered(): seq<byte>
      reads this, readBuf, readBuf.buf
      requires readBuf.Valid()
    {
      taken + readBuf.Contents()
    }

    /** First position beyond the receive window. */
    ghost function Edge(): int
      reads this, readBuf
      requires readBuf.Valid()
    {
      pos + readBuf.Free()
    }

    /** The acknowledgement number by position: data bytes plus one for a consumed FIN. */
    ghost function AckPos(): nat
      reads this
    {
      if finDone then pos + 1 else pos
    }

    ghost function Held(): iset<int>
      reads this
    {
      HeldIn(g)
    }

    /** A pending duplicate report tells the truth. */
    ghost predicate Honest()
      reads this
    {
      Reported(hasDSACKBlock, dsackBlock, irs + 1, dsackAt, dsackEnd, pos, Held())
    }

    /** The buffer and its limits. */
    ghost predicate BufferOk()
      reads this, readBuf
    {
      readBuf.Valid() && readBuf.Cap() <= limit && readBufSize <= limit && maxBufSize <= limit && limit < TWO_31
    }

    /** The state between in-order delivery and draining: the list may reach below `pos`. */
    ghost predicate Draining(s: seq<byte>, lo: int, hi: int)
      reads this, readBuf, readBuf.buf
    {
      && BufferOk()
      && pos <= |s| && nxt == Wrap(irs + 1 + pos) && Delivered() == s[..pos]
      && ooo == Wire(irs + 1, g) && Separated(g) && AllCut(g, s, lo, hi)
      && lo <= pos <= hi < lo + TWO_31 && hi <= Edge()
    }

    /** `s` is what the peer has sent so far; the receiver holds pieces of it and nothing else. */
    ghost predicate Valid(s: seq<byte>)
      reads this, readBuf, readBuf.buf
    {
      && BufferOk() && !readShutdown
      && pos <= |s| && nxt == Wrap(irs + 1 + AckPos()) && Delivered() == s[..pos]
      && ooo == Wire(irs + 1, g) && Separated(g) && AllCut(g, s, pos, Edge())
      && readBuf.closed == finDone
      && (finDone ==> pos == |s|)
      && (finReceived ==> finSeq == Wrap(irs + 1 + |s|) && |s| - pos < TWO_31)
    }

    /**
     The window put on the wire never promises more than is free. When the scale fits the largest buffer, it is
     never saturated: unless suppressed, it falls short by less than one unit.
     */
    method AdvertisedWindow(mss: nat, scale: nat) returns (w: nat)
      requires BufferOk()
      ensures w <= Window.MAX_WND && Window.Units(w, scale) <= readBuf.Free()
      ensures limit < 65536 * Window.Pow2(scale) && readBuf.Free() >= Min(mss, readBuf.Cap() / 2) ==>
                readBuf.Free() < Window.Units(w, scale) + Window.Pow2(scale) && w == Window.Shift(readBuf.Free(), scale)
    {
      hide RingBuffer.Contents, RingBuffer.Len;
      w := Window.Wnd(readBuf.Free(), readBuf.Cap(), mss, scale);
      Window.NeverOverPromises(readBuf.Free(), readBuf.Cap(), mss, scale);
      Window.NeverSaturatedIff(limit, scale);
    }

    /** Grows the buffer towards the current phase's ceiling, at most doubling it. */
    method AutoTuneCheck()
      requires BufferOk()
      modifies this`bytesDelivered, readBuf, readBuf.buf
      ensures BufferOk() && (readBuf.buf == old(readBuf.buf) || fresh(readBuf.buf))
      ensures readBuf.Contents() == old(readBuf.Contents()) && readBuf.closed == old(readBuf.closed)
      ensures old(readBuf.Cap()) <= readBuf.Cap() <= Max(old(readBuf.Cap()), Max(readBufSize, maxBufSize))
    {
      hide RingBuffer.Contents, RingBuffer.Len;
      var curCap := readBuf.Cap();
      var ceiling := maxBufSize;
      if readBufSize > 0 && curCap < readBufSize {
        ceiling := readBufSize;
        if bytesDelivered > 0 && curCap < ceiling {
          readBuf.Grow(Min(curCap * 2, ceiling));
        }
      } else {
        var threshold := curCap / 2;
        if bytesDelivered > threshold && curCap < ceiling {
          readBuf.Grow(Min(curCap * 2, ceiling));
        }
      }
      bytesDelivered := 0;
    }

    /** Writes to the read buffer; whether a measurement window just completed is up to the clock. */
    method Deliver(data: seq<byte>) returns (n: nat)
      requires BufferOk() && data != []
      modifies this`bytesDelivered, readBuf, readBuf.buf
      ensures BufferOk() && (readBuf.buf == old(readBuf.buf) || fresh(readBuf.buf))
      ensures n == if old(readBuf.closed) then 0 else Min(|data|, old(readBuf.Free()))
      ensures Delivered() == old(Delivered()) + data[..n] && readBuf.closed == old(readBuf.closed)
      ensures readBuf.Free() >= old(readBuf.Free()) - n
    {
      hide RingBuffer.Contents, RingBuffer.Len;
      n := readBuf.WriteNoBlock(data);
      assert Delivered() == old(Delivered()) + data[..n];
      if n > 0 {
        if maxBufSize <= 0 && readBufSize <= 0 {
          return;
        }
        bytesDelivered := bytesDelivered + n;
        var elapsed: bool := *;
        if elapsed {
          AutoTuneCheck();
        }
      }
    }

    /** Drops the first entry, all of whose bytes have been delivered. */
    method DropHead(ghost s: seq<byte>, ghost lo: int, ghost hi: int)
      requires BufferOk() && g != [] && lo <= pos < g[0].End() <= hi < lo + TWO_31 && g[0].End() <= |s|
      requires nxt == Wrap(irs + 1 + g[0].End()) && Delivered() == s[..g[0].End()] && hi <= g[0].End() + readBuf.Free()
      requires ooo == Wire(irs + 1, g) && Separated(g) && AllCut(g, s, lo, hi)
      modifies this`ooo, this`pos, this`g
      ensures Draining(s, lo, hi) && pos == old(g[0].End()) && g == old(g[1..])
    {
      hide Wrap, RingBuffer.Contents, RingBuffer.Len, RingBuffer.Free, Separated, AllCut, Wire;
      ListTail(irs + 1, g, s, lo, hi);
      ooo := ooo[1..];
      pos := g[0].End();
      g := g[1..];
    }

    /** Delivers the due bytes of the first entry and drops it, or keeps what did not fit. */
    method DeliverHead(data: seq<byte>, ghost s: seq<byte>, ghost lo: int, ghost hi: int) returns (more: bool)
      requires Draining(s, lo, hi) && g != [] && g[0].pos <= pos < g[0].End()
      requires data == s[pos..g[0].End()]
      modifies this`nxt, this`ooo, this`pos, this`g, this`bytesDelivered, readBuf, readBuf.buf
      ensures readBuf.Valid() && (readBuf.buf == old(readBuf.buf) || fresh(readBuf.buf))
      ensures readBuf.closed == old(readBuf.closed) && more == !readBuf.closed
      ensures more ==> Draining(s, lo, hi) && pos == old(g[0].End()) && g == old(g[1..])
      ensures !more ==> pos == old(pos) && nxt == old(nxt) && Delivered() == old(Delivered())
    {
      hide Wrap, Add, Sub, RingBuffer.Contents, RingBuffer.Len, RingBuffer.Free, Separated, AllCut, Wire, Drain;
      ListTail(irs + 1, g, s, lo, hi);
      WrapDistributes(irs + 1 + pos, 0);
      var sn := nxt;
      var n := Deliver(data);
      nxt := Add(nxt, n);
      more := n == |data|;
      if more {
        WrapDistributes(irs + 1 + pos, n);
        DropHead(s, lo, hi);
      } else {
        ooo := [OooSegment(Add(sn, n), data[n..])] + ooo[1..];
        g := [Chunk(pos, data)] + g[1..];
      }
    }

    /** One turn of the draining loop; `more` is false at a gap or when the buffer takes no more. */
    method DrainHead(ghost s: seq<byte>, ghost lo: int, ghost hi: int) returns (more: bool)
      requires Draining(s, lo, hi) && ooo != []
      modifies this`nxt, this`ooo, this`pos, this`g, this`bytesDelivered, readBuf, readBuf.buf
      ensures readBuf.Valid() && (readBuf.buf == old(readBuf.buf) || fresh(readBuf.buf))
      ensures readBuf.closed == old(readBuf.closed)
      ensures more ==> Draining(s, lo, hi) && |ooo| < old(|ooo|) && Drain(g, pos) == old(Drain(g, pos))
      ensures !more && !readBuf.closed ==> Draining(s, lo, hi) && (pos, g) == old(Drain(g, pos))
      ensures readBuf.closed ==> pos == old(pos) && nxt == old(nxt) && Delivered() == old(Delivered())
    {
      hide Wrap, Add, Sub, HeadOf, RingBuffer.Contents, RingBuffer.Len, RingBuffer.Free, Separated;
      ListTail(irs + 1, g, s, lo, hi);
      HeadAgrees(irs + 1, g[0], pos, s, lo, hi);
      var head := HeadOf(ooo[0], nxt);
      if head.Gap? {
        more := false;
      } else if head.Stale? {
        ooo := ooo[1..];
        g := g[1..];
        more := true;
      } else {
        more := DeliverHead(head.data, s, lo, hi);
      }
    }

    /** Drains the entries that have become contiguous. */
    method DrainList(ghost s: seq<byte>, ghost lo: int, ghost hi: int)
      requires Draining(s, lo, hi)
      modifies this`nxt, this`ooo, this`pos, this`g, this`bytesDelivered, readBuf, readBuf.buf
      ensures readBuf.Valid() && (readBuf.buf == old(readBuf.buf) || fresh(readBuf.buf))
      ensures readBuf.closed == old(readBuf.closed)
      ensures !readBuf.closed ==> Draining(s, lo, hi) && (pos, g) == old(Drain(g, pos))
      ensures readBuf.closed ==> pos == old(pos) && nxt == old(nxt) && Delivered() == old(Delivered())
    {
      hide Wrap, Wire, Separated, AllCut, RingBuffer.Contents, RingBuffer.Len, RingBuffer.Free;
      while |ooo| > 0
        invariant Draining(s, lo, hi) && Drain(g, pos) == old(Drain(g, pos))
        invariant readBuf.buf == old(readBuf.buf) || fresh(readBuf.buf)
        invariant readBuf.Valid() && readBuf.closed == old(readBuf.closed)
        invariant readBuf.closed ==> pos == old(pos) && nxt == old(nxt) && Delivered() == old(Delivered())
        decreases |ooo|
      {
        var more := DrainHead(s, lo, hi);
        if !more {
          break;
        }
      }
    }

    /** Drains the list and reports a deferred FIN that is now due. */
    method DeliverOOO(ghost s: seq<byte>, ghost lo: int, ghost hi: int) returns (finDue: bool)
      requires Draining(s, lo, hi)
      modifies this`nxt, this`ooo, this`pos, this`g, this`bytesDelivered, this`finReceived, readBuf, readBuf.buf
      ensures readBuf.Valid() && (readBuf.buf == old(readBuf.buf) || fresh(readBuf.buf))
      ensures readBuf.closed == old(readBuf.closed)
      ensures !readBuf.closed ==> Draining(s, lo, hi) && (pos, g) == old(Drain(g, pos))
      ensures readBuf.closed ==> pos == old(pos) && nxt == old(nxt) && Delivered() == old(Delivered())
      ensures finDue <==> old(finReceived) && nxt == finSeq
      ensures finReceived == (old(finReceived) && !finDue)
    {
      hide Wrap, Wire, Separated, AllCut, Drain, RingBuffer.Contents, RingBuffer.Len, RingBuffer.Free;
      DrainList(s, lo, hi);
      finDue := finReceived && nxt == finSeq;
      if finDue {
        finReceived := false;
      }
    }

    /** Stores a future segment, or records it as a duplicate of what is stored. */
    method InsertOOO(sn: u32, data: seq<byte>, ghost s: seq<byte>, ghost c: Chunk)
      requires Valid(s) && Cut(c, s, pos, Edge()) && OooSegment(sn, data) == Stored(irs + 1, c)
      modifies this`ooo, this`g, this`dsackBlock, this`hasDSACKBlock, this`dsackAt, this`dsackEnd
      ensures Valid(s)
      ensures Held() == iset x | x in old(Held()) || c.pos <= x < c.End()
      ensures Covered(old(g), c) ==> hasDSACKBlock && dsackBlock == SackBlock(sn, Add(sn, |data|))
      ensures !Covered(old(g), c) ==> hasDSACKBlock == old(hasDSACKBlock) && dsackBlock == old(dsackBlock)
      ensures old(Honest()) ==> Honest()
    {
      hide Wrap, Add, RingBuffer.Contents, RingBuffer.Len, RingBuffer.Free, Cut, Covered, Separated, Place, Absorb,
        Wire, Pending, Reported;
      CutHasData(c, s, pos, Edge());
      var out, dup := InsertEntry(ooo, sn, data, irs + 1, g, c, s, pos, Edge());
      if dup {
        dsackBlock := SackBlock(sn, Add(sn, |data|));
        hasDSACKBlock := true;
        dsackAt, dsackEnd := c.pos, c.End();
        WrapDistributes(irs + 1 + c.pos, |data|);
        forall x {
          CoveredHolds(g, c, x);
        }
        CoveredReported(irs + 1, g, c, pos);
      } else {
        InsertSound(g, c, s, pos, Edge());
        ooo := out;
        g := Insert(g, c);
        if old(Honest()) {
          ReportedMore(hasDSACKBlock, dsackBlock, irs + 1, dsackAt, dsackEnd, pos, old(Held()), Held());
        }
      }
    }

    /** Delivers the bytes at the next position, without draining yet. */
    method DeliverNext(data: seq<byte>, ghost s: seq<byte>)
      requires Valid(s) && !finDone
      requires data != [] && pos + |data| <= Min(|s|, Edge()) && data == s[pos..pos + |data|]
      modifies this`nxt, this`pos, this`bytesDelivered, readBuf, readBuf.buf
      ensures Draining(s, old(pos), old(Edge())) && !readBuf.closed
      ensures readBuf.buf == old(readBuf.buf) || fresh(readBuf.buf)
      ensures pos == old(pos) + |data|
    {
      hide Wrap, Add, RingBuffer.Contents, RingBuffer.Len, RingBuffer.Free, Separated, AllCut, Wire;
      var n := Deliver(data);
      WrapDistributes(irs + 1 + pos, n);
      nxt := Add(nxt, n);
      pos := pos + n;
    }

    /** Delivers the bytes at the next position and whatever they make contiguous. */
    method AcceptNext(data: seq<byte>, ghost s: seq<byte>) returns (finDue: bool)
      requires Valid(s) && !finDone
      requires data != [] && pos + |data| <= Min(|s|, Edge()) && data == s[pos..pos + |data|]
      modifies this`nxt, this`ooo, this`pos, this`g, this`bytesDelivered, this`finReceived, readBuf, readBuf.buf
      ensures Valid(s) && Edge() >= old(Edge()) && (readBuf.buf == old(readBuf.buf) || fresh(readBuf.buf))
      ensures Accepts(old(pos), old(Held()), old(pos), old(pos) + |data|, pos, Held())
      ensures finDue <==> old(finReceived) && pos == |s|
      ensures finReceived == (old(finReceived) && !finDue)
    {
      hide Wrap, RingBuffer.Contents, RingBuffer.Len, RingBuffer.Free, Separated, AllCut, Wire, Drain, HeldIn, Accepts;
      ghost var lo, hi, h := pos, Edge(), g;
      DeliverNext(data, s);
      finDue := DeliverOOO(s, lo, hi);
      DrainAccepts(h, s, lo, hi, lo + |data|);
      if old(finReceived) {
        OrderAgrees(irs + 1 + pos, irs + 1 + |s|);
      }
    }

    /** A segment of the peer's stream `s`, at position `p`, near enough for 32-bit numbers. */
    ghost predicate Arrives(sn: u32, data: seq<byte>, p: int, s: seq<byte>)
      reads this
    {
      && sn == Wrap(irs + 1 + p) && 0 <= p && p + |data| <= |s| && data == s[p..p + |data|]
      && -TWO_31 <= p - AckPos() < TWO_31
    }

    /** Stores or delivers an accepted piece of a segment. */
    method AcceptPiece(sn: u32, data: seq<byte>, ghost lo: int, ghost s: seq<byte>) returns (finDue: bool)
      requires Valid(s) && !finDone && data != []
      requires sn == Wrap(irs + 1 + lo) && pos <= lo && lo + |data| <= Min(|s|, Edge()) && data == s[lo..lo + |data|]
      modifies this`nxt, this`ooo, this`pos, this`g, this`bytesDelivered, this`finReceived,
               this`dsackBlock, this`hasDSACKBlock, this`dsackAt, this`dsackEnd, readBuf, readBuf.buf
      ensures Valid(s) && Edge() >= old(Edge()) && (readBuf.buf == old(readBuf.buf) || fresh(readBuf.buf))
      ensures Accepts(old(pos), old(Held()), lo, lo + |data|, pos, Held()) && pos >= old(pos)
      ensures finDue <==> old(finReceived) && old(pos) < pos == |s|
      ensures finReceived == (old(finReceived) && !finDue)
      ensures old(Honest()) ==> Honest()
    {
      hide Wrap, RingBuffer.Contents, RingBuffer.Len, Separated, AllCut, Wire, HeldIn, Reported;
      finDue := false;
      OrderAgrees(irs + 1 + lo, irs + 1 + pos);
      if sn == nxt {
        finDue := AcceptNext(data, s);
        if old(Honest()) {
          ReportedStays(hasDSACKBlock, dsackBlock, irs + 1, dsackAt, dsackEnd, old(pos), old(Held()),
                        lo, lo + |data|, pos, Held());
        }
      } else if SeqGreaterThan(sn, nxt) {
        InsertOOO(sn, data, s, Chunk(lo, data));
      }
    }

    /**
     `handleData` once the read side is shut down, with the next number at position `n`: it advances over the part of
     an in-order segment that fits the window, stays where it is otherwise, and nothing is stored.
     */
    method HandleDiscarded(sn: u32, data: seq<byte>, ghost p: int, ghost n: int)
      requires readShutdown && BufferOk() && |data| < TWO_31
      requires nxt == Wrap(irs + 1 + n) && sn == Wrap(irs + 1 + p) && -TWO_31 <= p - n < TWO_31
      modifies this`nxt, this`dsackBlock, this`hasDSACKBlock, this`dsackAt, this`dsackEnd
      ensures nxt == Wrap(irs + 1 + if p <= n < p + |data| then Min(p + |data|, n + readBuf.Free()) else n)
      ensures if data != [] && p + |data| <= n then hasDSACKBlock && dsackBlock == SackBlock(sn, Add(sn, |data|))
              else hasDSACKBlock == old(hasDSACKBlock) && dsackBlock == old(dsackBlock)
    {
      hide Wrap, Add, Trim, RingBuffer.Contents, RingBuffer.Len, RingBuffer.Free, Min;
      FreeBelow();
      DiscardReach(irs + 1, p, data, n, readBuf.Free());
      var t := Trim(sn, data, nxt, readBuf.Free());
      match t {
        case Nothing =>
        case Duplicate =>
          dsackBlock := SackBlock(sn, Add(sn, |data|));
          hasDSACKBlock := true;
        case Accept(sn', d) =>
          if sn' == nxt {
            WrapDistributes(irs + 1 + n, |d|);
            nxt := Add(nxt, |d|);
          }
      }
    }

    lemma FreeBelow()
      requires BufferOk()
      ensures readBuf.Free() < TWO_31
    {
    }

    /** What trimming needs to know. */
    lemma Basics(s: seq<byte>)
      requires Valid(s)
      ensures readBuf.Valid() && readBuf.Free() < TWO_31
      ensures nxt == Wrap(irs + 1 + AckPos()) && pos <= |s| && (finDone ==> pos == |s|)
    {
      hide Wrap, RingBuffer.Contents, RingBuffer.Len, Separated, AllCut, Wire;
    }

    /** What is held lies inside the window. */
    lemma HeldInWindow(s: seq<byte>)
      requires Valid(s)
      ensures 0 <= pos <= |s| && pos <= Edge() && forall x :: x in Held() ==> pos < x < Edge()
    {
      hide Wrap, RingBuffer.Contents, RingBuffer.Len, Separated, Wire;
      forall x | Holds(g, x)
        ensures pos < x < Edge()
      {
        var i :| 0 <= i < |g| && g[i].pos <= x < g[i].End();
        assert Cut(g[i], s, pos, Edge());
      }
    }

    /** Records a duplicate for the next acknowledgement. */
    method NoteDuplicate(sn: u32, len: nat, ghost p: int, ghost s: seq<byte>)
      requires Valid(s) && sn == Wrap(irs + 1 + p) && 0 < len && p + len <= pos
      modifies this`dsackBlock, this`hasDSACKBlock, this`dsackAt, this`dsackEnd
      ensures Valid(s) && hasDSACKBlock && dsackBlock == SackBlock(sn, Add(sn, len)) && Honest()
    {
      hide Wrap, Add, RingBuffer.Contents, RingBuffer.Len, Separated, AllCut, Wire;
      WrapDistributes(irs + 1 + p, len);
      dsackBlock := SackBlock(sn, Add(sn, len));
      hasDSACKBlock := true;
      dsackAt, dsackEnd := p, p + len;
    }

    /**
     `handleData` while the read side is open. Exactly the bytes inside the window are accepted, as
     the simple receiver accepts them; nothing is delivered out of order and nothing is lost.
     */
    method HandleData(sn: u32, data: seq<byte>, ghost p: int, ghost s: seq<byte>) returns (finDue: bool)
      requires Valid(s) && Arrives(sn, data, p, s) && |data| < TWO_31
      modifies this`nxt, this`ooo, this`pos, this`g, this`bytesDelivered, this`finReceived,
               this`dsackBlock, this`hasDSACKBlock, this`dsackAt, this`dsackEnd, readBuf, readBuf.buf
      ensures Valid(s) && Edge() >= old(Edge()) && (readBuf.buf == old(readBuf.buf) || fresh(readBuf.buf))
      ensures var lo, hi := Max(p, old(AckPos())), Min(p + |data|, old(AckPos() + readBuf.Free()));
              if lo < hi then Accepts(old(pos), old(Held()), lo, hi, pos, Held()) && pos >= old(pos)
              else pos == old(pos) && Held() == old(Held())
      ensures finDue <==> old(finReceived) && old(pos) < pos == |s|
      ensures finReceived == (old(finReceived) && !finDue)
      ensures data != [] && p + |data| <= old(AckPos()) ==>
                hasDSACKBlock && dsackBlock == SackBlock(sn, Add(sn, |data|))
      ensures old(Honest()) ==> Honest()
    {
      hide Wrap, Add, Trim, Accepts, Valid, Reported, RingBuffer.Contents, RingBuffer.Len, HeldIn;
      finDue := false;
      Basics(s);
      TrimmedPiece(irs + 1, p, data, AckPos(), readBuf.Free(), s);
      var t := Trim(sn, data, nxt, readBuf.Free());
      match t {
        case Nothing =>
        case Duplicate =>
          NoteDuplicate(sn, |data|, p, s);
        case Accept(sn', d) =>
          finDue := AcceptPiece(sn', d, Max(p, pos), s);
      }
    }

    /** The receiver's part of `processFIN`: the FIN takes one number and the read buffer is closed. */
    method ProcessFIN(ghost s: seq<byte>)
      requires Valid(s) && !finDone && pos == |s|
      modifies this`nxt, this`finDone, readBuf`closed
      ensures Valid(s) && finDone && readBuf.Free() == old(readBuf.Free())
    {
      hide Wrap, Add, RingBuffer.Contents, RingBuffer.Len, RingBuffer.Free, Separated, AllCut, Wire;
      WrapDistributes(irs + 1 + pos, 1);
      nxt := Add(nxt, 1);
      readBuf.CloseWrite();
      finDone := true;
    }

    /**
     The FIN_WAIT handlers advance over a FIN, whose number is `end`, without looking where it sits. The receiver is
     still in step afterwards exactly when the test that ESTABLISHED makes would have succeeded.
     */
    method ConsumeFINUnchecked(ghost end: u32, ghost s: seq<byte>)
      requires Valid(s) && end == Wrap(irs + 1 + |s|) && |s| - pos < TWO_31
      modifies this`nxt, this`finDone, readBuf`closed
      ensures nxt == Add(old(nxt), 1) && finDone && readBuf.closed
      ensures readBuf.Valid() && Delivered() == old(Delivered())
      ensures Valid(s) <==> old(nxt) == end
      ensures old(nxt) == end <==> old(!finDone && pos == |s|)
    {
      hide RingBuffer.Contents, RingBuffer.Len, RingBuffer.Free, Separated, AllCut, Wire;
      OrderAgrees(irs + 1 + AckPos(), irs + 1 + |s|);
      WrapDistributes(irs + 1 + pos, 1);
      WrapDistributes(irs + 1 + pos, 2);
      nxt := Add(nxt, 1);
      readBuf.CloseWrite();
      finDone := true;
    }

    /** A FIN at the end of the stream: consumed now if everything before it is here, else deferred. */
    method ReceiveFIN(end: u32, ghost s: seq<byte>) returns (taken: bool)
      requires Valid(s) && end == Wrap(irs + 1 + |s|) && |s| - pos < TWO_31
      modifies this`nxt, this`finDone, this`finReceived, this`finSeq, readBuf`closed
      ensures Valid(s) && readBuf.Free() == old(readBuf.Free())
      ensures finDone <==> pos == |s|
      ensures taken <==> finDone && !old(finDone)
      ensures !finDone ==> finReceived
    {
      hide Wrap, RingBuffer.Contents, RingBuffer.Len, RingBuffer.Free, Separated, AllCut, Wire;
      OrderAgrees(irs + 1 + AckPos(), irs + 1 + |s|);
      if nxt == end {
        ProcessFIN(s);
        return true;
      }
      finReceived := true;
      finSeq := end;
      taken := false;
    }

    /**
     The data and FIN part of `handleEstablished`. The peer's FIN is consumed exactly when it has
     been seen, now or earlier, and every byte before it has been delivered. Reports whether a deferred
     FIN fell due, and whether the segment's own FIN was taken.
     */
    method HandleEstablished(sn: u32, payload: seq<byte>, fin: bool, ghost p: int, ghost s: seq<byte>)
      returns (due: bool, taken: bool)
      requires Valid(s) && !finDone && Arrives(sn, payload, p, s) && |payload| < TWO_31
      requires fin ==> p + |payload| == |s| && |s| - pos < TWO_31
      modifies this`nxt, this`ooo, this`pos, this`g, this`bytesDelivered, this`finReceived, this`finSeq, this`finDone,
               this`dsackBlock, this`hasDSACKBlock, this`dsackAt, this`dsackEnd, readBuf, readBuf.buf
      ensures Valid(s) && Edge() >= old(Edge()) && (readBuf.buf == old(readBuf.buf) || fresh(readBuf.buf))
      ensures var lo, hi := Max(p, old(pos)), Min(p + |payload|, old(Edge()));
              if lo < hi then Accepts(old(pos), old(Held()), lo, hi, pos, Held()) && pos >= old(pos)
              else pos == old(pos) && Held() == old(Held())
      ensures finDone <==> pos == |s| && (fin || (old(finReceived) && old(pos) < pos))
      ensures (due || taken <==> finDone) && !(due && taken) && (taken ==> fin)
      ensures !finDone ==> (finReceived <==> fin || old(finReceived))
      ensures old(Honest()) ==> Honest()
    {
      hide Wrap, Add, Accepts, Reported, RingBuffer.Contents, RingBuffer.Len, RingBuffer.Free, Separated, AllCut, Wire,
        HeldIn;
      due, taken := false, false;
      if |payload| > 0 {
        due := HandleData(sn, payload, p, s);
        if due {
          ProcessFIN(s);
        }
      }
      if fin {
        WrapDistributes(irs + 1 + p, |payload|);
        taken := ReceiveFIN(Add(sn, |payload|), s);
      }
    }

    /**
     The application reads up to `k` bytes: a prefix of what was delivered leaves the buffer, and nothing else changes,
     exactly unless nothing is asked of a full buffer, which loses all of its bytes.
     */
    method AppRead(k: nat, ghost s: seq<byte>) returns (out: seq<byte>)
      requires Valid(s)
      modifies this`taken, readBuf
      ensures readBuf.Valid() && Edge() >= old(Edge()) && readBuf.buf == old(readBuf.buf)
      ensures taken == old(taken) + out && out == old(readBuf.Contents())[..Min(k, old(readBuf.Len()))]
      ensures k == 0 && old(readBuf.full) ==> readBuf.Contents() == []
      ensures Valid(s) <==> k > 0 || !old(readBuf.full)
      ensures Delivered() == old(Delivered()) <==> k > 0 || !old(readBuf.full)
      ensures old(Honest()) ==> Honest()
    {
      hide Wrap, RingBuffer.Contents, RingBuffer.Len, Separated, AllCut, Wire, Reported;
      ghost var c, t := readBuf.Contents(), taken;
      out := readBuf.ReadNoBlock(k);
      taken := taken + out;
      SameWhole(t, c, |out|, readBuf.Contents());
      if k > 0 || !old(readBuf.full) {
        WiderCut(g, s, pos, old(Edge()), Edge());
      }
    }

    /** The peer may send more, as long as no FIN has been seen. */
    lemma MoreStream(s: seq<byte>, s': seq<byte>)
      requires Valid(s) && s <= s' && (finReceived || finDone ==> s == s')
      ensures Valid(s')
    {
    }
  }
}
