/**
 The endpoints as they are coded, connected: every operation of the sender and of the receiver
 is a step of the transition system in `Network`, so its theorems hold of every interleaving.
 */
module EndToEnd {
  import opened Bytes
  import opened SeqNum
  import opened SendQueue
  import opened OutOfOrder
  import opened Reassembly
  import opened Ring
  import opened TcpReceiver
  import opened TcpSender
  import opened Network
  import opened SackMark
  import opened SackReport
  import opened SackExchange

  /** The part of the stream that has been sent at least once. */
  ghost function SentPart(v: View): seq<byte> {
    if 0 <= v.nxt < |v.written| then v.written[..v.nxt] else v.written
  }

  lemma SentPartMarked(v: View, m: iset<int>)
    ensures SentPart(v.(marked := m)) == SentPart(v)
  {
  }

  /** The byte a list holds at position `x`. */
  ghost function ByteAt(g: seq<Chunk>, x: int): byte
    requires Holds(g, x)
  {
    var i :| 0 <= i < |g| && g[i].pos <= x < g[i].End();
    g[i].data[x - g[i].pos]
  }

  ghost function BytesOf(g: seq<Chunk>): imap<int, byte> {
    imap x | Holds(g, x) :: ByteAt(g, x)
  }

  lemma ByteAtIs(g: seq<Chunk>, s: seq<byte>, lo: int, hi: int, x: int)
    requires AllCut(g, s, lo, hi) && Holds(g, x)
    ensures 0 <= x < |s| && ByteAt(g, x) == s[x]
  {
    var i :| 0 <= i < |g| && g[i].pos <= x < g[i].End() && ByteAt(g, x) == g[i].data[x - g[i].pos];
    assert Cut(g[i], s, lo, hi);
  }

  /** Every byte of `m` is the stream's byte at its place. */
  ghost predicate Agrees(m: imap<int, byte>, str: seq<byte>) {
    forall x :: x in m ==> 0 <= x < |str| && m[x] == str[x]
  }

  lemma AgreesKnown(g: seq<Chunk>, str: seq<byte>, at: int, data: seq<byte>, lo: int, hi: int, l: int, h: int)
    requires AllCut(g, str, l, h)
    requires 0 <= at <= lo < hi <= at + |data| <= |str| && data == str[at..at + |data|]
    ensures var known := Known(BytesOf(g), at, data, lo, hi);
            Agrees(known, str) && known.Keys == (iset x | x in HeldIn(g) || lo <= x < hi)
  {
    hide AllCut, ByteAt, Holds;
    var known := Known(BytesOf(g), at, data, lo, hi);
    forall x | x in known
      ensures 0 <= x < |str| && known[x] == str[x]
    {
      if lo <= x < hi {
        assert data[x - at] == str[x];
      } else {
        ByteAtIs(g, str, l, h, x);
      }
    }
  }

  lemma AgreesHeld(g: seq<Chunk>, str: seq<byte>, l: int, h: int)
    requires AllCut(g, str, l, h)
    ensures Agrees(BytesOf(g), str) && BytesOf(g).Keys == HeldIn(g)
  {
    hide AllCut, ByteAt, Holds;
    forall x | x in BytesOf(g)
      ensures 0 <= x < |str| && BytesOf(g)[x] == str[x]
    {
      ByteAtIs(g, str, l, h, x);
    }
  }

  /** Bytes of one stream at the same positions are the same bytes. */
  lemma AgreesSame(a: imap<int, byte>, b: imap<int, byte>, str: seq<byte>)
    requires Agrees(a, str) && Agrees(b, str) && a.Keys == b.Keys
    ensures a == b
  {
    assert forall x :: x in a ==> a[x] == b[x];
  }

  /** Accepting positions, with every byte taken from one stream, is taking the bytes. */
  lemma AcceptsTakes(s: Sys, s': Sys, str: seq<byte>, g: seq<Chunk>, g': seq<Chunk>,
                     at: int, data: seq<byte>, lo: int, hi: int, l: int, h: int, l': int, h': int)
    requires Accepts(s.pos, HeldIn(g), lo, hi, s'.pos, HeldIn(g'))
    requires AllCut(g, str, l, h) && AllCut(g', str, l', h')
    requires s.held == BytesOf(g) && s'.held == BytesOf(g')
    requires 0 <= s.pos <= lo && s.pos <= s'.pos <= |str| && s.delivered == str[..s.pos] && s'.delivered == str[..s'.pos]
    requires 0 <= at <= lo < hi <= at + |data| <= |str| && data == str[at..at + |data|]
    ensures Takes(s, s', at, data, lo, hi)
  {
    hide AllCut, BytesOf, HeldIn, Known, Agrees, Accepts;
    AgreesKnown(g, str, at, data, lo, hi, l, h);
    AgreesHeld(g', str, l', h');
    AcceptsBytes(s, s', str, HeldIn(g), HeldIn(g'), Known(s.held, at, data, lo, hi), lo, hi);
  }

  lemma AcceptsBytes(s: Sys, s': Sys, str: seq<byte>, held: iset<int>, held': iset<int>, known: imap<int, byte>,
                     lo: int, hi: int)
    requires Accepts(s.pos, held, lo, hi, s'.pos, held')
    requires known.Keys == (iset x | x in held || lo <= x < hi) && s'.held.Keys == held'
    requires Agrees(known, str) && Agrees(s'.held, str)
    requires 0 <= s.pos <= s'.pos <= |str| && s.delivered == str[..s.pos] && s'.delivered == str[..s'.pos]
    ensures lo == s.pos ==> s'.pos !in known && forall x :: s.pos <= x < s'.pos ==> x in known
    ensures s.delivered <= s'.delivered
    ensures lo == s.pos ==> forall x :: s.pos <= x < s'.pos ==> s'.delivered[|s.delivered| + x - s.pos] == known[x]
    ensures lo == s.pos ==> s'.held == (imap x | x in known && x > s'.pos :: known[x])
    ensures lo != s.pos ==> s'.pos == s.pos && s'.held == known
  {
    if lo == s.pos {
      var later := imap x | x in known && x > s'.pos :: known[x];
      assert later.Keys == (iset x | x in known.Keys && x > s'.pos);
      AgreesSame(s'.held, later, str);
    } else {
      AgreesSame(s'.held, known, str);
    }
  }

  lemma SameHeldSameBytes(g: seq<Chunk>, g': seq<Chunk>, str: seq<byte>, l: int, h: int, l': int, h': int)
    requires HeldIn(g) == HeldIn(g') && AllCut(g, str, l, h) && AllCut(g', str, l', h')
    ensures BytesOf(g) == BytesOf(g')
  {
    hide AllCut, ByteAt;
    forall x | Holds(g, x)
      ensures Holds(g', x) && ByteAt(g, x) == ByteAt(g', x)
    {
      assert x in HeldIn(g);
      ByteAtIs(g, str, l, h, x);
      ByteAtIs(g', str, l', h', x);
    }
    forall x | Holds(g', x)
      ensures Holds(g, x)
    {
      assert x in HeldIn(g');
    }
  }

  /** What the receiver does with a piece, as a step of the system. */
  lemma PieceTaken(s: Sys, s': Sys, str: seq<byte>, g: seq<Chunk>, g': seq<Chunk>, at: int, data: seq<byte>,
                   edge: int, edge': int)
    requires var lo, hi := Max(at, s.pos), Min(at + |data|, edge);
             if lo < hi then Accepts(s.pos, HeldIn(g), lo, hi, s'.pos, HeldIn(g'))
             else s'.pos == s.pos && HeldIn(g') == HeldIn(g)
    requires AllCut(g, str, s.pos, edge) && AllCut(g', str, s'.pos, edge')
    requires s.held == BytesOf(g) && s'.held == BytesOf(g')
    requires 0 <= s.pos <= s'.pos <= |str| && s.delivered == str[..s.pos] && s'.delivered == str[..s'.pos]
    requires 0 <= at && at + |data| <= |str| && data == str[at..at + |data|]
    ensures var lo, hi := Max(at, s.pos), Min(at + |data|, edge);
            if lo < hi then Takes(s, s', at, data, lo, hi)
            else s'.pos == s.pos && s'.held == s.held && s'.delivered == s.delivered
  {
    hide AllCut, Accepts, HeldIn, BytesOf, Takes;
    var lo, hi := Max(at, s.pos), Min(at + |data|, edge);
    if lo < hi {
      AcceptsTakes(s, s', str, g, g', at, data, lo, hi, s.pos, edge, s'.pos, edge');
    } else {
      SameHeldSameBytes(g, g', str, s.pos, edge, s'.pos, edge');
    }
  }

  /** With the FIN at the end of the stream, that is the arrival of segment `k`. */
  lemma PieceArrives(s: Sys, s': Sys, str: seq<byte>, g: seq<Chunk>, g': seq<Chunk>, k: nat, i: nat, j: nat,
                     edge: int, edge': int)
    requires k < |s.sent| && i <= j <= |s.sent[k].data|
    requires !s.finDone && s' == s.(pos := s'.pos, held := s'.held, delivered := s'.delivered,
                                    finSeen := s'.finSeen, finAt := s'.finAt, finDone := s'.finDone)
    requires AllCut(g, str, s.pos, edge) && AllCut(g', str, s'.pos, edge')
    requires s.held == BytesOf(g) && s'.held == BytesOf(g')
    requires 0 <= s.pos <= s'.pos <= |str| && s.delivered == str[..s.pos] && s'.delivered == str[..s'.pos]
    requires (s.finSeen ==> s.finAt == |str|) && (s'.finSeen ==> s'.finAt == |str|)
    requires var p := s.sent[k];
             var at, data := p.pos + i, p.data[i..j];
             var lo, hi := Max(at, s.pos), Min(at + |data|, edge);
             && 0 <= at && at + |data| <= |str| && data == str[at..at + |data|] && (p.fin ==> at + |data| == |str|)
             && (if lo < hi then Accepts(s.pos, HeldIn(g), lo, hi, s'.pos, HeldIn(g'))
                 else s'.pos == s.pos && HeldIn(g') == HeldIn(g))
             && (s'.finDone <==> s'.pos == |str| && (p.fin || (s.finSeen && s.pos < s'.pos)))
             && (s'.finSeen ==> p.fin || s.finSeen)
    ensures SegmentArrives(s, s', k, i, j, edge)
  {
    hide AllCut, Accepts, HeldIn, BytesOf, Takes;
    var p := s.sent[k];
    PieceTaken(s, s', str, g, g', p.pos + i, p.data[i..j], edge, edge');
  }

  /** The sent part only grows, and is final once the FIN is out. */
  ghost predicate Grows(v: View, v': View) {
    SentPart(v) <= SentPart(v') && (v.fin ==> SentPart(v') == SentPart(v) && v'.fin)
  }

  /** Sending in the code is sending in the system, and the sent part grows. */
  lemma SendingRefines(s: Sys, s': Sys, v: View, v': View, f: Fields, unsent: seq<byte>, f': Fields, unsent': seq<byte>,
                       closed: bool)
    requires Ok(v, f, unsent, closed) && Ok(v', f', unsent', closed) && Onward(v, v')
    requires s.nxt == v.nxt && s.written == v.written && s.sent == v.sent && s' == s.(nxt := v'.nxt, sent := v'.sent)
    ensures Sending(s, s') && Grows(v, v')
  {
    hide Queue, Numbers, Genuine;
  }

  /** Processing an acknowledgement is the acknowledgement step followed by sending. */
  lemma AckRefines(s: Sys, s': Sys, v: View, v': View, f: Fields, unsent: seq<byte>, f': Fields, unsent': seq<byte>,
                   closed: bool)
    requires Ok(v, f, unsent, closed) && Ok(v', f', unsent', closed) && Onward(v.(una := v'.una, marked := v'.marked), v')
    requires s.nxt == v.nxt && s.written == v.written && s.sent == v.sent
    requires s' == s.(una := v'.una, nxt := v'.nxt, sent := v'.sent)
    ensures Sending(s.(una := v'.una), s') && Grows(v, v')
  {
    hide Queue, Numbers, Genuine;
  }

  lemma AckGrows(v: View, v': View, f: Fields, unsent: seq<byte>, f': Fields, unsent': seq<byte>, closed: bool)
    requires Ok(v, f, unsent, closed) && Ok(v', f', unsent', closed)
    requires Onward(v.(una := v'.una, marked := v'.marked), v')
    ensures Grows(v, v')
  {
    hide Queue, Numbers, AllGenuine, Marks;
  }

  lemma WritingGrows(v: View, p: seq<byte>, f: Fields, unsent: seq<byte>, closed: bool)
    requires Ok(v, f, unsent, closed) && (closed ==> p == [])
    ensures Grows(v, v.(written := v.written + p)) && (v.fin ==> p == [])
  {
    hide Queue, AllGenuine, Numbers;
  }

  lemma FinishingGrows(v: View)
    requires v.nxt == |v.written|
    ensures Grows(v, SendsFin(v))
  {
  }

  /** A segment on the wire is a piece of the sent part, and not too far ahead of what is acknowledged. */
  lemma SegmentInRange(v: View, f: Fields, unsent: seq<byte>, closed: bool, k: nat, i: nat, j: nat)
    requires Ok(v, f, unsent, closed) && k < |v.sent| && i <= j <= |v.sent[k].data|
    ensures var s, p := SentPart(v), v.sent[k];
            && 0 <= p.pos + i && p.pos + j <= |s| && p.data[i..j] == s[p.pos + i..p.pos + j]
            && |p.data| <= 65535 && p.pos + i - v.una < TWO_31
            && (p.fin ==> v.fin && i == j == 0 && p.pos == |s| && |s| - v.una < TWO_31)
  {
    hide Queue, Wrap;
    var s, p := SentPart(v), v.sent[k];
    assert Genuine(p, v.written, v.nxt);
    if !p.fin {
      SubSlice(v.written, p.pos, p.data, p.pos + i, p.pos + j);
      assert s[p.pos + i..p.pos + j] == v.written[p.pos + i..p.pos + j];
    }
  }

  lemma FlightInRange(v: View, f: Fields, unsent: seq<byte>, closed: bool)
    requires Ok(v, f, unsent, closed)
    ensures v.nxt - v.una < TWO_31 && |SentPart(v)| <= v.nxt && (v.fin ==> |SentPart(v)| + 1 <= v.nxt)
  {
    hide Queue, Wrap, AllGenuine;
  }

  // Each kind of step.

  lemma ByWriting(s: Sys, s': Sys, p: seq<byte>)
    requires Writes(s, s', p)
    ensures Next(s, s')
  {
  }

  lemma BySending(s: Sys, s': Sys)
    requires Sending(s, s')
    ensures Next(s, s')
  {
  }

  lemma ByFinishing(s: Sys, s': Sys)
    requires Finishes(s, s')
    ensures Next(s, s')
  {
  }

  lemma ByAcknowledging(s: Sys, s': Sys)
    requires Acknowledges(s, s')
    ensures Next(s, s')
  {
  }

  lemma ByAck(s: Sys, s': Sys, k: nat)
    requires AckArrives(s, s', k)
    ensures Next(s, s')
  {
  }

  lemma BySegment(s: Sys, s': Sys, k: nat, i: nat, j: nat, edge: int)
    requires SegmentArrives(s, s', k, i, j, edge)
    ensures Next(s, s')
  {
  }

  /** The oldest entry of the queue starts no later than the receiver's next position. */
  lemma OldestBelow(v: View, f: Fields, unsent: seq<byte>, closed: bool, pos: int, finDone: bool)
    requires Ok(v, f, unsent, closed) && v.una <= (if finDone then pos + 1 else pos)
    requires finDone ==> v.fin && pos == |SentPart(v)|
    ensures f.unacked != [] ==> |v.at| > 0 && v.at[0] <= pos
  {
    hide Wrap, AllGenuine;
    QueueSpan(v, f, unsent, closed);
  }

  /** What the receiver holds lies between the oldest entry of the queue and SND.NXT. */
  lemma LiveCut(g: seq<Chunk>, s: seq<byte>, pos: int, edge: int, lo: int, nxt: int)
    requires AllCut(g, s, pos, edge) && (lo <= pos || pos >= |s|) && |s| <= nxt
    ensures AllCut(g, s, lo, nxt) && AllCut(g, s, pos, nxt)
  {
    forall i | 0 <= i < |g|
      ensures Cut(g[i], s, lo, nxt) && Cut(g[i], s, pos, nxt)
    {
      assert Cut(g[i], s, pos, edge);
    }
  }

  /** What was reported is received, and so is what was marked as long as only reports have been used. */
  ghost predicate SackOk(reports: seq<seq<Span>>, genuine: bool, nxt: int, marked: iset<int>, got: iset<int>) {
    AllBacked(reports, got, nxt) && (genuine ==> Included(marked, got))
  }

  lemma SackOkMore(reports: seq<seq<Span>>, genuine: bool, nxt: int, marked: iset<int>, got: iset<int>, nxt': int,
                   got': iset<int>)
    requires SackOk(reports, genuine, nxt, marked, got) && nxt <= nxt' && Included(got, got')
    ensures SackOk(reports, genuine, nxt', marked, got')
  {
    hide AllBacked;
    AllBackedMore(reports, got, nxt, got', nxt');
  }

  lemma SackOkAhead(reports: seq<seq<Span>>, genuine: bool, nxt: int, marked: iset<int>, got: iset<int>, nxt': int)
    requires SackOk(reports, genuine, nxt, marked, got) && nxt <= nxt'
    ensures SackOk(reports, genuine, nxt', marked, got)
  {
    SackOkMore(reports, genuine, nxt, marked, got, nxt', got);
  }

  lemma SackOkMarked(reports: seq<seq<Span>>, genuine: bool, honest: bool, nxt: int, marked: iset<int>, more: iset<int>,
                     got: iset<int>)
    requires SackOk(reports, genuine, nxt, marked, got) && (honest ==> Included(more, got))
    ensures SackOk(reports, genuine && honest, nxt, marked + more, got)
  {
    hide AllBacked;
  }

  lemma SackOkReport(reports: seq<seq<Span>>, genuine: bool, nxt: int, marked: iset<int>, got: iset<int>,
                     spans: seq<Span>)
    requires SackOk(reports, genuine, nxt, marked, got) && Backed(spans, got, nxt)
    ensures SackOk(reports + [spans], genuine, nxt, marked, got)
  {
    hide Backed, Included;
  }

  lemma SackOkEmpty(nxt: int, got: iset<int>)
    ensures SackOk([], true, nxt, iset{}, got)
  {
  }

  lemma NothingIncluded(got: iset<int>)
    ensures Included(iset{}, got)
  {
  }

  /** Whether a piece is accepted or not, the receiver keeps what it has. */
  lemma GotFollows(pos: int, g: seq<Chunk>, lo: int, hi: int, pos': int, g': seq<Chunk>)
    requires if lo < hi then Accepts(pos, HeldIn(g), lo, hi, pos', HeldIn(g')) && pos <= pos'
             else pos' == pos && HeldIn(g') == HeldIn(g)
    ensures Included(Got(pos, g), Got(pos', g'))
  {
    hide Accepts, Holds;
    if lo < hi {
      GotGrows(pos, g, lo, hi, pos', g');
    } else {
      forall x | x in Got(pos, g)
        ensures x in Got(pos', g')
      {
        assert Holds(g, x) <==> x in HeldIn(g);
        assert Holds(g', x) <==> x in HeldIn(g');
      }
    }
  }

  class Link {
    const snd: Sender
    const rcv: Receiver

    /** Every acknowledgement number the receiver has put on the wire, by position. */
    ghost var acks: seq<int>

    /** Every SACK report the receiver has put on the wire, by position. */
    ghost var reports: seq<seq<Span>>

    /** Every SACK block so far came from one of them, in time and with no 2^32 boundary in the live range. */
    ghost var genuine: bool

    /** The states the system has been through. */
    ghost var run: seq<Sys>

    ghost function Repr(): set<object>
      reads this, snd, snd.writeBuf, rcv, rcv.readBuf
    {
      {this, snd, snd.writeBuf, snd.writeBuf.buf, rcv, rcv.readBuf, rcv.readBuf.buf}
    }

    /** The stored FIN number as a position above `pos`. */
    ghost function FinAt(): int
      reads rcv
    {
      rcv.pos + Sub(rcv.finSeq, rcv.nxt)
    }

    /** The state of the transition system. */
    ghost function State(): Sys
      reads this, snd, rcv, rcv.readBuf, rcv.readBuf.buf
      requires rcv.readBuf.Valid()
    {
      var fin := rcv.finReceived && !rcv.finDone;
      Sys(snd.v.written, snd.v.una, snd.v.nxt, snd.v.fin, snd.v.sent,
          rcv.pos, BytesOf(rcv.g), fin, if fin then FinAt() else 0, rcv.finDone, rcv.Delivered(), acks)
    }

    /** While only the sender moves, only its part of the state does. */
    twostate lemma SenderMoves()
      requires old(rcv.readBuf.Valid()) && unchanged(rcv) && unchanged(rcv.readBuf) && unchanged(rcv.readBuf.buf)
      requires acks == old(acks)
      ensures rcv.readBuf.Valid()
      ensures State() == old(State()).(written := snd.v.written, una := snd.v.una, nxt := snd.v.nxt, fin := snd.v.fin,
                                       sent := snd.v.sent)
    {
    }

    /** The two ends are in order and agree about the stream. */
    ghost predicate Joined()
      reads Repr()
    {
      && snd.writeBuf != rcv.readBuf && snd.writeBuf.buf != rcv.readBuf.buf && rcv.irs == snd.iss
      && snd.Valid() && snd.Steady()
      && rcv.Valid(SentPart(snd.v)) && rcv.Honest()
      && (rcv.finReceived || rcv.finDone ==> snd.v.fin)
      && snd.v.una <= rcv.AckPos()
      && (forall k :: 0 <= k < |acks| ==> acks[k] <= rcv.AckPos())
      && SackOk(reports, genuine, snd.v.nxt, snd.v.marked, Got(rcv.pos, rcv.g))
    }

    /** The operations so far are a run of the system, and this is where it has come to. */
    ghost predicate Ran()
      reads this, snd, rcv, rcv.readBuf, rcv.readBuf.buf
      requires rcv.readBuf.Valid()
    {
      IsRun(run) && run[|run| - 1] == State()
    }

    ghost predicate Valid()
      reads Repr()
    {
      Joined() && Ran()
    }

    constructor (snd: Sender, rcv: Receiver)
      requires snd.Valid() && snd.Steady() && snd.v == View([], 0, 0, [0], false, [], iset{})
      requires rcv.Valid([]) && rcv.Honest() && !rcv.finReceived && !rcv.finDone && rcv.g == [] && rcv.irs == snd.iss
      requires snd.writeBuf != rcv.readBuf && snd.writeBuf.buf != rcv.readBuf.buf
      ensures Valid() && Init(State()) && this.snd == snd && this.rcv == rcv && genuine && reports == []
    {
      hide Ok, SackOk, Got, Sender.Steady, Receiver.Honest, Wrap, RingBuffer.Contents, RingBuffer.Len;
      this.snd, this.rcv := snd, rcv;
      acks, reports, genuine := [], [], true;
      new;
      assert BytesOf([]) == imap[];
      SackOkEmpty(0, Got(rcv.pos, rcv.g));
      run := [State()];
    }

    /** The receiver stays in order while the sender moves on. */
    lemma FollowStream(v: View, v': View)
      requires rcv.Valid(SentPart(v)) && Grows(v, v') && (rcv.finReceived || rcv.finDone ==> v.fin)
      ensures rcv.Valid(SentPart(v'))
    {
      hide SentPart;
      rcv.MoreStream(SentPart(v), SentPart(v'));
    }

    lemma Follow(v: View, v': View)
      requires rcv.Valid(SentPart(v)) && Grows(v, v') && (rcv.finReceived || rcv.finDone ==> v.fin)
      requires SackOk(reports, genuine, v.nxt, v.marked, Got(rcv.pos, rcv.g)) && v.nxt <= v'.nxt && v'.marked == v.marked
      ensures rcv.Valid(SentPart(v')) && SackOk(reports, genuine, v'.nxt, v'.marked, Got(rcv.pos, rcv.g))
    {
      hide SentPart, SackOk, Got, Grows, Receiver.Valid;
      FollowStream(v, v');
      SackOkAhead(reports, genuine, v.nxt, v.marked, Got(rcv.pos, rcv.g), v'.nxt);
    }

    /** The run goes on to the present state. */
    ghost method Record()
      requires Joined() && IsRun(run) && Next(run[|run| - 1], State())
      modifies this`run
      ensures Valid() && Repr() == old(Repr()) && State() == old(State())
    {
      hide Ok, SackOk, Got, Separated, AllCut, Wire, BytesOf, RingBuffer.Contents, RingBuffer.Len, SentPart, Next,
        IsRun, Sender.Steady, Reported;
      RunStep(run, State());
      run := run + [State()];
    }

    /** The run goes on to the present state in two steps. */
    ghost method RecordVia(mid: Sys)
      requires Joined() && IsRun(run) && Next(run[|run| - 1], mid) && Next(mid, State())
      modifies this`run
      ensures Valid() && Repr() == old(Repr()) && State() == old(State())
    {
      hide Ok, SackOk, Got, Separated, AllCut, Wire, BytesOf, RingBuffer.Contents, RingBuffer.Len, SentPart, Next,
        IsRun, Sender.Steady, Reported;
      RunStep(run, mid);
      RunStep(run + [mid], State());
      run := run + [mid] + [State()];
    }

    /** The sender's application writes. */
    method AppWrite(p: seq<byte>) returns (n: nat)
      requires Valid()
      modifies this`run, snd`v, snd.writeBuf, snd.writeBuf.buf
      ensures Valid() && Repr() == old(Repr()) && n <= |p| && Writes(old(State()), State(), p[..n])
    {
      hide Ok, SackOk, Got, Separated, AllCut, Wire, BytesOf, RingBuffer.Contents, RingBuffer.Len, SentPart, Grows,
        Next, IsRun;
      ghost var v, f, unsent, closed := snd.v, snd.F(), snd.writeBuf.Contents(), snd.writeBuf.closed;
      n := snd.AppWrite(p);
      WritingGrows(v, p[..n], f, unsent, closed);
      Follow(v, snd.v);
      ByWriting(old(State()), State(), p[..n]);
      Record();
    }

    /** The sender's application shuts its side down. */
    method AppClose()
      requires Valid()
      modifies snd.writeBuf`closed
      ensures Valid() && Repr() == old(Repr()) && State() == old(State()) && snd.writeBuf.closed
    {
      hide Ok, SackOk, Got, Separated, AllCut, Wire, BytesOf, RingBuffer.Contents, RingBuffer.Len, SentPart, Next,
        IsRun;
      snd.AppCloseWrite();
    }

    /** The receiver's application reads; a read of nothing must not meet a full buffer. */
    method AppRead(k: nat) returns (out: seq<byte>)
      requires Valid() && (k > 0 || !rcv.readBuf.full)
      modifies rcv`taken, rcv.readBuf
      ensures Valid() && Repr() == old(Repr()) && State() == old(State()) && rcv.taken == old(rcv.taken) + out
    {
      hide Ok, SackOk, Got, Separated, AllCut, Wire, BytesOf, RingBuffer.Contents, RingBuffer.Len, SentPart, Next,
        IsRun;
      out := rcv.AppRead(k, SentPart(snd.v));
    }

    /** The sender sends what it may. */
    method Transmit()
      requires Valid()
      modifies this`run, snd, snd.writeBuf
      ensures Valid() && Repr() == old(Repr()) && Sending(old(State()), State())
    {
      hide Ok, SackOk, Got, Separated, AllCut, Wire, BytesOf, RingBuffer.Contents, RingBuffer.Len, SentPart, Grows,
        Sending, Sender.MaySend, Next, IsRun;
      ghost var s, v, f, unsent, closed := State(), snd.v, snd.F(), snd.writeBuf.Contents(), snd.writeBuf.closed;
      snd.SendPending();
      SendingRefines(s, State(), v, snd.v, f, unsent, snd.F(), snd.writeBuf.Contents(), closed);
      Follow(v, snd.v);
      BySending(s, State());
      Record();
    }

    /** The retransmission timer fires. */
    method Timeout()
      requires Valid()
      modifies this`run, snd
      ensures Valid() && Repr() == old(Repr()) && Sending(old(State()), State())
    {
      hide Ok, SackOk, Got, BytesOf, RingBuffer.Contents, RingBuffer.Len, SentPart, Grows, Sending, Next, IsRun,
        Receiver.Valid, Receiver.Honest;
      rcv.Basics(SentPart(snd.v));
      ghost var s, v, f, unsent, closed := State(), snd.v, snd.F(), snd.writeBuf.Contents(), snd.writeBuf.closed;
      snd.HandleRTO();
      SendingRefines(s, State(), v, snd.v, f, unsent, snd.F(), snd.writeBuf.Contents(), closed);
      Follow(v, snd.v);
      BySending(s, State());
      Record();
    }

    /** The zero-window timer fires. */
    method Probe()
      requires Valid() && snd.v.nxt - snd.v.una < MAX_FLIGHT
      modifies this`run, snd, snd.writeBuf
      ensures Valid() && Repr() == old(Repr()) && Sending(old(State()), State())
    {
      hide Ok, SackOk, Got, BytesOf, RingBuffer.Contents, RingBuffer.Len, SentPart, Grows, Sending, Next, IsRun,
        Receiver.Valid, Receiver.Honest;
      rcv.Basics(SentPart(snd.v));
      ghost var s, v, f, unsent, closed := State(), snd.v, snd.F(), snd.writeBuf.Contents(), snd.writeBuf.closed;
      snd.SendZeroWindowProbe();
      SendingRefines(s, State(), v, snd.v, f, unsent, snd.F(), snd.writeBuf.Contents(), closed);
      Follow(v, snd.v);
      BySending(s, State());
      Record();
    }

    /** Everything written has been sent and the application is done: the FIN goes out. */
    method Finish()
      requires Valid() && !snd.v.fin && snd.writeBuf.closed && snd.writeBuf.Contents() == []
      modifies this`run, snd
      ensures Valid() && Repr() == old(Repr()) && Finishes(old(State()), State())
    {
      hide Ok, SackOk, Got, Separated, AllCut, Wire, BytesOf, RingBuffer.Contents, RingBuffer.Len, SentPart, Grows,
        Next, IsRun;
      ghost var v := snd.v;
      snd.SendFIN();
      FinishingGrows(v);
      Follow(v, snd.v);
      ByFinishing(old(State()), State());
      Record();
    }

    /** The receiver sends an acknowledgement. */
    ghost method Acknowledge()
      requires Valid()
      modifies this`acks, this`run
      ensures Valid() && Repr() == old(Repr()) && Acknowledges(old(State()), State())
    {
      hide Ok, SackOk, Got, Separated, AllCut, Wire, BytesOf, RingBuffer.Contents, RingBuffer.Len, SentPart, Next,
        IsRun;
      acks := acks + [rcv.AckPos()];
      ByAcknowledging(old(State()), State());
      Record();
    }

    /** The receiver sends an acknowledgement with SACK blocks, which stand for a report of what it has. */
    method SendReport(tsEnabled: bool) returns (blocks: seq<SackBlock>)
      requires Valid()
      modifies this`acks, this`reports, this`run, rcv`hasDSACKBlock, rcv`dsackBlock
      ensures Valid() && Repr() == old(Repr()) && Acknowledges(old(State()), State())
      ensures |reports| == old(|reports|) + 1 && reports[..old(|reports|)] == old(reports)
      ensures blocks == BlocksFor(snd.iss + 1, reports[old(|reports|)])
    {
      hide Joined, IsRun, BytesOf, BlocksFor, RingBuffer.Contents, RingBuffer.Len;
      blocks := MakeReport(tsEnabled);
      Acknowledge();
    }

    /** The report itself does not move the system. */
    method MakeReport(tsEnabled: bool) returns (blocks: seq<SackBlock>)
      requires Valid()
      modifies this`reports, rcv`hasDSACKBlock, rcv`dsackBlock
      ensures Valid() && Repr() == old(Repr()) && State() == old(State())
      ensures |reports| == old(|reports|) + 1 && reports[..old(|reports|)] == old(reports)
      ensures blocks == BlocksFor(snd.iss + 1, reports[old(|reports|)])
    {
      hide Ok, SackOk, Got, Separated, AllCut, Wire, BytesOf, RingBuffer.Contents, RingBuffer.Len, SentPart, IsRun,
        BlocksFor, Report, Shown, Backed, Wrap, NewestFirst, Reportable, Sender.Steady;
      ghost var limit, spans := if tsEnabled then 3 else 4, Spans(tsEnabled);
      ReportReady(limit);
      blocks := SackBlocks(rcv, tsEnabled, SentPart(snd.v));
      SackOkReport(reports, genuine, snd.v.nxt, snd.v.marked, Got(rcv.pos, rcv.g), spans);
      reports := reports + [spans];
    }

    /** What is going to be reported next. */
    ghost function Spans(tsEnabled: bool): seq<Span>
      reads rcv
    {
      Report(rcv.hasDSACKBlock, rcv.dsackAt, rcv.dsackEnd, Shown(rcv.irs + 1, rcv.g), if tsEnabled then 3 else 4)
    }

    /** The next report is backed by what has been received, and its blocks stand for it. */
    lemma ReportReady(limit: nat)
      requires Joined()
      ensures var spans := Report(rcv.hasDSACKBlock, rcv.dsackAt, rcv.dsackEnd, Shown(rcv.irs + 1, rcv.g), limit);
              var dsack := if rcv.hasDSACKBlock then [rcv.dsackBlock] else [];
              && Backed(spans, Got(rcv.pos, rcv.g), snd.v.nxt)
              && dsack + NewestFirst(Reportable(rcv.irs + 1, rcv.g), limit - |dsack|) == BlocksFor(snd.iss + 1, spans)
    {
      hide Ok, SackOk, Got, SentPart, AllCut, Wire, Separated, Backed, Report, Shown, NewestFirst, Reportable,
        BlocksFor, Wrap, RingBuffer.Contents, RingBuffer.Len;
      var s := SentPart(snd.v);
      FlightInRange(snd.v, snd.F(), snd.writeBuf.Contents(), snd.writeBuf.closed);
      LiveCut(rcv.g, s, rcv.pos, rcv.Edge(), rcv.pos, snd.v.nxt);
      assert rcv.hasDSACKBlock ==> forall x :: rcv.dsackAt <= x < rcv.dsackEnd ==> x < rcv.pos || Holds(rcv.g, x) by {
        assert forall x :: x in HeldIn(rcv.g) <==> Holds(rcv.g, x);
      }
      ReportIsBlocks(rcv.irs + 1, rcv.hasDSACKBlock, rcv.dsackAt, rcv.dsackEnd, rcv.g, limit);
      ReportBacked(rcv.irs + 1, rcv.hasDSACKBlock, rcv.dsackAt, rcv.dsackEnd, rcv.g, s, limit, rcv.pos, snd.v.nxt);
    }

    /**
     Acknowledgement `k` reaches the sender, with any window and any SACK blocks. The one thing
     ruled out is an acknowledgement so old that the numbers have gone half way round since.
     */
    method DeliverAck(ack: u32, wnd: nat, blocks: seq<SackBlock>, ghost k: nat)
      requires Valid() && k < |acks| && ack == Wrap(snd.iss + 1 + acks[k]) && wnd <= MAX_WND
      requires acks[k] >= snd.v.una - TWO_31
      modifies this`run, this`genuine, snd, snd.writeBuf
      ensures Valid() && Repr() == old(Repr())
      ensures genuine == (old(genuine) && (blocks == [] || old(FromReport(blocks) && NoBoundary())))
      ensures snd.mss <= old(snd.cwnd) < TWO_31 ==> snd.mss <= snd.cwnd
      ensures var mid := old(State()).(una := snd.v.una); AckArrives(old(State()), mid, k) && Sending(mid, State())
    {
      hide Joined, Ok, IsRun, Next, Sending, Extends, BytesOf, RingBuffer.Contents, RingBuffer.Len, FromReport,
        NoBoundary, Grows;
      Readable();
      ghost var s, v, f, unsent, closed := State(), snd.v, snd.F(), snd.writeBuf.Contents(), snd.writeBuf.closed;
      AcceptAck(ack, wnd, blocks, k);
      Readable();
      AckRefines(s, State(), v, snd.v, f, unsent, snd.F(), snd.writeBuf.Contents(), closed);
      ghost var mid := s.(una := snd.v.una);
      ByAck(s, mid, k);
      BySending(mid, State());
      RecordVia(mid);
    }

    lemma Readable()
      requires Joined()
      ensures rcv.readBuf.Valid() && snd.Valid() && snd.Steady()
      ensures snd.writeBuf != rcv.readBuf && snd.writeBuf.buf != rcv.readBuf.buf
    {
      hide Ok, SackOk, Separated, AllCut, Wire, RingBuffer.Contents, RingBuffer.Len;
    }

    /** The sender's part of an acknowledgement's arrival. */
    method AcceptAck(ack: u32, wnd: nat, blocks: seq<SackBlock>, ghost k: nat)
      requires Joined() && k < |acks| && ack == Wrap(snd.iss + 1 + acks[k]) && wnd <= MAX_WND
      requires acks[k] >= snd.v.una - TWO_31
      modifies this`genuine, snd, snd.writeBuf
      ensures Joined() && Repr() == old(Repr())
      ensures genuine == (old(genuine) && (blocks == [] || old(FromReport(blocks) && NoBoundary())))
      ensures snd.mss <= old(snd.cwnd) < TWO_31 ==> snd.mss <= snd.cwnd
      ensures Onward(old(snd.v).(una := snd.v.una, marked := snd.v.marked), snd.v)
      ensures snd.v.una == if old(snd.v.una) < acks[k] <= old(snd.v.nxt) then acks[k] else old(snd.v.una)
      ensures snd.writeBuf.closed == old(snd.writeBuf.closed)
      ensures State() == old(State()).(written := snd.v.written, una := snd.v.una, nxt := snd.v.nxt, fin := snd.v.fin,
                                       sent := snd.v.sent)
    {
      hide Joined, Ok, Sender.Steady, State, SackOk, Got, Covering, Regular, Extends, FromReport, NoBoundary,
        RingBuffer.Contents, RingBuffer.Len;
      Readable();
      AckInRange(k);
      ghost var v, honest := snd.v, blocks == [] || (FromReport(blocks) && NoBoundary());
      ghost var still, got := genuine && honest, Got(rcv.pos, rcv.g);
      ArrivingBlocks(blocks, ack, honest);
      snd.HandleEstablishedACK(ack, wnd, blocks, acks[k]);
      genuine := still;
      SackOkAhead(reports, still, v.nxt, snd.v.marked, got, snd.v.nxt);
      AfterAck(k);
      SenderMoves();
    }

    lemma AckInRange(k: nat)
      requires Joined() && k < |acks|
      ensures acks[k] - snd.v.una < TWO_31
    {
      hide Ok, SackOk, SentPart, Separated, AllCut, Wire, RingBuffer.Contents, RingBuffer.Len;
      FlightInRange(snd.v, snd.F(), snd.writeBuf.Contents(), snd.writeBuf.closed);
    }

    /** The two ends still agree when the sender has taken acknowledgement `k` and sent on. */
    twostate lemma AfterAck(k: nat)
      requires old(Joined()) && unchanged(rcv) && unchanged(rcv.readBuf) && unchanged(rcv.readBuf.buf)
      requires acks == old(acks) && k < |acks| && snd.Valid() && snd.Steady()
      requires snd.writeBuf.buf == old(snd.writeBuf.buf) && snd.writeBuf.closed == old(snd.writeBuf.closed)
      requires Onward(old(snd.v).(una := snd.v.una, marked := snd.v.marked), snd.v)
      requires snd.v.una == old(snd.v.una) || snd.v.una == acks[k]
      requires SackOk(reports, genuine, snd.v.nxt, snd.v.marked, Got(rcv.pos, rcv.g))
      ensures Joined()
    {
      hide Ok, SackOk, Got, SentPart, Grows, Sender.Steady, Receiver.Valid, Receiver.Honest, RingBuffer.Contents,
        RingBuffer.Len;
      AckGrows(old(snd.v), snd.v, old(snd.F()), old(snd.writeBuf.Contents()), snd.F(), snd.writeBuf.Contents(),
               snd.writeBuf.closed);
      FollowStream(old(snd.v), snd.v);
    }

    /**
     The same once either side has sent its FIN: CLOSE_WAIT, FIN_WAIT_1, CLOSING and LAST_ACK handle the number without
     looking at SACK blocks, and differ in whether they take over the window and measure the echoed timestamp.
     */
    method DeliverClosingAck(ack: u32, wnd: nat, window: bool, largest: bool, echo: bool, ghost k: nat)
      requires Valid() && k < |acks| && ack == Wrap(snd.iss + 1 + acks[k]) && wnd <= MAX_WND
      requires acks[k] >= snd.v.una - TWO_31
      modifies this`run, snd, snd.writeBuf
      ensures Valid() && Repr() == old(Repr())
      ensures var mid := old(State()).(una := snd.v.una); AckArrives(old(State()), mid, k) && Sending(mid, State())
    {
      hide Ok, SackOk, Got, Separated, AllCut, Wire, BytesOf, RingBuffer.Contents, RingBuffer.Len, SentPart, Grows,
        Sending, Extends, Next, IsRun;
      ghost var s, v, f, unsent, closed := State(), snd.v, snd.F(), snd.writeBuf.Contents(), snd.writeBuf.closed;
      FlightInRange(v, f, unsent, closed);
      snd.HandleClosingACK(ack, wnd, window, largest, echo, acks[k]);
      AckRefines(s, State(), v, snd.v, f, unsent, snd.F(), snd.writeBuf.Contents(), closed);
      Follow(v, snd.v);
      ghost var mid := s.(una := snd.v.una);
      ByAck(s, mid, k);
      BySending(mid, State());
      RecordVia(mid);
    }

    /** FIN_WAIT_2 only takes over the window. */
    method DeliverWindow(wnd: nat)
      requires Valid() && wnd <= MAX_WND
      modifies snd`wnd
      ensures Valid() && Repr() == old(Repr()) && State() == old(State()) && snd.wnd == wnd
    {
      hide Ok, SackOk, Got, Separated, AllCut, Wire, BytesOf, RingBuffer.Contents, RingBuffer.Len, SentPart, Next,
        IsRun;
      snd.UpdateWindow(wnd);
    }

    /** The write buffer is enlarged on the first write. */
    method GrowWriteBuffer(size: nat)
      requires Valid()
      modifies snd.writeBuf
      ensures Valid() && fresh(Repr() - old(Repr())) && State() == old(State())
    {
      hide Ok, SackOk, Got, Separated, AllCut, Wire, BytesOf, RingBuffer.Contents, RingBuffer.Len, SentPart, Next,
        IsRun;
      snd.GrowBuffer(size);
    }

    /** The blocks come from a report that was sent, and not half the number space ago. */
    ghost predicate FromReport(blocks: seq<SackBlock>)
      reads this, snd
    {
      exists k :: 0 <= k < |reports| && blocks == BlocksFor(snd.iss + 1, reports[k]) && Recent(reports[k], snd.v.nxt)
    }

    /** No 2^32 boundary lies between the start of the queue and SND.NXT. */
    ghost predicate NoBoundary()
      reads snd
    {
      |snd.v.at| > 0 && SameWrap(snd.iss + 1 + snd.v.at[0], snd.iss + 1 + snd.v.nxt)
    }

    /** What blocks from a report are going to mark has been received. */
    lemma ArrivingBlocks(blocks: seq<SackBlock>, ack: u32, honest: bool)
      requires Joined() && (honest ==> blocks == [] || (FromReport(blocks) && NoBoundary()))
      ensures var marked := snd.v.marked + Covering(Regular(blocks, ack), snd.unacked, snd.v.at);
              SackOk(reports, genuine && honest, snd.v.nxt, marked, Got(rcv.pos, rcv.g))
    {
      hide Ok, SackOk, Covering, Regular, Got, Included, FromReport, NoBoundary, Receiver.Valid, RingBuffer.Contents,
        RingBuffer.Len, Wrap;
      var more, got := Covering(Regular(blocks, ack), snd.unacked, snd.v.at), Got(rcv.pos, rcv.g);
      if honest && blocks == [] {
        CoveringNothing(snd.unacked, snd.v.at, ack);
        NothingIncluded(got);
      } else if honest {
        ReportedBlocks(blocks, ack);
      }
      SackOkMarked(reports, genuine, honest, snd.v.nxt, snd.v.marked, more, got);
    }

    lemma ReportedBlocks(blocks: seq<SackBlock>, ack: u32)
      requires Joined() && FromReport(blocks) && NoBoundary()
      ensures Included(Covering(Regular(blocks, ack), snd.unacked, snd.v.at), Got(rcv.pos, rcv.g))
    {
      hide Ok, Covering, Regular, Got, SameWrap, Backed, Wrap, Tiles, Included, BlocksFor, Recent, Receiver.Valid,
        RingBuffer.Contents, RingBuffer.Len;
      var k :| 0 <= k < |reports| && blocks == BlocksFor(snd.iss + 1, reports[k]) && Recent(reports[k], snd.v.nxt);
      QueueSpan(snd.v, snd.F(), snd.writeBuf.Contents(), snd.writeBuf.closed);
      assert Backed(reports[k], Got(rcv.pos, rcv.g), snd.v.nxt);
      LateSound(snd.iss + 1, reports[k], ack, snd.unacked, snd.v.at, snd.v.written, Got(rcv.pos, rcv.g));
    }

    /** The receiver's part of a segment's arrival. */
    method Accept(sn: u32, payload: seq<byte>, fin: bool, ghost k: nat, ghost i: nat, ghost j: nat)
      requires Joined() && !rcv.finDone && k < |snd.v.sent| && i <= j <= |snd.v.sent[k].data|
      requires sn == Wrap(rcv.irs + 1 + snd.v.sent[k].pos + i)
      requires payload == snd.v.sent[k].data[i..j] && fin == snd.v.sent[k].fin
      requires snd.v.sent[k].pos + i >= rcv.AckPos() - TWO_31
      modifies rcv, rcv.readBuf, rcv.readBuf.buf
      ensures Joined() && fresh(Repr() - old(Repr())) && rcv.taken == old(rcv.taken)
      ensures SegmentArrives(old(State()), State(), k, i, j, old(rcv.Edge()))
    {
      hide Ok, SackOk, Got, Included, SegmentArrives, Accepts, FinAt, Separated, AllCut, Wire, HeldIn, BytesOf,
        RingBuffer.Contents, RingBuffer.Len, SentPart, Wrap, Sub, Add, RingBuffer.Free;
      ghost var s, str, at, edge := State(), SentPart(snd.v), snd.v.sent[k].pos + i, rcv.Edge();
      ghost var g := rcv.g;
      FinPosition(str);
      SegmentInRange(snd.v, snd.F(), snd.writeBuf.Contents(), snd.writeBuf.closed, k, i, j);
      var due, taken := rcv.HandleEstablished(sn, payload, fin, at, str);
      FinPosition(str);
      GotFollows(s.pos, g, Max(at, s.pos), Min(at + |payload|, edge), rcv.pos, rcv.g);
      SackOkMore(reports, genuine, snd.v.nxt, snd.v.marked, Got(s.pos, g), snd.v.nxt, Got(rcv.pos, rcv.g));
      PieceArrives(s, State(), str, g, rcv.g, k, i, j, edge, rcv.Edge());
    }

    /**
     The piece `[i, j)` of segment `k` reaches the receiver while it is established, or the whole of
     a FIN. Again only a segment from half the sequence space ago is ruled out.
     */
    method DeliverSegment(sn: u32, payload: seq<byte>, fin: bool, ghost k: nat, ghost i: nat, ghost j: nat)
      requires Valid() && !rcv.finDone && k < |snd.v.sent| && i <= j <= |snd.v.sent[k].data|
      requires sn == Wrap(rcv.irs + 1 + snd.v.sent[k].pos + i)
      requires payload == snd.v.sent[k].data[i..j] && fin == snd.v.sent[k].fin
      requires snd.v.sent[k].pos + i >= rcv.AckPos() - TWO_31
      modifies this`run, rcv, rcv.readBuf, rcv.readBuf.buf
      ensures Valid() && fresh(Repr() - old(Repr())) && rcv.taken == old(rcv.taken)
      ensures SegmentArrives(old(State()), State(), k, i, j, old(rcv.Edge()))
    {
      hide Next, IsRun, SegmentArrives, Ok, SackOk, Got, Separated, AllCut, Wire, Reported, BytesOf,
        RingBuffer.Contents, RingBuffer.Len, SentPart, Sender.Steady;
      ghost var s, edge := State(), rcv.Edge();
      Accept(sn, payload, fin, k, i, j);
      BySegment(s, State(), k, i, j, edge);
      Record();
    }

    /** What the receiver reports when it is asked for SACK blocks, by position. */
    ghost function Reports(tsEnabled: bool): seq<Span>
      reads rcv
    {
      Report(rcv.hasDSACKBlock, rcv.dsackAt, rcv.dsackEnd, rcv.g, if tsEnabled then 3 else 4)
    }

    /** The live range: the queue spans it, and what the receiver holds lies in it. */
    lemma LiveRange()
      requires Joined()
      ensures |snd.v.at| == |snd.unacked| + 1 && Tiles(snd.unacked, snd.v.at, snd.iss + 1, snd.v.written)
      ensures Reported(rcv.hasDSACKBlock, rcv.dsackBlock, snd.iss + 1, rcv.dsackAt, rcv.dsackEnd, rcv.pos, HeldIn(rcv.g))
      ensures rcv.irs == snd.iss && rcv.Valid(SentPart(snd.v))
      ensures SackOk(reports, genuine, snd.v.nxt, snd.v.marked, Got(rcv.pos, rcv.g))
      ensures var at, n := snd.v.at, |snd.unacked|;
              && at[n] == snd.v.nxt < at[0] + TWO_31 && rcv.pos <= rcv.AckPos() <= rcv.pos + 1
              && rcv.nxt == Wrap(snd.iss + 1 + rcv.AckPos())
              && (n > 0 ==> at[0] <= rcv.pos <= at[n] && AllCut(rcv.g, SentPart(snd.v), at[0], at[n]) &&
                            AllCut(rcv.g, SentPart(snd.v), rcv.pos, at[n]))
    {
      hide Ok, SentPart, AllCut, Wire, Separated, Tiles, Reported, RingBuffer.Contents, RingBuffer.Len, Wrap, IsRun;
      var f, s := snd.F(), SentPart(snd.v);
      QueueSpan(snd.v, f, snd.writeBuf.Contents(), snd.writeBuf.closed);
      FlightInRange(snd.v, f, snd.writeBuf.Contents(), snd.writeBuf.closed);
      rcv.Basics(s);
      rcv.HeldInWindow(s);
      OldestBelow(snd.v, f, snd.writeBuf.Contents(), snd.writeBuf.closed, rcv.pos, rcv.finDone);
      if |snd.unacked| > 0 {
        LiveCut(rcv.g, s, rcv.pos, rcv.Edge(), snd.v.at[0], snd.v.nxt);
      }
    }

    /**
     The receiver reports what it holds and the sender marks its queue by it. When no 2^32 boundary lies in the live
     range, exactly the entries inside a reported range are marked, and every byte of a newly marked entry is held.
     */
    method ReportSack(tsEnabled: bool)
      requires Valid() && |snd.v.at| > 0 && SameWrap(snd.iss + 1 + snd.v.at[0], snd.iss + 1 + snd.v.nxt)
      requires rcv.hasDSACKBlock ==> rcv.AckPos() - rcv.dsackEnd < TWO_31
      modifies rcv`hasDSACKBlock, rcv`dsackBlock, snd`unacked, snd`dsackSeen, snd`v
      ensures Valid() && Repr() == old(Repr()) && State() == old(State()) && snd.v == old(snd.v).(marked := snd.v.marked)
      ensures |snd.unacked| == old(|snd.unacked|) && |snd.v.at| == |snd.unacked| + 1
      ensures forall i :: 0 <= i < |snd.unacked| ==>
                (snd.unacked[i].sacked <==>
                 old(snd.unacked)[i].sacked ||
                 Inside(Used(old(Reports(tsEnabled)), rcv.AckPos()), snd.v.at[i], snd.v.at[i] + |snd.unacked[i].data|))
      ensures forall i :: 0 <= i < |snd.unacked| && snd.unacked[i].sacked && !old(snd.unacked)[i].sacked ==>
                HeldSpan(rcv.g, Span(snd.v.at[i], snd.v.at[i] + |snd.unacked[i].data|))
    {
      hide Joined, Ran, State, Ok, SackOk, Got, Covering, SentPart, SameWrap, AllCut, HeldIn, Tiles, Inside, Used,
        Report, HeldSpan, CoveredBy, Regular, NewestFirst, Reportable, Reported, RingBuffer.Contents, RingBuffer.Len,
        Wrap, Receiver.Valid, Sender.Steady;
      ghost var s, at, w, q := SentPart(snd.v), snd.v.at, snd.v.written, snd.unacked;
      Readable();
      LiveRange();
      ghost var got := Got(rcv.pos, rcv.g);
      var blocks := SackBlocks(rcv, tsEnabled, SentPart(snd.v));
      snd.ProcessSACKBlocks(blocks, rcv.nxt);
      ExchangeAll(snd.iss + 1, old(rcv.hasDSACKBlock), old(rcv.dsackBlock), rcv.dsackAt, rcv.dsackEnd, rcv.g, s,
                  if tsEnabled then 3 else 4, rcv.pos, rcv.AckPos(), blocks, q, at, w);
      SackOkMarked(reports, genuine, true, snd.v.nxt, old(snd.v.marked), Covering(Regular(blocks, rcv.nxt), q, at), got);
      AfterMarking();
    }

    /** Reporting and marking leave the two ends where they were. */
    twostate lemma AfterMarking()
      requires old(Valid()) && rcv.Valid(SentPart(old(snd.v))) && !rcv.hasDSACKBlock && snd.Valid()
      requires unchanged(rcv`pos, rcv`g, rcv`nxt, rcv`finReceived, rcv`finDone, rcv`finSeq, rcv`taken)
      requires unchanged(rcv.readBuf) && unchanged(rcv.readBuf.buf) && unchanged(snd.writeBuf) && unchanged(this)
      requires unchanged(snd`rtt, snd`ssthresh, snd`lossSeen, snd`inRecovery, snd`recPos, snd`recoveryPoint)
      requires snd.v == old(snd.v).(marked := snd.v.marked)
      requires SackOk(reports, genuine, snd.v.nxt, snd.v.marked, Got(rcv.pos, rcv.g))
      ensures Valid() && State() == old(State())
    {
      hide Ok, SackOk, Got, SentPart, BytesOf, Wrap, Separated, AllCut, Wire, IsRun, RingBuffer.Contents,
        RingBuffer.Len;
      SentPartMarked(old(snd.v), snd.v.marked);
    }

    /**
     With reports late, repeated and out of order: as long as the sender has only been given blocks of reports, every byte
     of an entry that it has marked is delivered or held.
     */
    lemma MarkedIsReceived(i: nat, x: int)
      requires Valid() && genuine && i < |snd.unacked| && snd.unacked[i].sacked
      ensures i < |snd.v.at|
      ensures snd.v.at[i] <= x < snd.v.at[i] + |snd.unacked[i].data| ==> x < rcv.pos || Holds(rcv.g, x)
    {
      hide Queue, Numbers, AllGenuine, Tiles, AllBacked, Holds, Wrap, IsRun, Receiver.Valid, Reported,
        RingBuffer.Contents, RingBuffer.Len;
      QueueSpan(snd.v, snd.F(), snd.writeBuf.Contents(), snd.writeBuf.closed);
      assert Contains(snd.v.marked, snd.v.at[i], snd.v.at[i] + |snd.unacked[i].data|);
      if snd.v.at[i] <= x < snd.v.at[i] + |snd.unacked[i].data| {
        assert x in snd.v.marked;
      }
    }

    /**
     Stream integrity of the endpoints as they are coded: whatever operations have been carried out, in whatever order,
     the delivered bytes are a prefix of the written ones and nothing undelivered has been given up.
     */
    lemma Integrity()
      requires Valid()
      ensures Inv(State()) && rcv.Delivered() <= snd.v.written
      ensures Min(snd.v.una, |snd.v.written|) <= |rcv.Delivered()|
      ensures rcv.finDone ==> snd.v.fin && rcv.Delivered() == snd.v.written
    {
      hide Inv, Joined, Next;
      RunKeeps(run, |run| - 1);
      StreamIntegrity(run, |run| - 1);
    }

    lemma FinPosition(str: seq<byte>)
      requires rcv.Valid(str)
      ensures rcv.finReceived && !rcv.finDone ==> FinAt() == |str|
    {
      hide Wrap, Sub, Separated, AllCut, Wire, RingBuffer.Contents, RingBuffer.Len;
      if rcv.finReceived && !rcv.finDone {
        OrderAgrees(rcv.irs + 1 + |str|, rcv.irs + 1 + rcv.pos);
      }
    }
  }
}
