/**
 The send side of a connection: taking bytes from the write buffer, recording them for
 retransmission, and every path that puts a segment on the wire.
 */
module TcpSender {
  import opened Bytes
  import opened SeqNum
  import opened SendQueue
  import opened Congestion
  import opened SackMark
  import opened Ring

  /** The largest scaled window a peer can advertise: `65535 << 14`. */
  const MAX_WND: nat := 65535 * 16384

  /** As much may be in flight as 32-bit numbers can tell apart, a segment aside. Only probes go beyond `MAX_WND`. */
  const MAX_FLIGHT: nat := 0x7FFE_0000

  /** A segment handed to the network, by stream position. */
  datatype Sent = Sent(pos: int, data: seq<byte>, fin: bool)

  /** The segment is a piece of the stream `w` below `nxt`; a FIN sits right after the stream. */
  ghost predicate Genuine(p: Sent, w: seq<byte>, nxt: int) {
    if p.fin then p.data == [] && p.pos == |w| && p.pos + 1 <= nxt
    else 0 <= p.pos && 0 < |p.data| <= 65535 && p.pos + |p.data| <= Min(|w|, nxt) && p.data == w[p.pos..p.pos + |p.data|]
  }

  ghost predicate AllGenuine(sent: seq<Sent>, w: seq<byte>, nxt: int) {
    forall k :: 0 <= k < |sent| ==> Genuine(sent[k], w, nxt)
  }

  lemma GenuineMore(sent: seq<Sent>, w: seq<byte>, nxt: int, w': seq<byte>, nxt': int)
    requires AllGenuine(sent, w, nxt) && w <= w' && nxt <= nxt'
    requires w == w' || nxt <= |w|
    ensures AllGenuine(sent, w', nxt')
  {
    forall k | 0 <= k < |sent|
      ensures Genuine(sent[k], w', nxt')
    {
      assert Genuine(sent[k], w, nxt);
    }
  }

  /** `unsent` is the part of the stream `w` from `nxt` on; a FIN is sent only once that is empty. */
  ghost predicate Rest(w: seq<byte>, nxt: int, fin: bool, unsent: seq<byte>) {
    if fin then nxt == |w| + 1 && unsent == []
    else 0 <= nxt <= |w| && unsent == w[nxt..]
  }

  lemma RestTake(w: seq<byte>, nxt: int, unsent: seq<byte>, n: nat)
    requires Rest(w, nxt, false, unsent) && n <= |unsent|
    ensures nxt + n <= |w| && unsent[..n] == w[nxt..nxt + n] && Rest(w, nxt + n, false, unsent[n..])
  {
  }

  lemma GenuinePush(sent: seq<Sent>, w: seq<byte>, nxt: int, nxt': int, p: Sent)
    requires AllGenuine(sent, w, nxt) && nxt <= nxt' && Genuine(p, w, nxt')
    ensures AllGenuine(sent + [p], w, nxt')
  {
    GenuineMore(sent, w, nxt, w, nxt');
  }

  /** The sender by stream position: what the 32-bit fields and the two queues stand for. */
  datatype View = View(
    written: seq<byte>, // everything the application has written
    una: int,           // oldest unacknowledged position
    nxt: int,           // next position to send
    at: seq<int>,       // where the queue entries start, and `nxt` at the end
    fin: bool,          // the FIN has been sent
    sent: seq<Sent>,    // everything ever put on the wire
    marked: iset<int>)  // every byte ever marked by a SACK block

  /** Sending and resending: nothing is written or acknowledged, the wire log and SND.NXT only grow. */
  ghost predicate Onward(v: View, v': View) {
    && v'.written == v.written && v'.una == v.una && v'.fin == v.fin && v'.marked == v.marked
    && v.nxt <= v'.nxt && Extends(v.sent, v'.sent)
  }

  ghost predicate Extends(sent: seq<Sent>, sent': seq<Sent>) {
    sent <= sent'
  }

  lemma OnwardSelf(v: View)
    ensures Onward(v, v)
  {
  }

  lemma OnwardTwice(u: View, v: View, w: View)
    requires Onward(u, v) && Onward(v, w)
    ensures Onward(u, w)
  {
  }

  lemma OnwardAck(u: View, v1: View, v2: View, v3: View, una: int)
    requires Extends(u.sent, v1.sent) && v1 == u.(sent := v1.sent, marked := v1.marked)
    requires Onward(v1.(una := una), v2) && Onward(v2, v3)
    ensures Onward(u.(una := una, marked := v1.marked), v3)
  {
  }

  /** A sender's state: the fields the code keeps, except its buffers. */
  datatype Fields = Fields(iss: u32, nxt: u32, una: u32, wnd: nat, mss: nat, unacked: seq<Unacked>)

  /** Wire numbers agree with positions, and the flight stays below half the sequence space. */
  ghost predicate Numbers(v: View, f: Fields) {
    && f.nxt == Wrap(f.iss + 1 + v.nxt) && f.una == Wrap(f.iss + 1 + v.una)
    && 0 <= v.una <= v.nxt && f.wnd <= MAX_WND
    && v.nxt - v.una <= MAX_FLIGHT + (if v.fin then 1 else 0)
  }

  /** The sender invariant. */
  ghost predicate Ok(v: View, f: Fields, unsent: seq<byte>, closed: bool) {
    && 0 < f.mss <= 65535
    && Queue(f.unacked, v.at, f.iss + 1, v.written, f.mss, v.una, v.nxt)
    && Rest(v.written, v.nxt, v.fin, unsent) && (v.fin ==> closed)
    && Numbers(v, f) && AllGenuine(v.sent, v.written, v.nxt) && Marks(f.unacked, v.at, v.marked)
  }

  /** Sending `data` from the front of the unsent bytes as one segment. */
  ghost function Sends(v: View, data: seq<byte>): View {
    v.(nxt := v.nxt + |data|, at := v.at + [v.nxt + |data|], sent := v.sent + [Sent(v.nxt, data, false)])
  }

  lemma SendsOk(v: View, f: Fields, unsent: seq<byte>, closed: bool, n: nat)
    requires Ok(v, f, unsent, closed) && 0 < n <= Min(f.mss, |unsent|)
    requires v.nxt - v.una + n <= MAX_FLIGHT
    ensures var f' := f.(nxt := Add(f.nxt, n), unacked := f.unacked + [Fresh(f.nxt, unsent[..n])]);
            Ok(Sends(v, unsent[..n]), f', unsent[n..], closed)
  {
    hide Wrap, Add, Queue, AllGenuine;
    RestTake(v.written, v.nxt, unsent, n);
    QueuePush(f.unacked, v.at, f.iss + 1, v.written, f.mss, v.una, v.nxt, unsent[..n]);
    QueueFacts(f.unacked, v.at, f.iss + 1, v.written, f.mss, v.una, v.nxt);
    MarksMore(f.unacked, v.at, f.unacked + [Fresh(f.nxt, unsent[..n])], v.at + [v.nxt + n], v.marked);
    WrapDistributes(f.iss + 1 + v.nxt, n);
    GenuinePush(v.sent, v.written, v.nxt, v.nxt + n, Sent(v.nxt, unsent[..n], false));
  }

  /** Sending `data` as one large segment that is recorded in pieces ending at `at'`. */
  ghost function SendsLarge(v: View, data: seq<byte>, at': seq<int>): View {
    v.(nxt := v.nxt + |data|, at := at', sent := v.sent + [Sent(v.nxt, data, false)])
  }

  lemma FrontOfUnsent(v: View, f: Fields, unsent: seq<byte>, closed: bool, n: nat)
    requires Ok(v, f, unsent, closed) && 0 < n <= |unsent|
    ensures Queue(f.unacked, v.at, f.iss + 1, v.written, f.mss, v.una, v.nxt) && f.mss > 0
    ensures f.nxt == Wrap(f.iss + 1 + v.nxt) && 0 <= v.nxt && v.nxt + n <= |v.written|
    ensures unsent[..n] == v.written[v.nxt..v.nxt + n]
  {
    hide Wrap, Queue, AllGenuine;
    RestTake(v.written, v.nxt, unsent, n);
  }

  lemma SendsLargeOk(v: View, f: Fields, unsent: seq<byte>, closed: bool, n: nat, q': seq<Unacked>, at': seq<int>)
    requires Ok(v, f, unsent, closed) && 0 < n <= Min(|unsent|, 65535)
    requires v.nxt - v.una + n <= MAX_FLIGHT
    requires Queue(q', at', f.iss + 1, v.written, f.mss, v.una, v.nxt + n)
    requires f.unacked <= q' && v.at <= at' && forall i :: |f.unacked| <= i < |q'| ==> !q'[i].sacked
    ensures Ok(SendsLarge(v, unsent[..n], at'), f.(nxt := Add(f.nxt, n), unacked := q'), unsent[n..], closed)
  {
    hide Wrap, Add, Queue, AllGenuine;
    RestTake(v.written, v.nxt, unsent, n);
    WrapDistributes(f.iss + 1 + v.nxt, n);
    GenuinePush(v.sent, v.written, v.nxt, v.nxt + n, Sent(v.nxt, unsent[..n], false));
    QueueFacts(f.unacked, v.at, f.iss + 1, v.written, f.mss, v.una, v.nxt);
    MarksMore(f.unacked, v.at, q', at', v.marked);
  }

  /** Sending the FIN right after the last byte. */
  ghost function SendsFin(v: View): View {
    v.(nxt := v.nxt + 1, at := v.at + [v.nxt + 1], fin := true, sent := v.sent + [Sent(v.nxt, [], true)])
  }

  lemma SendsFinOk(v: View, f: Fields)
    requires Ok(v, f, [], true) && !v.fin
    ensures var f' := f.(nxt := Add(f.nxt, 1), unacked := f.unacked + [Unacked(f.nxt, [], true, false, false)]);
            Ok(SendsFin(v), f', [], true)
  {
    hide Wrap, Add, Queue, AllGenuine;
    QueuePushFin(f.unacked, v.at, f.iss + 1, v.written, f.mss, v.una);
    QueueFacts(f.unacked, v.at, f.iss + 1, v.written, f.mss, v.una, v.nxt);
    MarksMore(f.unacked, v.at, f.unacked + [Unacked(f.nxt, [], true, false, false)], v.at + [v.nxt + 1], v.marked);
    WrapDistributes(f.iss + 1 + v.nxt, 1);
    GenuinePush(v.sent, v.written, v.nxt, v.nxt + 1, Sent(v.nxt, [], true));
  }

  /** The application writes `p`. */
  lemma WritesOk(v: View, f: Fields, unsent: seq<byte>, p: seq<byte>)
    requires Ok(v, f, unsent, false)
    ensures Ok(v.(written := v.written + p), f, unsent + p, false)
  {
    hide Wrap, Queue, AllGenuine;
    QueueMore(f.unacked, v.at, f.iss + 1, v.written, v.written + p, f.mss, v.una, v.nxt);
    GenuineMore(v.sent, v.written, v.nxt, v.written + p, v.nxt);
  }

  /** A closed buffer or a new advertised window: still in order. */
  lemma ClosedOk(v: View, f: Fields, unsent: seq<byte>, closed: bool)
    requires Ok(v, f, unsent, closed)
    ensures Ok(v, f, unsent, true)
  {
    hide Wrap, Queue, AllGenuine, Rest;
  }

  lemma WindowOk(v: View, f: Fields, unsent: seq<byte>, closed: bool, wnd: nat)
    requires Ok(v, f, unsent, closed) && wnd <= MAX_WND
    ensures Ok(v, f.(wnd := wnd), unsent, closed)
  {
    hide Wrap, Queue, AllGenuine, Rest;
  }

  /** The queue entry as a segment on the wire. */
  ghost function Segment(e: Unacked, pos: int): Sent {
    Sent(pos, e.data, e.fin)
  }

  /** The segment is on the wire log from entry `from` on. */
  ghost predicate Resent(sent: seq<Sent>, from: nat, p: Sent) {
    exists j :: from <= j < |sent| && sent[j] == p
  }

  /** The segments of the lost entries among the first `n`, in order. */
  ghost function LostSegments(q: seq<Unacked>, at: seq<int>, n: nat): seq<Sent>
    requires n <= |q|
  {
    if n == 0 then []
    else LostSegments(q, at, n - 1) + (if Lost(q, n - 1) && n <= |at| then [Segment(q[n - 1], at[n - 1])] else [])
  }

  /** The segment of the first entry that is not marked, if there is one. */
  ghost function FirstUnmarked(q: seq<Unacked>, at: seq<int>): seq<Sent> {
    if q == [] || at == [] then []
    else if q[0].sacked then FirstUnmarked(q[1..], at[1..])
    else [Segment(q[0], at[0])]
  }

  lemma {:induction false} FirstUnmarkedAt(q: seq<Unacked>, at: seq<int>, i: nat)
    requires |at| == |q| + 1 && i <= |q| && forall k :: 0 <= k < i ==> q[k].sacked
    ensures FirstUnmarked(q, at) == if i == |q| then [] else FirstUnmarked(q[i..], at[i..])
    decreases i
  {
    if i > 0 {
      FirstUnmarkedAt(q[1..], at[1..], i - 1);
      assert q[1..][i - 1..] == q[i..] && at[1..][i - 1..] == at[i..];
    }
  }

  lemma ResentPush(sent: seq<Sent>, p: Sent, from: nat)
    requires from <= |sent|
    ensures Resent(sent + [p], from, p) && forall x :: Resent(sent, from, x) ==> Resent(sent + [p], from, x)
  {
    assert (sent + [p])[|sent|] == p;
    forall x | Resent(sent, from, x)
      ensures Resent(sent + [p], from, x)
    {
      var j :| from <= j < |sent| && sent[j] == x;
      assert (sent + [p])[j] == x;
    }
  }

  /** Sending entry `i` again, and changing flags in the queue, keeps the invariant. */
  lemma ResendOk(v: View, f: Fields, unsent: seq<byte>, closed: bool, i: nat, q': seq<Unacked>)
    requires Ok(v, f, unsent, closed) && i < |f.unacked| && SameSegments(f.unacked, q') && NoNewMarks(f.unacked, q')
    ensures i < |v.at|
    ensures Ok(v.(sent := v.sent + [Segment(f.unacked[i], v.at[i])]), f.(unacked := q'), unsent, closed)
  {
    hide Wrap, Queue, AllGenuine, Rest;
    QueueFacts(f.unacked, v.at, f.iss + 1, v.written, f.mss, v.una, v.nxt);
    QueueFlags(f.unacked, q', v.at, f.iss + 1, v.written, f.mss, v.una, v.nxt);
    MarksFlags(f.unacked, q', v.at, v.marked);
    assert Occupies(f.unacked[i], v.at[i], v.at[i + 1], f.iss + 1, v.written);
    GenuinePush(v.sent, v.written, v.nxt, v.nxt, Segment(f.unacked[i], v.at[i]));
  }

  lemma FlagsOk(v: View, f: Fields, unsent: seq<byte>, closed: bool, q': seq<Unacked>)
    requires Ok(v, f, unsent, closed) && SameSegments(f.unacked, q') && NoNewMarks(f.unacked, q')
    ensures Ok(v, f.(unacked := q'), unsent, closed)
  {
    hide Wrap, Queue, AllGenuine, Rest, Marks;
    QueueFlags(f.unacked, q', v.at, f.iss + 1, v.written, f.mss, v.una, v.nxt);
    MarksFlags(f.unacked, q', v.at, v.marked);
  }

  /** Marking what the blocks cover keeps the invariant, with those bytes noted. */
  lemma MarkingOk(v: View, f: Fields, unsent: seq<byte>, closed: bool, blocks: seq<SackBlock>, q': seq<Unacked>)
    requires Ok(v, f, unsent, closed) && SameSegments(f.unacked, q')
    requires forall i :: 0 <= i < |q'| ==> q'[i].sacked == (f.unacked[i].sacked || CoveredBy(blocks, f.unacked[i]))
    ensures Ok(v.(marked := v.marked + Covering(blocks, f.unacked, v.at)), f.(unacked := q'), unsent, closed)
  {
    hide Wrap, Queue, AllGenuine, Rest, Marks, Covering, CoveredBy;
    QueueFlags(f.unacked, q', v.at, f.iss + 1, v.written, f.mss, v.una, v.nxt);
    MarksCovering(f.unacked, q', v.at, v.marked, blocks);
  }

  /** A cumulative acknowledgement of position `a` that covers `k` entries. */
  ghost function Acks(v: View, a: int, k: nat): View
    requires k <= |v.at|
  {
    v.(una := a, at := v.at[k..])
  }

  lemma AcksOk(v: View, f: Fields, unsent: seq<byte>, closed: bool, a: int, k: nat)
    requires Ok(v, f, unsent, closed) && v.una < a <= v.nxt && k <= |f.unacked| && AckedUpTo(v.at, a, k)
    ensures Ok(Acks(v, a, k), f.(una := Wrap(f.iss + 1 + a), unacked := f.unacked[k..]), unsent, closed)
  {
    hide Wrap, AllGenuine, Rest, Queue;
    QueueAck(f.unacked, v.at, f.iss + 1, v.written, f.mss, v.una, v.nxt, a, k);
    QueueFacts(f.unacked, v.at, f.iss + 1, v.written, f.mss, v.una, v.nxt);
    MarksDrop(f.unacked, v.at, v.marked, k);
  }

  /** The queue spans less than half the sequence space. */
  lemma QueueSpan(v: View, f: Fields, unsent: seq<byte>, closed: bool)
    requires Ok(v, f, unsent, closed)
    ensures Tiles(f.unacked, v.at, f.iss + 1, v.written) && |v.at| == |f.unacked| + 1
    ensures v.at[0] <= v.una <= v.nxt == v.at[|f.unacked|] < v.at[0] + TWO_31
  {
    hide Wrap, AllGenuine, Rest;
    QueueFacts(f.unacked, v.at, f.iss + 1, v.written, f.mss, v.una, v.nxt);
  }

  lemma NextReading(v: View, f: Fields, unsent: seq<byte>, closed: bool)
    requires Ok(v, f, unsent, closed)
    ensures f.nxt == Wrap(f.iss + 1 + v.nxt) && 0 <= v.una <= v.nxt
  {
    hide Wrap, Queue, AllGenuine, Rest, Marks;
  }

  lemma TimeoutInRange(t: Rtt, measured: nat, minRTO: int, maxRTO: int)
    requires minRTO <= maxRTO
    ensures minRTO <= UpdateRTT(t, measured, minRTO, maxRTO).rto <= maxRTO
  {
  }

  lemma RecoveryReading(v: View, f: Fields, unsent: seq<byte>, closed: bool, rec: int)
    requires Ok(v, f, unsent, closed) && -TWO_31 <= v.una - rec < TWO_31
    ensures SeqLessThan(f.una, Wrap(f.iss + 1 + rec)) <==> v.una < rec
  {
    hide Wrap, SeqLessThan, Queue, AllGenuine, Rest;
    OrderAgrees(f.iss + 1 + v.una, f.iss + 1 + rec);
  }

  /** Nothing is left in the queue exactly when everything sent is acknowledged, the FIN included. */
  lemma AllAcked(v: View, f: Fields, unsent: seq<byte>, closed: bool)
    requires Ok(v, f, unsent, closed)
    ensures f.unacked == [] <==> v.una == v.nxt
    ensures v.fin ==> v.nxt == |v.written| + 1
  {
    hide Wrap, Tiles, AllGenuine;
  }

  lemma FinPosition(v: View, f: Fields)
    requires Ok(v, f, [], true) && !v.fin
    ensures v.nxt == |v.written|
  {
  }

  /** Facts about any acknowledgement number, read as the position nearest to `una`. */
  lemma AckReading(v: View, f: Fields, unsent: seq<byte>, closed: bool, a: int)
    requires Ok(v, f, unsent, closed) && -TWO_31 <= a - v.una < TWO_31
    ensures 0 <= v.nxt - v.una < TWO_31
    ensures Wrap(f.iss + 1 + a) == f.una <==> a == v.una
    ensures SeqGreaterThan(Wrap(f.iss + 1 + a), f.una) && !SeqGreaterThan(Wrap(f.iss + 1 + a), f.nxt) <==> v.una < a <= v.nxt
    ensures Sub(f.nxt, f.una) == v.nxt - v.una
    ensures a >= v.una ==> Sub(Wrap(f.iss + 1 + a), f.una) == a - v.una
  {
    hide Wrap, Sub, SeqGreaterThan, Queue, Rest, AllGenuine;
    OrderAgrees(f.iss + 1 + a, f.iss + 1 + v.una);
    OrderAgrees(f.iss + 1 + v.nxt, f.iss + 1 + v.una);
    if a > v.una {
      OrderAgrees(f.iss + 1 + a, f.iss + 1 + v.nxt);
    }
  }

  /**
   Conservation: what is acknowledged, what the queue holds from there on, and what the write
   buffer still holds are together exactly what the application wrote.
   */
  lemma Conservation(v: View, f: Fields, unsent: seq<byte>, closed: bool)
    requires Ok(v, f, unsent, closed)
    ensures f.unacked == [] ==> v.written == v.written[..Min(v.una, |v.written|)] + unsent
    ensures f.unacked != [] ==>
              && |v.at| > 0 && 0 <= v.at[0] <= v.una <= |v.written| && v.una - v.at[0] <= |Payload(f.unacked)|
              && v.written == v.written[..v.una] + Payload(f.unacked)[v.una - v.at[0]..] + unsent
  {
    hide Wrap, AllGenuine;
    var w := v.written;
    if f.unacked != [] {
      QueueFacts(f.unacked, v.at, f.iss + 1, w, f.mss, v.una, v.nxt);
      assert Occupies(f.unacked[0], v.at[0], v.at[1], f.iss + 1, w);
      PayloadIsSlice(f.unacked, v.at, f.iss + 1, w);
      var end := Min(v.nxt, |w|);
      assert Payload(f.unacked)[v.una - v.at[0]..] == w[v.una..end];
      assert unsent == w[end..];
    }
  }

  class Sender {
    const iss: u32
    var nxt: u32
    var una: u32
    var wnd: nat
    var maxWnd: nat
    const mss: nat
    var unacked: seq<Unacked>

    // Fields of the connection that the sender consults.
    const writeBuf: RingBuffer
    const tsEnabled: bool
    const gso: bool
    const gsoMaxSize: nat
    var zeroWindowProbing: bool
    var noDelay: bool

    // Congestion control.
    var cwnd: u32
    var ssthresh: u32
    var dupACKCount: nat
    var inRecovery: bool
    var recoveryPoint: u32
    var dsackSeen: bool

    // Retransmission timing.
    var rtt: Rtt
    const minRTO: int
    const maxRTO: int
    var retries: nat
    const maxRetries: nat
    var aborted: bool

    /** Position of the recovery point. */
    ghost var recPos: int

    /** A loss has been seen: recovery was entered, or the timer fired. */
    ghost var lossSeen: bool

    ghost var v: View

    ghost function F(): Fields
      reads this
    {
      Fields(iss, nxt, una, wnd, mss, unacked)
    }

    ghost predicate Valid()
      reads this, writeBuf, writeBuf.buf
    {
      && writeBuf.Valid() && 0 < mss <= 65535 && (gso ==> 0 < gsoMaxSize)
      && Ok(v, F(), writeBuf.Contents(), writeBuf.closed)
    }

    ghost predicate Timed()
      reads this
    {
      0 < minRTO <= rtt.rto <= maxRTO
    }

    /** Recovery runs between SND.UNA and SND.NXT with its threshold set; threshold and timeout are in range. */
    ghost predicate Steady()
      reads this
    {
      && Timed() && 0 < ssthresh && (lossSeen ==> ssthresh >= 2 * mss)
      && (inRecovery ==> lossSeen && v.una <= recPos <= v.nxt && recoveryPoint == Wrap(iss + 1 + recPos))
    }

    constructor (iss: u32, writeBuf: RingBuffer, wnd: nat, mss: nat, tsEnabled: bool, gso: bool, gsoMaxSize: nat, ssthresh: u32,
                 minRTO: int, maxRTO: int, initialRTO: int, maxRetries: nat)
      requires writeBuf.Valid() && writeBuf.Contents() == [] && wnd <= MAX_WND
      requires 0 < mss <= 65535 && (gso ==> 0 < gsoMaxSize)
      requires 0 < minRTO <= initialRTO <= maxRTO && 0 < ssthresh
      ensures Valid() && Steady() && this.mss == mss <= cwnd
      ensures v == View([], 0, 0, [0], false, [], iset{}) && this.writeBuf == writeBuf && this.iss == iss
    {
      this.iss, this.writeBuf, this.wnd, this.maxWnd, this.mss := iss, writeBuf, wnd, wnd, mss;
      this.tsEnabled, this.gso, this.gsoMaxSize := tsEnabled, gso, gsoMaxSize;
      nxt, una, unacked := Add(iss, 1), Add(iss, 1), [];
      zeroWindowProbing, noDelay := false, false;
      this.cwnd, this.ssthresh := Min(10 * mss, Max(2 * mss, 14600)), ssthresh;
      dupACKCount, inRecovery, recoveryPoint, dsackSeen := 0, false, 0, false;
      this.minRTO, this.maxRTO, this.maxRetries := minRTO, maxRTO, maxRetries;
      rtt, retries, aborted, recPos, lossSeen := Rtt(0, 0, initialRTO), 0, false, 0, false;
      v := View([], 0, 0, [0], false, [], iset{});
    }

    /** Reads `n` bytes, sends them as one segment and records them for retransmission. */
    method SendSegment(n: nat)
      requires Valid() && 0 < n <= Min(mss, writeBuf.Len())
      requires v.nxt - v.una + n <= MAX_FLIGHT
      modifies this`nxt, this`unacked, this`v, writeBuf
      ensures Valid() && writeBuf.buf == old(writeBuf.buf) && writeBuf.closed == old(writeBuf.closed)
      ensures writeBuf.Contents() == old(writeBuf.Contents())[n..]
      ensures v == Sends(old(v), old(writeBuf.Contents())[..n])
    {
      hide Wrap, Add, Ok, RingBuffer.Contents, RingBuffer.Len;
      SendsOk(v, F(), writeBuf.Contents(), writeBuf.closed, n);
      var data := writeBuf.ReadNoBlock(n);
      unacked := unacked + [Fresh(nxt, data)];
      nxt := Add(nxt, n);
      v := Sends(v, data);
    }

    /** Sends one large segment of `n` bytes, recorded at MSS granularity. */
    method SendLarge(n: nat)
      requires Valid() && 0 < n <= Min(writeBuf.Len(), 65535)
      requires v.nxt - v.una + n <= MAX_FLIGHT
      modifies this`nxt, this`unacked, this`v, writeBuf
      ensures Valid() && writeBuf.buf == old(writeBuf.buf) && writeBuf.closed == old(writeBuf.closed)
      ensures writeBuf.Contents() == old(writeBuf.Contents())[n..]
      ensures v == SendsLarge(old(v), old(writeBuf.Contents())[..n], v.at)
    {
      hide Wrap, Add, Queue, Ok, RingBuffer.Contents, RingBuffer.Len;
      ghost var unsent := writeBuf.Contents();
      FrontOfUnsent(v, F(), unsent, writeBuf.closed, n);
      var data := writeBuf.ReadNoBlock(n);
      var q', at' := RecordPieces(unacked, nxt, data, mss, v.at, iss + 1, v.written, v.una, v.nxt);
      SendsLargeOk(v, F(), unsent, writeBuf.closed, n, q', at');
      unacked := q';
      nxt := Add(nxt, n);
      v := SendsLarge(v, data, at');
    }

    /** Bytes in flight: `int(nxt - una)`. */
    function FlightSize(): nat
      reads this
    {
      Sub(nxt, una)
    }

    function EffectiveWindow(): int
      reads this
    {
      Min(cwnd, wnd) - FlightSize()
    }

    /** Whether `sendPending` goes on: window, data, silly-window avoidance and Nagle all permit it. */
    predicate MaySend()
      reads this, writeBuf
      requires writeBuf.Valid()
    {
      var windowLeft, available := EffectiveWindow(), writeBuf.Len();
      && windowLeft > 0 && available > 0
      && (zeroWindowProbing || windowLeft >= Min(mss, maxWnd / 2) || available <= windowLeft)
      && (noDelay || unacked == [] || available >= mss)
    }

    /** Where payload starts in a large-segment buffer: IPv4, TCP and timestamp headers. */
    function GsoDataOffset(): nat {
      40 + (if tsEnabled then 12 else 0)
    }

    /** One turn of the sending loop. */
    method SendNext()
      requires Valid() && MaySend()
      modifies this`nxt, this`unacked, this`v, writeBuf
      ensures Valid() && writeBuf.buf == old(writeBuf.buf) && writeBuf.closed == old(writeBuf.closed)
      ensures writeBuf.Len() < old(writeBuf.Len())
      ensures Onward(old(v), v) && old(v.nxt) < v.nxt <= v.una + Min(cwnd, wnd) && old(v.sent) < v.sent
    {
      hide Wrap, Add, Sub, Queue, AllGenuine, RingBuffer.Contents, RingBuffer.Len;
      AckReading(v, F(), writeBuf.Contents(), writeBuf.closed, v.una);
      var windowLeft, available := EffectiveWindow(), writeBuf.Len();
      if gso && available > mss && windowLeft > mss {
        var off := GsoDataOffset();
        SendLarge(Min(Min(Min(windowLeft, available), gsoMaxSize), Min(0xffff - off, 65536 - off)));
      } else {
        SendSegment(Min(Min(windowLeft, available), mss));
      }
    }

    /** Sends while permitted; afterwards nothing more may be sent. */
    method SendPending()
      requires Valid()
      modifies this`nxt, this`unacked, this`v, writeBuf
      ensures Valid() && writeBuf.buf == old(writeBuf.buf) && writeBuf.closed == old(writeBuf.closed)
      ensures !MaySend() && (old(Steady()) ==> Steady())
      ensures Onward(old(v), v) && v.nxt <= Max(old(v.nxt), v.una + Min(cwnd, wnd))
    {
      hide Ok, EffectiveWindow, RingBuffer.Contents, RingBuffer.Len;
      while MaySend()
        invariant Valid() && writeBuf.buf == old(writeBuf.buf) && writeBuf.closed == old(writeBuf.closed)
        invariant Onward(old(v), v) && v.nxt <= Max(old(v.nxt), v.una + Min(cwnd, wnd))
        decreases writeBuf.Len()
      {
        SendNext();
      }
    }

    /** Drops what `ack` covers; an eligible entry yields an RTT sample of whatever the clock says. */
    method RemoveAcked(ack: u32, ghost a: int)
      requires Valid() && Steady() && ack == Wrap(iss + 1 + a) && v.una < a <= v.nxt
      modifies this`una, this`unacked, this`v, this`rtt
      ensures Valid() && una == ack && minRTO <= rtt.rto <= maxRTO
      ensures v == old(v).(una := a, at := v.at) && Onward(old(v).(una := a), v)
    {
      hide Wrap, Ok, UpdateRTT, Tiles, Extends, RingBuffer.Contents, RingBuffer.Len;
      QueueSpan(v, F(), writeBuf.Contents(), writeBuf.closed);
      var i, sampled := CountAcked(unacked, ack, tsEnabled, v.at, iss + 1, v.written, a);
      if sampled {
        var measured: nat := *;
        rtt := UpdateRTT(rtt, measured, minRTO, maxRTO);
        TimeoutInRange(old(rtt), measured, minRTO, maxRTO);
      }
      AcksOk(v, F(), writeBuf.Contents(), writeBuf.closed, a, i);
      OnwardSelf(v.(una := a));
      una := ack;
      unacked := unacked[i..];
      v := Acks(v, a, i);
    }

    /** Sends entry `i` again. */
    method Resend(i: nat)
      requires Valid() && i < |unacked|
      modifies this`unacked, this`v
      ensures Valid() && i < |v.at| && v == old(v).(sent := old(v.sent) + [Segment(old(unacked[i]), v.at[i])])
      ensures unacked == old(unacked)[i := old(unacked[i]).(retransmitted := true)]
    {
      hide Wrap, Ok, RingBuffer.Contents, RingBuffer.Len;
      ghost var seg := unacked[i];
      var q' := unacked[i := unacked[i].(retransmitted := true)];
      ResendOk(v, F(), writeBuf.Contents(), writeBuf.closed, i, q');
      unacked := q';
      v := v.(sent := v.sent + [Segment(seg, v.at[i])]);
    }

    /** Resends the first entry the peer has not reported, if there is one. */
    method RetransmitFirstUnSACKed()
      requires Valid()
      modifies this`unacked, this`v
      ensures Valid() && SameSegments(old(unacked), unacked) && v.at == old(v.at)
      ensures v == old(v).(sent := old(v.sent) + FirstUnmarked(old(unacked), v.at))
      ensures (forall i :: 0 <= i < |unacked| ==> old(unacked[i]).sacked) ==> v == old(v) && unacked == old(unacked)
      ensures forall i :: 0 <= i < |unacked| && !old(unacked)[i].sacked && (forall k :: 0 <= k < i ==> old(unacked)[k].sacked)
                ==> && i < |v.at| && v.sent == old(v.sent) + [Segment(old(unacked)[i], v.at[i])]
                    && unacked == old(unacked)[i := old(unacked)[i].(retransmitted := true)]
    {
      hide Ok, RingBuffer.Contents, RingBuffer.Len, Tiles;
      QueueSpan(v, F(), writeBuf.Contents(), writeBuf.closed);
      for i := 0 to |unacked|
        invariant forall k :: 0 <= k < i ==> unacked[k].sacked
        invariant v == old(v) && unacked == old(unacked) && Valid()
      {
        if !unacked[i].sacked {
          FirstUnmarkedAt(unacked, v.at, i);
          Resend(i);
          return;
        }
      }
      FirstUnmarkedAt(unacked, v.at, |unacked|);
    }

    /** Limited transmit: one new segment within the advertised window, whatever `cwnd` says. */
    method LimitedTransmit()
      requires Valid()
      modifies this`nxt, this`unacked, this`v, writeBuf
      ensures Valid() && writeBuf.buf == old(writeBuf.buf) && writeBuf.closed == old(writeBuf.closed)
      ensures var n := Min(Min(old(writeBuf.Len()), mss), wnd - old(v.nxt - v.una));
              v == if n > 0 then Sends(old(v), old(writeBuf.Contents())[..n]) else old(v)
    {
      hide Wrap, Sub, Queue, AllGenuine, Sends, RingBuffer.Contents, RingBuffer.Len;
      AckReading(v, F(), writeBuf.Contents(), writeBuf.closed, v.una);
      var available := writeBuf.Len();
      if available <= 0 {
        return;
      }
      var flightSize := FlightSize();
      if flightSize >= wnd {
        return;
      }
      SendSegment(Min(Min(available, mss), wnd - flightSize));
    }

    /** A duplicate acknowledgement: limited transmit, then fast retransmit, then window inflation. */
    method HandleDupACK()
      requires Valid() && Steady()
      modifies this`nxt, this`unacked, this`v, this`cwnd, this`ssthresh, this`dupACKCount,
               this`inRecovery, this`recoveryPoint, this`recPos, this`lossSeen, writeBuf
      ensures Valid() && Steady() && writeBuf.buf == old(writeBuf.buf) && writeBuf.closed == old(writeBuf.closed)
      ensures Onward(old(v), v) && dupACKCount == old(dupACKCount) + 1
      ensures (inRecovery <==> old(inRecovery) || dupACKCount == 3) && (lossSeen <==> old(lossSeen) || inRecovery)
      ensures old(inRecovery) ==>
                cwnd == Add(old(cwnd), mss) && ssthresh == old(ssthresh) && recPos == old(recPos) && !MaySend()
      ensures !old(inRecovery) && dupACKCount == 3 ==>
                && ssthresh == Max(old(cwnd) / 2, 2 * mss) && cwnd == ssthresh + 3 * mss && recPos == v.nxt == old(v.nxt)
                && v == old(v).(sent := old(v.sent) + FirstUnmarked(old(unacked), v.at))
      ensures !old(inRecovery) && dupACKCount != 3 ==> cwnd == old(cwnd) && ssthresh == old(ssthresh)
      ensures old(mss <= cwnd && (inRecovery ==> cwnd + mss < TWO_32)) ==> mss <= cwnd
    {
      hide Ok, FirstUnmarked, RingBuffer.Contents, RingBuffer.Len, MaySend;
      dupACKCount := dupACKCount + 1;
      if inRecovery {
        cwnd := Add(cwnd, mss);
        SendPending();
        return;
      }
      if dupACKCount <= 2 {
        LimitedTransmit();
        return;
      }
      if dupACKCount == 3 {
        EnterRecovery();
      }
    }

    /** Fast retransmit: halve the window, note SND.NXT and resend the first unreported entry. */
    method EnterRecovery()
      requires Valid() && Steady()
      modifies this`unacked, this`v, this`cwnd, this`ssthresh, this`inRecovery, this`recoveryPoint, this`recPos,
               this`lossSeen
      ensures Valid() && Steady() && inRecovery && lossSeen && recPos == v.nxt
      ensures ssthresh == Max(old(cwnd) / 2, 2 * mss) && cwnd == ssthresh + 3 * mss
      ensures v == old(v).(sent := old(v.sent) + FirstUnmarked(old(unacked), v.at))
    {
      hide Ok, Wrap, Max, FirstUnmarked, RingBuffer.Contents, RingBuffer.Len;
      StartRecovery();
      FastRetransmit();
    }

    /** What recovery needs to know of that: only resending happens. */
    method FastRetransmit()
      requires Valid()
      modifies this`unacked, this`v
      ensures Valid() && v == old(v).(sent := old(v.sent) + FirstUnmarked(old(unacked), v.at))
    {
      hide Ok, FirstUnmarked, RingBuffer.Contents, RingBuffer.Len;
      RetransmitFirstUnSACKed();
    }

    /** The congestion state when recovery starts. */
    method StartRecovery()
      requires Valid() && Steady()
      modifies this`cwnd, this`ssthresh, this`inRecovery, this`recoveryPoint, this`recPos, this`lossSeen
      ensures Valid() && Steady() && inRecovery && lossSeen && recPos == v.nxt
      ensures ssthresh == Max(old(cwnd) / 2, 2 * mss) && cwnd == ssthresh + 3 * mss
    {
      hide Wrap, Ok, RingBuffer.Contents, RingBuffer.Len;
      NextReading(v, F(), writeBuf.Contents(), writeBuf.closed);
      RecoveryWindow(cwnd, mss);
      ssthresh := Threshold(cwnd, mss);
      cwnd := ssthresh + 3 * mss;
      inRecovery, lossSeen := true, true;
      recoveryPoint, recPos := nxt, v.nxt;
    }

    /** The window and recovery response to a new acknowledgement. */
    method CongestionOnACK(ack: u32, acked: nat, ghost a: int)
      requires Valid() && Timed() && una == ack == Wrap(iss + 1 + a) && v.una == a && 0 < ssthresh
      requires inRecovery ==> recPos <= v.nxt && -TWO_31 <= a - recPos < TWO_31
      requires inRecovery ==> recoveryPoint == Wrap(iss + 1 + recPos) && lossSeen
      requires lossSeen ==> ssthresh >= 2 * mss
      modifies this`unacked, this`v, this`cwnd, this`dupACKCount, this`inRecovery
      ensures Valid() && Steady() && Onward(old(v), v) && v.nxt == old(v.nxt)
      ensures v == if old(inRecovery) && a < recPos
                   then old(v).(sent := old(v.sent) + FirstUnmarked(old(unacked), v.at)) else old(v)
      ensures dupACKCount == 0 && (inRecovery <==> old(inRecovery) && a < recPos)
      ensures (old(inRecovery) || cwnd == Grown(old(cwnd), ssthresh, mss, acked))
      ensures old(inRecovery) ==> cwnd == ssthresh
      ensures old(inRecovery) || (mss <= old(cwnd) && old(cwnd) + Growth(old(cwnd), ssthresh, mss, acked) < TWO_32) ==>
                mss <= cwnd
    {
      hide Ok, FirstUnmarked, RingBuffer.Contents, RingBuffer.Len, Grown, Growth;
      OnwardSelf(v);
      dupACKCount := 0;
      if inRecovery {
        RecoveryOnACK(ack, a);
        cwnd := ssthresh;
      } else {
        if mss <= cwnd && cwnd + Growth(cwnd, ssthresh, mss, acked) < TWO_32 {
          GrownKeepsOneSegment(cwnd, ssthresh, mss, acked);
        }
        cwnd := Grown(cwnd, ssthresh, mss, acked);
      }
    }

    /** In recovery: a partial acknowledgement resends the next unreported entry, one that reaches the point ends it. */
    method RecoveryOnACK(ack: u32, ghost a: int)
      requires Valid() && una == ack == Wrap(iss + 1 + a) && v.una == a && inRecovery
      requires recoveryPoint == Wrap(iss + 1 + recPos) && -TWO_31 <= a - recPos < TWO_31
      modifies this`unacked, this`v, this`inRecovery
      ensures Valid() && Onward(old(v), v) && (inRecovery <==> a < recPos)
      ensures v == if a < recPos then old(v).(sent := old(v.sent) + FirstUnmarked(old(unacked), v.at)) else old(v)
    {
      hide Ok, FirstUnmarked, Wrap, SeqLessThan, RingBuffer.Contents, RingBuffer.Len;
      RecoveryReading(v, F(), writeBuf.Contents(), writeBuf.closed, recPos);
      if SeqLessThan(ack, recoveryPoint) {
        FastRetransmit();
      } else {
        inRecovery := false;
      }
    }

    /** A new acknowledgement: free what it covers and adjust the window. */
    method TakeACK(ack: u32, ghost a: int)
      requires Valid() && Steady()
      requires ack == Wrap(iss + 1 + a) && v.una < a <= v.nxt
      modifies this`una, this`unacked, this`v, this`rtt, this`cwnd, this`dupACKCount, this`inRecovery, this`retries
      ensures Valid() && Steady() && Onward(old(v).(una := a), v) && dupACKCount == 0 && retries == 0
      ensures cwnd == if old(inRecovery) then ssthresh else old(Grown(cwnd, ssthresh, mss, a - v.una))
      ensures inRecovery <==> old(inRecovery) && a < recPos
      ensures mss <= old(cwnd) && old(cwnd + Growth(cwnd, ssthresh, mss, a - v.una)) < TWO_32 ==> mss <= cwnd
    {
      hide Wrap, Sub, Ok, RingBuffer.Contents, RingBuffer.Len, Grown, Growth, Extends;
      AckReading(v, F(), writeBuf.Contents(), writeBuf.closed, v.una);
      AckReading(v, F(), writeBuf.Contents(), writeBuf.closed, a);
      var acked := Sub(ack, una);
      retries := 0;
      RemoveAcked(ack, a);
      ghost var v1 := v;
      CongestionOnACK(ack, acked, a);
      OnwardTwice(old(v).(una := a), v1, v);
    }

    /**
     `handleACK`: a new acknowledgement advances SND.UNA to exactly its position and frees what it
     covers; a repeated one is a duplicate; anything older or beyond SND.NXT is ignored. Every
     32-bit number is read as the position nearest to SND.UNA.
     */
    method HandleACK(ack: u32, ghost a: int)
      requires Valid() && Steady()
      requires ack == Wrap(iss + 1 + a) && -TWO_31 <= a - v.una < TWO_31
      modifies this, writeBuf
      ensures Valid() && Steady() && writeBuf.buf == old(writeBuf.buf) && writeBuf.closed == old(writeBuf.closed)
      ensures unchanged(this`wnd, this`maxWnd, this`zeroWindowProbing, this`noDelay, this`aborted, this`dsackSeen)
      ensures Onward(old(v).(una := if old(v.una) < a <= old(v.nxt) then a else old(v.una)), v)
      ensures old(v.una) < a <= old(v.nxt) ==>
                && retries == 0 && dupACKCount == 0 && !MaySend() && ssthresh == old(ssthresh)
                && cwnd == (if old(inRecovery) then ssthresh else old(Grown(cwnd, ssthresh, mss, a - v.una)))
                && (inRecovery <==> old(inRecovery) && a < old(recPos))
      ensures a < old(v.una) || old(v.nxt) < a ==>
                && v == old(v) && F() == old(F()) && cwnd == old(cwnd) && ssthresh == old(ssthresh)
                && inRecovery == old(inRecovery)
      ensures a == old(v.una) ==>
                && dupACKCount == old(dupACKCount) + 1 && (inRecovery <==> old(inRecovery) || dupACKCount == 3)
                && (if old(inRecovery) then cwnd == Add(old(cwnd), mss) && ssthresh == old(ssthresh)
                    else if dupACKCount == 3 then ssthresh == Max(old(cwnd) / 2, 2 * mss) && cwnd == ssthresh + 3 * mss
                    else cwnd == old(cwnd) && ssthresh == old(ssthresh))
      ensures old(lossSeen) ==> lossSeen
      ensures mss <= old(cwnd) < TWO_31 ==> mss <= cwnd
    {
      hide Wrap, Sub, SeqGreaterThan, Ok, Steady, RingBuffer.Contents, RingBuffer.Len, Grown, MaySend, Extends,
        FirstUnmarked;
      AckReading(v, F(), writeBuf.Contents(), writeBuf.closed, a);
      if ack == una {
        HandleDupACK();
        return;
      }
      if !SeqGreaterThan(ack, una) || SeqGreaterThan(ack, nxt) {
        OnwardSelf(v);
        return;
      }
      NewACK(ack, a);
    }

    /** A new acknowledgement, and what it then allows to be sent. */
    method NewACK(ack: u32, ghost a: int)
      requires Valid() && Steady() && ack == Wrap(iss + 1 + a) && v.una < a <= v.nxt
      modifies this`una, this`nxt, this`unacked, this`v, this`rtt, this`cwnd, this`dupACKCount, this`inRecovery,
               this`retries, writeBuf
      ensures Valid() && Steady() && writeBuf.buf == old(writeBuf.buf) && writeBuf.closed == old(writeBuf.closed)
      ensures Onward(old(v).(una := a), v) && retries == 0 && dupACKCount == 0 && !MaySend()
      ensures cwnd == if old(inRecovery) then ssthresh else old(Grown(cwnd, ssthresh, mss, a - v.una))
      ensures inRecovery <==> old(inRecovery) && a < recPos
      ensures mss <= old(cwnd) < TWO_31 ==> mss <= cwnd
    {
      hide Wrap, Ok, Steady, RingBuffer.Contents, RingBuffer.Len, Growth, Grown, MaySend, Extends;
      NextReading(v, F(), writeBuf.Contents(), writeBuf.closed);
      AckReading(v, F(), writeBuf.Contents(), writeBuf.closed, v.una);
      if mss <= cwnd {
        GrowthBounded(cwnd, ssthresh, mss, a - v.una);
      }
      TakeACK(ack, a);
      ghost var v1 := v;
      SendPending();
      OnwardTwice(old(v).(una := a), v1, v);
    }

    /**
     `handleRTO`: after too many retries the connection is aborted; otherwise the window collapses
     to one segment, the timeout doubles, all SACK marks are dropped and the oldest entry is resent.
     */
    method HandleRTO()
      requires Valid() && Steady()
      modifies this`unacked, this`v, this`cwnd, this`ssthresh, this`dupACKCount, this`inRecovery,
               this`rtt, this`retries, this`aborted, this`lossSeen
      ensures Valid() && Steady() && (old(lossSeen) ==> lossSeen)
      ensures old(unacked) == [] ==> v == old(v) && cwnd == old(cwnd) && !(aborted && !old(aborted))
      ensures old(unacked) != [] ==>
                if !zeroWindowProbing && old(retries) >= maxRetries then
                  aborted && v == old(v) && unacked == old(unacked) && cwnd == old(cwnd)
                else
                  && lossSeen && !inRecovery && cwnd == mss && ssthresh == Max(old(cwnd) / 2, 2 * mss)
                  && rtt == Backoff(old(rtt), maxRTO)
                  && dupACKCount == 0 && retries == old(retries) + (if zeroWindowProbing then 0 else 1)
                  && |unacked| == old(|unacked|)
                  && (forall i :: 0 <= i < |unacked| ==>
                        unacked[i] == old(unacked)[i].(sacked := false, retransmitted := i == 0 || old(unacked)[i].retransmitted))
                  && |v.at| > 0 && v == old(v).(sent := old(v.sent) + [Segment(old(unacked)[0], v.at[0])])
    {
      hide Ok, Segment, RingBuffer.Contents, RingBuffer.Len;
      if |unacked| == 0 {
        return;
      }
      if !zeroWindowProbing {
        retries := retries + 1;
        if retries > maxRetries {
          aborted := true;
          return;
        }
      }
      Collapse();
      ResendUnmarked();
    }

    /** The congestion state after a timeout. */
    method Collapse()
      requires Valid() && Steady()
      modifies this`cwnd, this`ssthresh, this`dupACKCount, this`inRecovery, this`rtt, this`lossSeen
      ensures Valid() && Steady() && lossSeen
      ensures !inRecovery && dupACKCount == 0 && cwnd == mss
      ensures ssthresh == Max(old(cwnd) / 2, 2 * mss) && rtt == Backoff(old(rtt), maxRTO)
    {
      hide Ok, RingBuffer.Contents, RingBuffer.Len;
      inRecovery, lossSeen := false, true;
      dupACKCount := 0;
      ssthresh := Threshold(cwnd, mss);
      cwnd := mss;
      rtt := Backoff(rtt, maxRTO);
    }

    /** Drops every SACK mark and resends the oldest entry. */
    method ResendUnmarked()
      requires Valid() && unacked != []
      modifies this`unacked, this`v
      ensures Valid() && |v.at| > 0 && |unacked| == old(|unacked|)
      ensures forall i :: 0 <= i < |unacked| ==>
                unacked[i] == old(unacked)[i].(sacked := false, retransmitted := i == 0 || old(unacked)[i].retransmitted)
      ensures v == old(v).(sent := old(v.sent) + [Segment(old(unacked)[0], v.at[0])])
    {
      hide Ok, RingBuffer.Contents, RingBuffer.Len;
      ClearMarks();
      Resend(0);
    }

    /** Drops every SACK mark. */
    method ClearMarks()
      requires Valid()
      modifies this`unacked
      ensures Valid() && SameSegments(old(unacked), unacked)
      ensures forall i :: 0 <= i < |unacked| ==> unacked[i] == old(unacked)[i].(sacked := false)
    {
      hide Ok, RingBuffer.Contents, RingBuffer.Len;
      var q' := unacked;
      for i := 0 to |unacked|
        invariant SameSegments(unacked, q')
        invariant forall k :: 0 <= k < i ==> q'[k] == unacked[k].(sacked := false)
        invariant forall k :: i <= k < |q'| ==> q'[k] == unacked[k]
      {
        q' := q'[i := q'[i].(sacked := false)];
      }
      FlagsOk(v, F(), writeBuf.Contents(), writeBuf.closed, q');
      unacked := q';
    }

    /** Marks what the peer's blocks cover; a leading duplicate report is only noted. */
    method ProcessSACKBlocks(blocks: seq<SackBlock>, ack: u32)
      requires Valid()
      modifies this`unacked, this`dsackSeen, this`v
      ensures Valid() && SameSegments(old(unacked), unacked)
      ensures v == old(v).(marked := old(v.marked) + Covering(Regular(blocks, ack), old(unacked), old(v.at)))
      ensures forall i :: 0 <= i < |unacked| ==>
                unacked[i].sacked == (old(unacked)[i].sacked || CoveredBy(Regular(blocks, ack), old(unacked)[i]))
      ensures dsackSeen == (old(dsackSeen) || (blocks != [] && !SeqGreaterThan(blocks[0].end, ack)))
    {
      hide Ok, RingBuffer.Contents, RingBuffer.Len, Covers, Covering;
      if blocks != [] && !SeqGreaterThan(blocks[0].end, ack) {
        dsackSeen := true;
      }
      var q' := MarkSacked(unacked, Regular(blocks, ack));
      MarkingOk(v, F(), writeBuf.Contents(), writeBuf.closed, Regular(blocks, ack), q');
      v := v.(marked := v.marked + Covering(Regular(blocks, ack), unacked, v.at));
      unacked := q';
    }

    /** Resends every entry with three or more marked entries above it, once. */
    method SackLossDetection()
      requires Valid()
      modifies this`unacked, this`v
      ensures Valid() && SameSegments(old(unacked), unacked) && v == old(v).(sent := v.sent) && Onward(old(v), v)
      ensures forall i :: 0 <= i < |unacked| ==> unacked[i].sacked == old(unacked)[i].sacked
      ensures forall i :: 0 <= i < |unacked| ==>
                unacked[i].retransmitted == (old(unacked)[i].retransmitted || Lost(old(unacked), i))
      ensures forall i :: 0 <= i < |unacked| && Lost(old(unacked), i) ==>
                i < |v.at| && Resent(v.sent, old(|v.sent|), Segment(old(unacked)[i], v.at[i]))
      ensures v.sent == old(v.sent) + LostSegments(old(unacked), v.at, |unacked|)
    {
      hide Ok, RingBuffer.Contents, RingBuffer.Len, MarkedFrom, Resent, Segment;
      ghost var q := unacked;
      OnwardSelf(v);
      for i := 0 to |unacked|
        invariant Valid() && |unacked| == |q| && v == old(v).(sent := v.sent) && Onward(old(v), v)
        invariant forall k :: i <= k < |q| ==> unacked[k] == q[k]
        invariant forall k :: 0 <= k < i ==> unacked[k] == q[k].(retransmitted := q[k].retransmitted || Lost(q, k))
        invariant forall k :: 0 <= k < i && Lost(q, k) ==>
                    k < |v.at| && Resent(v.sent, old(|v.sent|), Segment(q[k], v.at[k]))
        invariant v.sent == old(v.sent) + LostSegments(q, v.at, i)
      {
        MarkedFromFlags(q, unacked, i + 1);
        ghost var before := v.sent;
        var lost := ResendIfLost(i);
        if lost {
          ResentPush(before, Segment(q[i], v.at[i]), old(|v.sent|));
        }
      }
    }

    /** Resends entry `i` if it counts as lost. */
    method ResendIfLost(i: nat) returns (lost: bool)
      requires Valid() && i < |unacked|
      modifies this`unacked, this`v
      ensures Valid() && lost == old(Lost(unacked, i))
      ensures !lost ==> v == old(v) && unacked == old(unacked)
      ensures lost ==>
                && i < |v.at| && v == old(v).(sent := old(v.sent) + [Segment(old(unacked[i]), v.at[i])])
                && unacked == old(unacked)[i := old(unacked[i]).(retransmitted := true)]
    {
      hide Ok, RingBuffer.Contents, RingBuffer.Len, MarkedFrom, Segment;
      lost := false;
      if !unacked[i].sacked && !unacked[i].retransmitted {
        var n := CountMarked(unacked, i + 1);
        if n >= 3 {
          Resend(i);
          lost := true;
        }
      }
    }

    /** The application writes: what fits is accepted, nothing once the buffer is closed. */
    method AppWrite(p: seq<byte>) returns (n: nat)
      requires Valid()
      modifies this`v, writeBuf, writeBuf.buf
      ensures Valid() && writeBuf.buf == old(writeBuf.buf) && writeBuf.closed == old(writeBuf.closed)
      ensures n == if old(writeBuf.closed) then 0 else Min(|p|, old(writeBuf.Free()))
      ensures v == old(v).(written := old(v.written) + p[..n])
    {
      hide Ok, RingBuffer.Contents, RingBuffer.Len, RingBuffer.Free;
      if !writeBuf.closed {
        WritesOk(v, F(), writeBuf.Contents(), p[..Min(|p|, writeBuf.Free())]);
      }
      assert v.written + [] == v.written && writeBuf.Contents() + [] == writeBuf.Contents();
      if p == [] {
        return 0;
      }
      n := writeBuf.WriteNoBlock(p);
      v := v.(written := v.written + p[..n]);
    }

    /** The write buffer is enlarged without touching its contents. */
    method GrowBuffer(size: nat)
      requires Valid()
      modifies writeBuf
      ensures Valid() && (writeBuf.buf == old(writeBuf.buf) || fresh(writeBuf.buf))
      ensures writeBuf.closed == old(writeBuf.closed)
    {
      hide Ok, RingBuffer.Contents, RingBuffer.Len;
      writeBuf.Grow(size);
    }

    /** The application shuts its side down: no further byte is accepted. */
    method AppCloseWrite()
      requires Valid()
      modifies writeBuf`closed
      ensures Valid() && writeBuf.closed && writeBuf.Contents() == old(writeBuf.Contents())
    {
      hide Ok, RingBuffer.Contents, RingBuffer.Len;
      ClosedOk(v, F(), writeBuf.Contents(), writeBuf.closed);
      writeBuf.CloseWrite();
    }

    /** `sendFIN`: allocates the one number after the last byte. */
    method SendFIN()
      requires Valid() && !v.fin && writeBuf.closed && writeBuf.Contents() == []
      modifies this`nxt, this`unacked, this`v
      ensures Valid() && v == SendsFin(old(v)) && old(v.nxt) == |v.written|
      ensures unacked == old(unacked) + [Unacked(old(nxt), [], true, false, false)]
    {
      hide Wrap, Add, Ok, RingBuffer.Contents, RingBuffer.Len;
      SendsFinOk(v, F());
      FinPosition(v, F());
      unacked := unacked + [Unacked(nxt, [], true, false, false)];
      nxt := Add(nxt, 1);
      v := SendsFin(v);
    }

    /** A zero-window probe sends the next byte, if there is one; otherwise probing stops. */
    method SendZeroWindowProbe()
      requires Valid() && v.nxt - v.una < MAX_FLIGHT
      modifies this`nxt, this`unacked, this`v, this`zeroWindowProbing, writeBuf
      ensures Valid() && writeBuf.buf == old(writeBuf.buf) && writeBuf.closed == old(writeBuf.closed)
      ensures old(writeBuf.Contents()) == [] ==> !zeroWindowProbing && v == old(v)
      ensures old(writeBuf.Contents()) != [] ==>
                v == Sends(old(v), old(writeBuf.Contents())[..1])
    {
      hide Ok, RingBuffer.Contents, RingBuffer.Len;
      if writeBuf.Len() == 0 {
        zeroWindowProbing := false;
        return;
      }
      SendSegment(1);
    }

    /** An echoed timestamp is measured, as whatever the clock says. */
    method MeasureRTTM()
      requires Valid() && Steady()
      modifies this`rtt
      ensures Valid() && Steady()
    {
      hide Ok, UpdateRTT;
      var measured: nat := *;
      if tsEnabled && measured > 0 {
        rtt := UpdateRTT(rtt, measured, minRTO, maxRTO);
        TimeoutInRange(old(rtt), measured, minRTO, maxRTO);
      }
    }

    /** The window field alone. */
    method UpdateWindow(newWnd: nat)
      requires Valid() && Steady() && newWnd <= MAX_WND
      modifies this`wnd
      ensures Valid() && Steady() && wnd == newWnd
    {
      hide Ok;
      WindowOk(v, F(), writeBuf.Contents(), writeBuf.closed, newWnd);
      wnd := newWnd;
    }

    /** The window field, the echoed timestamp and the SACK blocks of an incoming acknowledgement. */
    method NoteWindow(ack: u32, newWnd: nat, blocks: seq<SackBlock>)
      requires Valid() && Steady() && newWnd <= MAX_WND
      modifies this`wnd, this`maxWnd, this`unacked, this`v, this`dsackSeen, this`rtt
      ensures Valid() && Steady() && wnd == newWnd && maxWnd == Max(old(maxWnd), newWnd)
      ensures v == old(v).(sent := v.sent, marked := v.marked) && Extends(old(v.sent), v.sent)
      ensures v.marked == old(v.marked) + Covering(Regular(blocks, ack), old(unacked), old(v.at))
      ensures |unacked| == old(|unacked|)
      ensures forall i :: 0 <= i < |unacked| ==>
                unacked[i].sacked == (old(unacked)[i].sacked || CoveredBy(Regular(blocks, ack), old(unacked)[i]))
    {
      hide Wrap, Ok, RingBuffer.Contents, RingBuffer.Len, CoveredBy, Covering, Regular, Extends;
      UpdateWindow(newWnd);
      maxWnd := Max(maxWnd, wnd);
      MeasureRTTM();
      TakeBlocks(ack, blocks);
    }

    /** The SACK blocks of an incoming acknowledgement: marks first, then the losses they reveal. */
    method TakeBlocks(ack: u32, blocks: seq<SackBlock>)
      requires Valid()
      modifies this`unacked, this`v, this`dsackSeen
      ensures Valid() && v == old(v).(sent := v.sent, marked := v.marked) && Extends(old(v.sent), v.sent)
      ensures v.marked == old(v.marked) + Covering(Regular(blocks, ack), old(unacked), old(v.at))
      ensures |unacked| == old(|unacked|)
      ensures forall i :: 0 <= i < |unacked| ==>
                unacked[i].sacked == (old(unacked)[i].sacked || CoveredBy(Regular(blocks, ack), old(unacked)[i]))
    {
      hide Ok, RingBuffer.Contents, RingBuffer.Len, Covers, Covering, Lost;
      CoveringNothing(unacked, v.at, ack);
      if blocks != [] {
        ProcessSACKBlocks(blocks, ack);
        SackLossDetection();
      }
    }

    /** After the acknowledgement: a window update sends more, an open window ends probing, a closed one starts it. */
    method AfterACK(reopened: bool)
      requires Valid() && Steady()
      modifies this`nxt, this`unacked, this`v, this`zeroWindowProbing, writeBuf
      ensures Valid() && Steady() && writeBuf.buf == old(writeBuf.buf) && writeBuf.closed == old(writeBuf.closed)
      ensures Onward(old(v), v)
      ensures zeroWindowProbing == (wnd == 0 && (old(zeroWindowProbing) || writeBuf.Len() > 0))
      ensures wnd > 0 && (reopened || old(zeroWindowProbing)) ==> !MaySend()
    {
      hide Wrap, Ok, Extends, MaySend, RingBuffer.Contents, RingBuffer.Len;
      OnwardSelf(v);
      if reopened {
        SendPending();
      }
      if wnd > 0 && zeroWindowProbing {
        ghost var v1 := v;
        zeroWindowProbing := false;
        SendPending();
        OnwardTwice(old(v), v1, v);
      } else if wnd == 0 && writeBuf.Len() > 0 && !zeroWindowProbing {
        zeroWindowProbing := true;
      }
    }

    /** The acknowledgement in the other states: each takes over the window or not, measures or not, then handles it. */
    method HandleClosingACK(ack: u32, newWnd: nat, window: bool, largest: bool, echo: bool, ghost a: int)
      requires Valid() && Steady() && newWnd <= MAX_WND
      requires ack == Wrap(iss + 1 + a) && -TWO_31 <= a - v.una < TWO_31
      modifies this, writeBuf
      ensures Valid() && Steady() && writeBuf.buf == old(writeBuf.buf) && writeBuf.closed == old(writeBuf.closed)
      ensures wnd == (if window then newWnd else old(wnd)) && aborted == old(aborted)
      ensures mss <= old(cwnd) < TWO_31 ==> mss <= cwnd
      ensures Onward(old(v).(una := if old(v.una) < a <= old(v.nxt) then a else old(v.una)), v)
      ensures old(lossSeen) ==> lossSeen
    {
      hide Wrap, Ok, Extends, MaySend, Steady, RingBuffer.Contents, RingBuffer.Len;
      if window {
        UpdateWindow(newWnd);
      }
      if largest {
        NoteMaxWindow();
      }
      if echo {
        MeasureRTTM();
      }
      HandleACK(ack, a);
    }

    /** The largest window seen. */
    method NoteMaxWindow()
      requires Valid() && Steady()
      modifies this`maxWnd
      ensures Valid() && Steady() && maxWnd == Max(old(maxWnd), wnd)
    {
      hide Ok;
      maxWnd := Max(maxWnd, wnd);
    }

    /**
     The acknowledgement part of `handleEstablished`: window update, SACK processing, the
     acknowledgement itself, and the end or start of zero-window probing.
     */
    method HandleEstablishedACK(ack: u32, newWnd: nat, blocks: seq<SackBlock>, ghost a: int)
      requires Valid() && Steady() && newWnd <= MAX_WND
      requires ack == Wrap(iss + 1 + a) && -TWO_31 <= a - v.una < TWO_31
      modifies this, writeBuf
      ensures Valid() && Steady() && writeBuf.buf == old(writeBuf.buf) && writeBuf.closed == old(writeBuf.closed)
      ensures wnd == newWnd && maxWnd == Max(old(maxWnd), newWnd) && aborted == old(aborted)
      ensures mss <= old(cwnd) < TWO_31 ==> mss <= cwnd
      ensures Onward(old(v).(una := if old(v.una) < a <= old(v.nxt) then a else old(v.una), marked := v.marked), v)
      ensures v.marked == old(v.marked) + Covering(Regular(blocks, ack), old(unacked), old(v.at))
      ensures old(lossSeen) ==> lossSeen
    {
      hide Wrap, Ok, Extends, MaySend, Steady, RingBuffer.Contents, RingBuffer.Len, Covering, CoveredBy;
      var oldWnd := wnd;
      NoteWindow(ack, newWnd, blocks);
      ghost var v1 := v;
      HandleACK(ack, a);
      ghost var v2 := v;
      AfterACK(ack == una && newWnd > oldWnd);
      OnwardAck(old(v), v1, v2, v, if old(v.una) < a <= old(v.nxt) then a else old(v.una));
    }
  }
}
