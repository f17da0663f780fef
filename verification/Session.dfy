/** The parts put together: opening both ends of a connection, and runs of the handlers on concrete segments. */
module Session {
  import opened Bytes
  import opened SeqNum
  import opened Ring
  import opened SendQueue
  import opened TcpReceiver
  import opened TcpSender
  import opened Network
  import opened EndToEnd
  import opened Closing
  import Fragment
  import Options
  import Window

  const MSS: nat := 1460

  /** The sender's configuration, as the handshake passes it on. */
  datatype Config = Config(minRTO: int, maxRTO: int, initialRTO: int, maxRetries: nat, ssthresh: u32) {
    ghost predicate Valid() {
      0 < minRTO <= initialRTO <= maxRTO && 0 < ssthresh
    }
  }

  const DEFAULTS: Config := Config(200, 60000, 1000, 15, 65535)

  /** Opening the send side: the segment size is what the peer and the MTU allow, less the timestamp option. */
  method NewSender(iss: u32, size: nat, wnd: nat, mss: nat, tsEnabled: bool, cfg: Config) returns (snd: Sender)
    requires size > 0 && wnd <= MAX_WND && 0 < mss - (if tsEnabled then 12 else 0) && mss <= 65535 && cfg.Valid()
    ensures fresh(snd) && fresh(snd.writeBuf) && fresh(snd.writeBuf.buf)
    ensures snd.Valid() && snd.Steady() && snd.mss == (if tsEnabled then mss - 12 else mss) <= snd.cwnd && snd.iss == iss
    ensures snd.v == View([], 0, 0, [0], false, [], iset{}) && snd.writeBuf.Cap() == size && snd.writeBuf.Contents() == []
    ensures !snd.writeBuf.closed
  {
    var buf := new RingBuffer(size);
    snd := new Sender(iss, buf, wnd, if tsEnabled then mss - 12 else mss, tsEnabled, false, 0, cfg.ssthresh,
                      cfg.minRTO, cfg.maxRTO, cfg.initialRTO, cfg.maxRetries);
  }

  /**
   Opening the receive side as the handshake does it: the scale comes from the two configured sizes. The window is never
   saturated, whatever becomes free, exactly when the initial buffer and those sizes stay below 2^16 units; sizes below
   2^30 with an initial buffer no larger always do.
   */
  method NewReceiver(irs: u32, initial: nat, readBufSize: nat, maxBufSize: nat) returns (rcv: Receiver, scale: nat)
    requires 0 < initial < TWO_31 && readBufSize < TWO_31 && maxBufSize < TWO_31
    ensures fresh(rcv) && fresh(rcv.readBuf) && fresh(rcv.readBuf.buf)
    ensures rcv.Valid([]) && rcv.Honest() && rcv.irs == irs && !rcv.finReceived && !rcv.finDone
    ensures rcv.g == [] && rcv.pos == 0
    ensures rcv.readBuf.Free() == initial && rcv.taken == [] && rcv.limit == Max(initial, Max(readBufSize, maxBufSize))
    ensures scale <= Window.MAX_WND_SCALE && (Max(readBufSize, maxBufSize) < 65536 ==> scale == 0)
    ensures (forall free :: 0 <= free <= rcv.limit ==> Window.Shift(free, scale) <= Window.MAX_WND) <==>
            Max(initial, Max(readBufSize, maxBufSize)) < 65536 * Window.Pow2(scale)
    ensures initial <= Max(readBufSize, maxBufSize) < 65536 * 16384 ==> rcv.limit < 65536 * Window.Pow2(scale)
  {
    hide Window.Pow2, Window.Shift;
    scale := Window.CalculateWindowScale(Max(readBufSize, maxBufSize));
    assert Window.Pow2(0) >= 1;
    var buf := new RingBuffer(initial);
    rcv := new Receiver(irs, buf, readBufSize, maxBufSize);
    Window.NeverSaturatedIff(rcv.limit, scale);
  }

  /** The shift in effect for one side's windows: the one it named, if the other named one too (section 2.2 of RFC 7323). */
  function ShiftInEffect(named: int, others: int): nat {
    if named >= 0 && others >= 0 then named else 0
  }

  /**
   Window scaling as the handshake settles it, with `offered` -1 when the peer's SYN has no such option. Our own windows
   are read as they are meant. The peer's are so exactly when it offered no scaling, or a scale of our own is announced,
   which takes a buffer of 2^16 bytes; otherwise each is read too large.
   */
  method Negotiate(offered: int, readBufSize: nat, maxBufSize: nat, mss: nat)
    returns (sndScale: nat, rcvScale: nat, answer: Options.SynOptions)
    requires -1 <= offered <= Window.MAX_WND_SCALE && mss <= 65535
    ensures rcvScale == ShiftInEffect(answer.ws, offered)
    ensures sndScale == ShiftInEffect(offered, answer.ws) <==> offered <= 0 || Max(readBufSize, maxBufSize) >= 65536
    ensures sndScale != ShiftInEffect(offered, answer.ws) ==>
              forall w: nat :: w > 0 ==> Window.Units(w, sndScale) > Window.Units(w, ShiftInEffect(offered, answer.ws))
  {
    sndScale, rcvScale := 0, 0;
    if offered >= 0 {
      sndScale := offered;
      rcvScale := Window.CalculateWindowScale(Max(readBufSize, maxBufSize));
    }
    answer := Options.SynRoundTrip(mss, rcvScale, false, Fragment.None);
    assert Window.Pow2(0) == 1;
    if sndScale != ShiftInEffect(offered, answer.ws) {
      forall w: nat | w > 0
        ensures Window.Units(w, sndScale) > Window.Units(w, 0)
      {
        Window.ScaledIsLarger(w, sndScale);
      }
    }
  }

  /** An initial buffer larger than the configured sizes: the window on the wire cannot tell how much is free. */
  method SaturatedWindow() returns (rcv: Receiver, scale: nat)
    ensures scale == 0 && rcv.readBuf.Valid() && rcv.readBuf.Free() == 131072
    ensures Window.Shift(rcv.readBuf.Free(), scale) > Window.MAX_WND
  {
    hide Receiver.Honest, RingBuffer.Contents;
    rcv, scale := NewReceiver(4, 131072, 1, 1);
  }

  /** A write of nothing to an empty buffer makes it full. */
  method ZeroWrite() returns (buf: RingBuffer, n: nat)
    ensures n == 0 && buf.Valid() && buf.Len() == buf.Cap() == 1
  {
    hide RingBuffer.Contents;
    buf := new RingBuffer(1);
    n := buf.WriteNoBlock([]);
  }

  /** A read buffer of one byte, filled by the peer's first one. */
  method Fill() returns (rcv: Receiver)
    ensures fresh(rcv) && fresh(rcv.readBuf) && fresh(rcv.readBuf.buf)
    ensures rcv.Valid([7]) && rcv.irs == 4 && rcv.pos == 1 && !rcv.finDone && rcv.taken == []
    ensures rcv.readBuf.full && rcv.readBuf.Contents() == [7]
  {
    hide Receiver.Honest, Accepts, HeldIn, Wrap, Window.Pow2, Window.Shift, RingBuffer.Contents;
    var scale;
    rcv, scale := NewReceiver(4, 1, 1, 1);
    rcv.MoreStream([], [7]);
    rcv.HeldInWindow([7]);
    var due := rcv.HandleData(Wrap(5), [7], 0, [7]);
    LastReach(0, HeldIn([]), 0, 1, 1, rcv.pos, rcv.Held());
    rcv.Basics([7]);
    assert rcv.Delivered() == [7];
  }

  /** A read of nothing from the full buffer: the byte has been acknowledged, and is gone. */
  method ZeroRead() returns (rcv: Receiver, out: seq<byte>)
    ensures rcv.nxt == Wrap(rcv.irs + 1 + |[7]|) && out == [] && rcv.readBuf.Valid() && rcv.Delivered() == []
    ensures !rcv.Valid([7])
  {
    hide Receiver.Valid, Receiver.Honest, RingBuffer.Contents, RingBuffer.Len, Wrap;
    rcv := Fill();
    rcv.Basics([7]);
    out := rcv.AppRead(0, [7]);
  }

  /** Both ends of a fresh connection are an initial state of the system. */
  method Connect(iss: u32, sendSize: nat, initial: nat, readBufSize: nat, maxBufSize: nat, wnd: nat, mss: nat,
                 tsEnabled: bool, cfg: Config) returns (link: Link)
    requires 0 < sendSize && 0 < initial < TWO_31 && readBufSize < TWO_31 && maxBufSize < TWO_31 && wnd <= MAX_WND
    requires 0 < mss - (if tsEnabled then 12 else 0) && mss <= 65535 && cfg.Valid()
    ensures fresh(link.Repr()) && link.Valid() && Init(link.State())
  {
    hide Sender.Valid, Sender.Steady, Receiver.Valid, Receiver.Honest, Link.Valid, Init, RingBuffer.Contents,
      RingBuffer.Len, RingBuffer.Free, Window.Pow2, Window.Shift;
    var snd := NewSender(iss, sendSize, wnd, mss, tsEnabled, cfg);
    var rcv, scale := NewReceiver(iss, initial, readBufSize, maxBufSize);
    link := new Link(snd, rcv);
  }

  /** A fresh connection, from the side that is going to close. */
  method Open(iss: u32, irs: u32) returns (c: Conn)
    ensures fresh(c) && fresh(c.snd) && fresh(c.snd.writeBuf) && fresh(c.snd.writeBuf.buf)
    ensures fresh(c.rcv) && fresh(c.rcv.readBuf) && fresh(c.rcv.readBuf.buf)
    ensures c.Valid() && c.state == Established && !c.closeRequested
    ensures c.snd.iss == iss && c.snd.mss == MSS && c.snd.writeBuf.Cap() == 1000 && c.snd.writeBuf.Contents() == []
    ensures c.snd.v == View([], 0, 0, [0], false, [], iset{}) && !c.snd.writeBuf.closed
    ensures c.rcv.Valid([]) && c.rcv.irs == irs && c.rcv.pos == 0 && c.rcv.readBuf.Free() == 1000
    ensures !c.rcv.finReceived && !c.rcv.finDone
  {
    hide Sender.Valid, Sender.Steady, Receiver.Valid, Receiver.Honest, RingBuffer.Contents, RingBuffer.Len,
      RingBuffer.Free, Window.Pow2, Window.Shift;
    var snd := NewSender(iss, 1000, 65535, MSS, false, DEFAULTS);
    var rcv, scale := NewReceiver(irs, 1000, 1000, 1000);
    c := new Conn(snd, rcv);
  }

  /** Two bytes written and sent. */
  method SendTwo(c: Conn)
    requires c.Valid() && c.snd.v == View([], 0, 0, [0], false, [], iset{}) && c.snd.mss == MSS && !c.closeRequested
    requires c.snd.writeBuf.Cap() == 1000 && c.snd.writeBuf.Contents() == [] && !c.snd.writeBuf.closed
    modifies c.snd, c.snd.writeBuf, c.snd.writeBuf.buf
    ensures c.Valid() && c.snd.writeBuf.buf == old(c.snd.writeBuf.buf)
    ensures c.snd.v.written == [5, 6] && c.snd.v.una == 0 && c.snd.v.nxt == 2 && !c.snd.v.fin
  {
    hide Ok;
    var n := c.snd.AppWrite([5, 6]);
    assert [5, 6][..2] == [5, 6];
    Unsent(c.snd.v, c.snd.F(), c.snd.writeBuf.Contents(), c.snd.writeBuf.closed);
    c.snd.SendSegment(2);
  }

  lemma Unsent(v: View, f: Fields, unsent: seq<byte>, closed: bool)
    requires Ok(v, f, unsent, closed)
    ensures !v.fin ==> 0 <= v.nxt <= |v.written| && unsent == v.written[v.nxt..]
    ensures v.fin ==> unsent == []
  {
    hide Queue, Numbers, AllGenuine;
  }

  /** The peer closes first, then we do: LAST_ACK with two bytes and our FIN outstanding. */
  method ReachLastAck() returns (c: Conn)
    ensures fresh(c) && fresh(c.snd) && fresh(c.snd.writeBuf)
    ensures c.Valid() && c.state == LastAck && c.snd.iss == 9
    ensures c.snd.v.fin && c.snd.v.written == [5, 6] && c.snd.v.una == 0 && c.snd.v.nxt == 3
  {
    hide Ok, Sender.Steady, Receiver.Valid, RingBuffer.Contents, RingBuffer.Len, RingBuffer.Free, Wrap, Extends;
    c := Open(9, 4);
    SendTwo(c);
    var now := c.HandleEstablished(false, Wrap(10), 0, [], Wrap(5), [], true, 0, 0, []);
    c.rcv.Basics([]);
    c.CloseWrite();
    c.HandleClose();
    Unsent(c.snd.v, c.snd.F(), c.snd.writeBuf.Contents(), c.snd.writeBuf.closed);
  }

  /** LAST_ACK closes too early: an acknowledgement of the first byte alone closes the connection. */
  method LastAckClosesEarly() returns (c: Conn)
    ensures c.state == TcpState.Closed && c.snd.v.fin
    ensures c.snd.v.written == [5, 6] && c.snd.v.una == 1 && c.snd.v.nxt == 3
  {
    hide Ok, Sender.Steady, RingBuffer.Contents, RingBuffer.Len, Wrap;
    c := ReachLastAck();
    c.HandleLastAck(true, Wrap(11), 1);
  }

  /** The peer's FIN arrives before its one byte and is deferred; then we close: FIN_WAIT_1. */
  method ReachFinWait1() returns (c: Conn)
    ensures fresh(c) && fresh(c.snd) && fresh(c.snd.writeBuf) && fresh(c.rcv) && fresh(c.rcv.readBuf)
    ensures fresh(c.rcv.readBuf.buf)
    ensures c.Valid() && c.state == FinWait1 && c.snd.iss == 9 && c.snd.v.una == 0 && c.snd.v.nxt == 1
    ensures c.rcv.Valid([7]) && c.rcv.irs == 4 && c.rcv.pos == 0 && c.rcv.Edge() >= 1
    ensures c.rcv.finReceived && !c.rcv.finDone
  {
    hide Ok, Sender.Steady, Receiver.Valid, RingBuffer.Contents, RingBuffer.Len, RingBuffer.Free, Wrap, Extends;
    c := Open(9, 4);
    c.rcv.MoreStream([], [7]);
    var now := c.HandleEstablished(false, Wrap(10), 0, [], Wrap(6), [], true, 0, 1, [7]);
    c.CloseWrite();
    c.HandleClose();
    Unsent(c.snd.v, c.snd.F(), c.snd.writeBuf.Contents(), c.snd.writeBuf.closed);
  }

  /**
   A FIN is stepped over twice: the missing byte makes the deferred FIN fall due while it acknowledges ours, so the
   connection goes to FIN_WAIT_2 with the peer's FIN consumed, and when that FIN is sent again RCV.NXT moves once more.
   */
  method FinSteppedOverTwice() returns (c: Conn)
    ensures c.state == TimeWait
    ensures c.rcv.nxt == Wrap(c.rcv.irs + 1 + |[7]| + 2) && !c.rcv.Valid([7])
  {
    hide Ok, Sender.Steady, Receiver.Valid, RingBuffer.Contents, RingBuffer.Len, RingBuffer.Free, Wrap, Add;
    c := ReachFinWait1();
    c.HandleFinWait1(true, Wrap(11), 0, Wrap(5), [7], false, 1, 0, [7]);
    c.rcv.Basics([7]);
    c.HandleFinWait2(false, 0, Wrap(6), [], true, 1, [7]);
    WrapDistributes(7, 1);
  }
}
