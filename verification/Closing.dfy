/**
 Shutting a connection down: when the FIN is sent, when it counts as acknowledged, and what the
 handlers of the closing states do with the peer's FIN.
 */
module Closing {
  import opened Bytes
  import opened SeqNum
  import opened SendQueue
  import opened OutOfOrder
  import opened Reassembly
  import opened Ring
  import opened TcpReceiver
  import opened TcpSender

  datatype TcpState =
    | Established
    | FinWait1
    | FinWait2
    | CloseWait
    | Closing
    | LastAck
    | TimeWait
    | Closed

  class Conn {
    var state: TcpState
    const snd: Sender
    const rcv: Receiver
    /** The FIN waits for the write buffer to drain. */
    var finPending: bool
    /** `CloseWrite` has run; it runs once. */
    var closeRequested: bool
    /** The close request waits in its channel. */
    var closeSignal: bool
    /** Data segments taken since the last acknowledgement was sent. */
    var unackedSegs: nat

    ghost predicate Apart()
      reads this, snd, snd.writeBuf, rcv, rcv.readBuf
    {
      snd.writeBuf != rcv.readBuf && snd.writeBuf.buf != rcv.readBuf.buf
    }

    /**
     The close request is in exactly one place: not made, waiting in its channel, waiting for the
     buffer to drain, or spent. So the FIN is sent at most once, and only after the last write.
     */
    ghost predicate Discipline()
      reads this, snd, snd.writeBuf
    {
      && (closeSignal || finPending || snd.v.fin ==> closeRequested)
      && (closeRequested ==> snd.writeBuf.closed)
      && !(closeSignal && (finPending || snd.v.fin)) && !(finPending && snd.v.fin)
    }

    /** The states that are entered by sending our FIN, and the one that is left by taking the peer's. */
    ghost predicate FinStates()
      reads this, snd, rcv
    {
      && (state == FinWait1 || state == FinWait2 || state == Closing || state == LastAck || state == TimeWait ==> snd.v.fin)
      && (state == Established ==> !rcv.finDone)
    }

    ghost predicate Valid()
      reads this, snd, snd.writeBuf, snd.writeBuf.buf, rcv, rcv.readBuf
    {
      Apart() && snd.Valid() && snd.Steady() && Discipline() && FinStates() && unackedSegs <= 1
    }

    constructor (snd: Sender, rcv: Receiver)
      requires snd.Valid() && snd.Steady() && !snd.v.fin && !rcv.finDone
      requires snd.writeBuf != rcv.readBuf && snd.writeBuf.buf != rcv.readBuf.buf
      ensures Valid() && state == Established && !closeRequested && this.snd == snd && this.rcv == rcv && unackedSegs == 0
    {
      this.snd, this.rcv, state := snd, rcv, Established;
      finPending, closeRequested, closeSignal, unackedSegs := false, false, false, 0;
    }

    /** The data and the FIN of a segment in ESTABLISHED; taking the peer's FIN leads to CLOSE_WAIT. */
    method TakeSegment(sn: u32, payload: seq<byte>, fin: bool, ghost p: int, ghost s: seq<byte>)
      returns (due: bool, taken: bool)
      requires Valid() && state == Established
      requires rcv.Valid(s) && rcv.Arrives(sn, payload, p, s) && |payload| < TWO_31
      requires fin ==> p + |payload| == |s| && |s| - rcv.pos < TWO_31
      modifies this`state, rcv, rcv.readBuf, rcv.readBuf.buf
      ensures Valid() && rcv.Valid(s) && rcv.Edge() >= old(rcv.Edge())
      ensures rcv.readBuf.buf == old(rcv.readBuf.buf) || fresh(rcv.readBuf.buf)
      ensures state == if rcv.finDone then CloseWait else Established
      ensures rcv.finDone <==> rcv.pos == |s| && (fin || (old(rcv.finReceived) && old(rcv.pos) < rcv.pos))
      ensures !rcv.finDone ==> (rcv.finReceived <==> fin || old(rcv.finReceived))
      ensures payload == [] ==> rcv.pos == old(rcv.pos)
      ensures due || taken <==> rcv.finDone
      ensures old(rcv.pos) <= rcv.pos && rcv.nxt == Wrap(rcv.irs + 1 + rcv.AckPos())
    {
      hide Ok, Sender.Steady, Receiver.Valid, RingBuffer.Contents, RingBuffer.Len, Accepts, HeldIn, Wrap, Add, Reported;
      due, taken := rcv.HandleEstablished(sn, payload, fin, p, s);
      rcv.Basics(s);
      if due || taken {
        state := CloseWait;
      }
    }

    /** Whether a data segment is acknowledged at once: out of order, or the second one since the last acknowledgement. */
    method CountSegment(sn: u32, ghost p: int) returns (ackNow: bool)
      requires Valid() && sn == Wrap(rcv.irs + 1 + p) && rcv.nxt == Wrap(rcv.irs + 1 + rcv.AckPos())
      requires p - rcv.AckPos() < TWO_31
      modifies this`unackedSegs
      ensures Valid() && (p > rcv.AckPos() ==> ackNow) && (old(unackedSegs) == 1 ==> ackNow)
      ensures rcv.AckPos() - TWO_31 <= p ==> (ackNow <==> p > rcv.AckPos() || old(unackedSegs) == 1)
      ensures unackedSegs == if ackNow then 0 else 1
    {
      hide Ok, Sender.Steady, RingBuffer.Contents, RingBuffer.Len, Wrap, SeqGreaterThan;
      unackedSegs := unackedSegs + 1;
      if p >= rcv.AckPos() - TWO_31 {
        OrderAgrees(rcv.irs + 1 + p, rcv.irs + 1 + rcv.AckPos());
      }
      ackNow := SeqGreaterThan(sn, rcv.nxt) || unackedSegs >= 2;
      if ackNow {
        unackedSegs := 0;
      }
    }

    /**
     `handleEstablished`: acknowledgement, then data, then FIN. A FIN that is taken and a segment out of order are
     acknowledged at once, and never is more than one data segment left without an acknowledgement.
     */
    method HandleEstablished(ackFlag: bool, ack: u32, newWnd: nat, blocks: seq<SackBlock>,
                             sn: u32, payload: seq<byte>, fin: bool, ghost a: int, ghost p: int, ghost s: seq<byte>)
      returns (ackNow: bool)
      requires Valid() && state == Established && newWnd <= MAX_WND
      requires ack == Wrap(snd.iss + 1 + a) && -TWO_31 <= a - snd.v.una < TWO_31
      requires rcv.Valid(s) && rcv.Arrives(sn, payload, p, s) && |payload| < TWO_31
      requires fin ==> p + |payload| == |s| && |s| - rcv.pos < TWO_31
      modifies this`state, this`unackedSegs, snd, snd.writeBuf, rcv, rcv.readBuf, rcv.readBuf.buf
      ensures Valid() && rcv.Valid(s) && rcv.Edge() >= old(rcv.Edge())
      ensures rcv.readBuf.buf == old(rcv.readBuf.buf) || fresh(rcv.readBuf.buf)
      ensures state == if rcv.finDone then CloseWait else Established
      ensures rcv.finDone <==> rcv.pos == |s| && (fin || (old(rcv.finReceived) && old(rcv.pos) < rcv.pos))
      ensures !rcv.finDone ==> (rcv.finReceived <==> fin || old(rcv.finReceived))
      ensures payload == [] ==> rcv.pos == old(rcv.pos)
      ensures if ackFlag
              then Onward(old(snd.v).(una := if old(snd.v.una) < a <= old(snd.v.nxt) then a else old(snd.v.una),
                                      marked := snd.v.marked), snd.v)
              else snd.v == old(snd.v)
      ensures rcv.finDone || (payload != [] && p > rcv.pos) ==> ackNow
      ensures rcv.AckPos() - TWO_31 <= p ==>
                (ackNow <==> rcv.finDone || (payload != [] && (p > rcv.pos || old(unackedSegs) == 1)))
      ensures !ackNow ==> unackedSegs == old(unackedSegs) + if payload != [] then 1 else 0
    {
      hide Ok, Sender.Steady, Receiver.Valid, RingBuffer.Contents, RingBuffer.Len, Extends, Wrap;
      if ackFlag {
        snd.HandleEstablishedACK(ack, newWnd, blocks, a);
      }
      var due, taken := TakeSegment(sn, payload, fin, p, s);
      ackNow := due || taken;
      if !taken && |payload| > 0 {
        var now := CountSegment(sn, p);
        ackNow := ackNow || now;
      }
    }

    /** The application closes its side; later calls do nothing. */
    method CloseWrite()
      requires Valid()
      modifies this`closeRequested, this`closeSignal, snd.writeBuf`closed
      ensures Valid() && closeRequested && snd.writeBuf.closed && snd.v == old(snd.v)
      ensures closeSignal == (old(closeSignal) || !old(closeRequested))
      ensures snd.writeBuf.Contents() == old(snd.writeBuf.Contents())
    {
      hide Ok, Sender.Steady, RingBuffer.Contents, RingBuffer.Len;
      if !closeRequested {
        closeRequested := true;
        snd.AppCloseWrite();
        closeSignal := true;
      }
    }

    /** Coming from `from`: the FIN waits while bytes do, and otherwise is sent, right after the last byte. */
    ghost predicate FinSentOrWaiting(from: TcpState)
      reads this, snd, snd.writeBuf
      requires snd.writeBuf.Valid()
    {
      if snd.writeBuf.Len() > 0 then finPending && !snd.v.fin && state == from
      else
        && !finPending && snd.v.fin && snd.v.nxt == |snd.v.written| + 1
        && state == if from == Established then FinWait1 else LastAck
    }

    /** `finalizeFIN`: sends the FIN from the two states that may, and moves on. */
    method FinalizeFIN()
      requires Valid() && closeRequested && !closeSignal && !snd.v.fin && snd.writeBuf.Contents() == []
      modifies this`state, this`finPending, snd
      ensures Valid() && !finPending
      ensures if old(state) == Established || old(state) == CloseWait
              then snd.v == SendsFin(old(snd.v)) && old(snd.v.nxt) == |snd.v.written|
                   && state == (if old(state) == Established then FinWait1 else LastAck)
              else snd.v == old(snd.v) && state == old(state)
    {
      hide Ok, Wrap, RingBuffer.Contents, RingBuffer.Len;
      finPending := false;
      if state == Established {
        snd.SendFIN();
        state := FinWait1;
      } else if state == CloseWait {
        snd.SendFIN();
        state := LastAck;
      }
    }

    /** `handleClose`: flush what the window allows, then send the FIN now or when the rest has gone. */
    method HandleClose()
      requires Valid() && closeSignal
      modifies this`state, this`finPending, this`closeSignal, snd, snd.writeBuf
      ensures Valid() && snd.v.written == old(snd.v.written) && snd.v.una == old(snd.v.una) && old(snd.v.nxt) <= snd.v.nxt
      ensures if old(state) == Established || old(state) == CloseWait then FinSentOrWaiting(old(state))
              else snd.v == old(snd.v) && state == old(state) && !finPending
    {
      hide Ok, Sender.MaySend, RingBuffer.Contents, RingBuffer.Len;
      closeSignal := false;
      if state == Established || state == CloseWait {
        snd.SendPending();
        if snd.writeBuf.Len() > 0 {
          finPending := true;
          return;
        }
        FinalizeFIN();
      }
    }

    /** The deferred FIN is tried again after each segment and each write notification. */
    method DrainForFIN()
      requires Valid() && finPending
      modifies this`state, this`finPending, snd, snd.writeBuf
      ensures Valid() && snd.v.written == old(snd.v.written)
      ensures finPending <==> snd.writeBuf.Len() > 0
      ensures if old(state) == Established || old(state) == CloseWait then FinSentOrWaiting(old(state))
              else !snd.v.fin && state == old(state)
    {
      hide Ok, Sender.MaySend, RingBuffer.Contents, RingBuffer.Len;
      snd.SendPending();
      if snd.writeBuf.Len() == 0 {
        FinalizeFIN();
      }
    }

    /** The acknowledgement of a segment in a closing state; reports whether our FIN is acknowledged. */
    method TakeAck(ack: u32, ghost a: int) returns (ackOfFIN: bool)
      requires Valid() && ack == Wrap(snd.iss + 1 + a) && -TWO_31 <= a - snd.v.una < TWO_31
      modifies snd, snd.writeBuf
      ensures Valid() && Onward(old(snd.v).(una := snd.v.una), snd.v)
      ensures snd.v.una == if old(snd.v.una) < a <= old(snd.v.nxt) then a else old(snd.v.una)
      ensures ackOfFIN <==> snd.v.una == snd.v.nxt
      ensures old(snd.v.fin) ==> snd.v.nxt == old(snd.v.nxt) == |snd.v.written| + 1
      ensures snd.wnd == old(snd.wnd)
    {
      hide Ok, Sender.MaySend, Sender.Steady, RingBuffer.Contents, RingBuffer.Len, Extends;
      snd.HandleACK(ack, a);
      AllAcked(snd.v, snd.F(), snd.writeBuf.Contents(), snd.writeBuf.closed);
      if old(snd.v.fin) {
        FinStays(old(snd.v), old(snd.F()), old(snd.writeBuf.Contents()), old(snd.writeBuf.closed),
                 snd.v, snd.F(), snd.writeBuf.Contents(), snd.writeBuf.closed);
      }
      ackOfFIN := |snd.unacked| == 0;
    }

    /** CLOSING ends in TIME_WAIT exactly when everything, our FIN included, is acknowledged. */
    method HandleClosing(ackFlag: bool, ack: u32, ghost a: int)
      requires Valid() && state == Closing
      requires ack == Wrap(snd.iss + 1 + a) && -TWO_31 <= a - snd.v.una < TWO_31
      modifies this`state, snd, snd.writeBuf
      ensures Valid() && snd.v.written == old(snd.v.written)
      ensures state == TimeWait <==> ackFlag && snd.v.una == snd.v.nxt
      ensures state == TimeWait ==> snd.v.una == |snd.v.written| + 1
      ensures state != TimeWait ==> state == Closing
    {
      hide Ok, Sender.Steady, RingBuffer.Contents, RingBuffer.Len, Extends;
      if ackFlag {
        snd.MeasureRTTM();
        var ackOfFIN := TakeAck(ack, a);
        if ackOfFIN {
          state := TimeWait;
        }
      }
    }

    /**
     LAST_ACK closes on any acknowledgement that is ahead of SND.UNA. So it closes with our FIN
     unacknowledged exactly when that acknowledgement is new but is not for all that was sent.
     */
    method HandleLastAck(ackFlag: bool, ack: u32, ghost a: int)
      requires Valid() && state == LastAck
      requires ack == Wrap(snd.iss + 1 + a) && -TWO_31 <= a - snd.v.una < TWO_31
      modifies this`state, snd, snd.writeBuf
      ensures Valid() && snd.v.written == old(snd.v.written) && snd.v.nxt == old(snd.v.nxt) && snd.v.fin
      ensures snd.v.una == if ackFlag && old(snd.v.una) < a <= old(snd.v.nxt) then a else old(snd.v.una)
      ensures state == Closed <==> ackFlag && (old(snd.v.una == snd.v.nxt) || old(snd.v.una) < a)
      ensures state == Closed && snd.v.una < snd.v.nxt <==>
              ackFlag && old(snd.v.una) < a && a != old(snd.v.nxt) && old(snd.v.una < snd.v.nxt)
      ensures state != Closed ==> state == LastAck
    {
      hide Wrap, SeqGreaterThan, Ok, Sender.Steady, RingBuffer.Contents, RingBuffer.Len, Extends;
      AllAcked(snd.v, snd.F(), snd.writeBuf.Contents(), snd.writeBuf.closed);
      AheadReading(snd.v, snd.F(), snd.writeBuf.Contents(), snd.writeBuf.closed, a);
      if ackFlag {
        if |snd.unacked| == 0 || SeqGreaterThan(ack, snd.una) {
          var ackOfFIN := TakeAck(ack, a);
          state := Closed;
        }
      }
    }

    /** The data of a segment in FIN_WAIT_1 or FIN_WAIT_2; a deferred FIN that falls due here leads to CLOSE_WAIT. */
    method TakeData(sn: u32, payload: seq<byte>, ghost p: int, ghost s: seq<byte>)
      requires Valid() && rcv.Valid(s) && rcv.Arrives(sn, payload, p, s) && |payload| < TWO_31
      modifies this`state, rcv, rcv.readBuf, rcv.readBuf.buf
      ensures Valid() && rcv.Valid(s) && old(rcv.pos) <= rcv.pos
      ensures rcv.finDone <==> old(rcv.finDone) || (old(rcv.finReceived) && old(rcv.pos) < rcv.pos == |s|)
      ensures state == if rcv.finDone && !old(rcv.finDone) then CloseWait else old(state)
      ensures p + |payload| == |s| ==> (rcv.pos == |s| <==> p <= old(rcv.pos) && |s| <= old(rcv.Edge()))
      ensures rcv.readBuf.buf == old(rcv.readBuf.buf) || fresh(rcv.readBuf.buf)
    {
      hide Sender.Valid, Sender.Steady, Accepts, Receiver.Valid, Receiver.Arrives, Receiver.Honest, HeldIn,
        RingBuffer.Contents, RingBuffer.Len, Wrap, Add;
      rcv.Basics(s);
      rcv.HeldInWindow(s);
      if |payload| > 0 {
        var finDue := rcv.HandleData(sn, payload, p, s);
        rcv.Basics(s);
        if !old(rcv.finDone) && p + |payload| == |s| {
          LastReach(old(rcv.pos), old(rcv.Held()), p, |payload|, old(rcv.Edge()), rcv.pos, rcv.Held());
        }
        if finDue {
          rcv.ProcessFIN(s);
          state := CloseWait;
        }
      }
    }

    /**
     The guard that the FIN_WAIT handlers leave out, before the segment is looked at: the peer's FIN at the end of the
     segment follows on from what was delivered, fits the window, and has been neither consumed nor deferred to this point.
     */
    ghost predicate FinInOrder(p: int, payload: seq<byte>)
      reads rcv, rcv.readBuf
      requires rcv.readBuf.Valid()
    {
      && p <= rcv.pos && p + |payload| <= rcv.Edge()
      && !rcv.finDone && !(rcv.finReceived && rcv.pos < p + |payload|)
    }

    /** The same guard on the fields and the numbers of the segment, as a handler could test it. */
    lemma FinGuardOnWire(sn: u32, payload: seq<byte>, p: int, s: seq<byte>)
      requires rcv.Valid(s) && rcv.Arrives(sn, payload, p, s) && p + |payload| == |s| && |s| - rcv.pos < TWO_31
      ensures var end := Add(sn, |payload|);
              FinInOrder(p, payload) <==>
              && !SeqGreaterThan(sn, rcv.nxt) && !SeqGreaterThan(end, Add(rcv.nxt, rcv.readBuf.Free()))
              && !rcv.readBuf.closed && !(rcv.finReceived && SeqLessThan(rcv.nxt, end))
    {
      hide Wrap, Add, Sub, SeqGreaterThan, SeqLessThan, Separated, AllCut, Wire, RingBuffer.Contents, RingBuffer.Len;
      rcv.Basics(s);
      rcv.HeldInWindow(s);
      var base, pos, free := rcv.irs + 1, rcv.pos, rcv.readBuf.Free();
      WrapDistributes(base + p, |payload|);
      if !rcv.finDone {
        WrapDistributes(base + pos, free);
        OrderAgrees(base + p, base + pos);
        OrderAgrees(base + |s|, base + pos + free);
        OrderAgrees(base + pos, base + |s|);
      }
    }

    /**
     The data of a segment and then the step over its FIN, which both FIN_WAIT handlers take whatever is missing. The
     receiver stays in step exactly when the guard held; a FIN that is seen again is stepped over again.
     */
    method TakeDataAndFIN(sn: u32, payload: seq<byte>, fin: bool, ghost p: int, ghost s: seq<byte>)
      requires Valid() && (state == FinWait1 || state == FinWait2)
      requires rcv.Valid(s) && rcv.Arrives(sn, payload, p, s) && |payload| < TWO_31
      requires fin ==> p + |payload| == |s| && |s| - rcv.pos < TWO_31
      modifies this`state, rcv, rcv.readBuf, rcv.readBuf.buf
      ensures Valid() && old(rcv.pos) <= rcv.pos
      ensures !fin ==> state == if rcv.finDone && !old(rcv.finDone) then CloseWait else old(state)
      ensures !fin ==> (rcv.finDone <==> old(rcv.finDone) || (old(rcv.finReceived) && old(rcv.pos) < rcv.pos == |s|))
      ensures p + |payload| == |s| ==> (rcv.pos == |s| <==> p <= old(rcv.pos) && |s| <= old(rcv.Edge()))
      ensures rcv.Valid(s) <==> (fin ==> old(FinInOrder(p, payload)))
      ensures rcv.readBuf.buf == old(rcv.readBuf.buf) || fresh(rcv.readBuf.buf)
      ensures old(rcv.finDone) && fin ==> rcv.nxt == Add(old(rcv.nxt), 1)
    {
      hide Ok, Sender.Steady, Receiver.Valid, RingBuffer.Contents, RingBuffer.Len, Wrap, Add;
      rcv.Basics(s);
      TakeData(sn, payload, p, s);
      rcv.Basics(s);
      if fin {
        rcv.ConsumeFINUnchecked(Wrap(rcv.irs + 1 + |s|), s);
      }
    }

    /**
     `handleFinWait1`. Our FIN counts as acknowledged exactly when everything sent is. The peer's
     FIN is consumed whatever is still missing: the receiver stays in step exactly when the guard holds.
     */
    method HandleFinWait1(ackFlag: bool, ack: u32, newWnd: nat, sn: u32, payload: seq<byte>, fin: bool,
                          ghost a: int, ghost p: int, ghost s: seq<byte>)
      requires Valid() && state == FinWait1 && newWnd <= MAX_WND
      requires ack == Wrap(snd.iss + 1 + a) && -TWO_31 <= a - snd.v.una < TWO_31
      requires rcv.Valid(s) && rcv.Arrives(sn, payload, p, s) && |payload| < TWO_31
      requires fin ==> p + |payload| == |s| && |s| - rcv.pos < TWO_31
      modifies this`state, snd, snd.writeBuf, rcv, rcv.readBuf, rcv.readBuf.buf
      ensures Valid() && snd.v.written == old(snd.v.written) && snd.wnd == if ackFlag then newWnd else old(snd.wnd)
      ensures var ackOfFIN := ackFlag && snd.v.una == snd.v.nxt;
              state == if fin then (if ackOfFIN then TimeWait else Closing)
                       else if ackOfFIN then FinWait2
                       else if rcv.finDone && !old(rcv.finDone) then CloseWait
                       else FinWait1
      ensures ackFlag ==> snd.v.una == if old(snd.v.una) < a <= old(snd.v.nxt) then a else old(snd.v.una)
      ensures snd.v.nxt == old(snd.v.nxt) && old(rcv.pos) <= rcv.pos
      ensures !fin ==> (rcv.finDone <==> old(rcv.finDone) || (old(rcv.finReceived) && old(rcv.pos) < rcv.pos == |s|))
      ensures p + |payload| == |s| ==> (rcv.pos == |s| <==> p <= old(rcv.pos) && |s| <= old(rcv.Edge()))
      ensures rcv.Valid(s) <==> (fin ==> old(FinInOrder(p, payload)))
      ensures rcv.readBuf.buf == old(rcv.readBuf.buf) || fresh(rcv.readBuf.buf)
    {
      hide Ok, Sender.Steady, Receiver.Valid, RingBuffer.Contents, RingBuffer.Len, Extends, FinInOrder;
      var ackOfFIN := false;
      if ackFlag {
        snd.UpdateWindow(newWnd);
        snd.MeasureRTTM();
        ackOfFIN := TakeAck(ack, a);
      }
      TakeDataAndFIN(sn, payload, fin, p, s);
      if fin {
        state := if ackOfFIN then TimeWait else Closing;
      } else if ackOfFIN {
        state := FinWait2;
      }
    }

    /** `handleFinWait2`: the same unchecked step over the peer's FIN, on the way to TIME_WAIT. */
    method HandleFinWait2(ackFlag: bool, newWnd: nat, sn: u32, payload: seq<byte>, fin: bool,
                          ghost p: int, ghost s: seq<byte>)
      requires Valid() && state == FinWait2 && newWnd <= MAX_WND
      requires rcv.Valid(s) && rcv.Arrives(sn, payload, p, s) && |payload| < TWO_31
      requires fin ==> p + |payload| == |s| && |s| - rcv.pos < TWO_31
      modifies this`state, snd`wnd, rcv, rcv.readBuf, rcv.readBuf.buf
      ensures Valid() && snd.wnd == if ackFlag then newWnd else old(snd.wnd)
      ensures state == if fin then TimeWait else if rcv.finDone && !old(rcv.finDone) then CloseWait else FinWait2
      ensures old(rcv.pos) <= rcv.pos
      ensures rcv.Valid(s) <==> (fin ==> old(FinInOrder(p, payload)))
      ensures rcv.readBuf.buf == old(rcv.readBuf.buf) || fresh(rcv.readBuf.buf)
      ensures old(rcv.finDone) && fin ==> rcv.nxt == Add(old(rcv.nxt), 1)
    {
      hide Ok, Sender.Steady, Receiver.Valid, RingBuffer.Contents, RingBuffer.Len, FinInOrder;
      if ackFlag {
        snd.UpdateWindow(newWnd);
      }
      TakeDataAndFIN(sn, payload, fin, p, s);
      if fin {
        state := TimeWait;
      }
    }
  }

  lemma AheadReading(v: View, f: Fields, unsent: seq<byte>, closed: bool, a: int)
    requires Ok(v, f, unsent, closed) && -TWO_31 <= a - v.una < TWO_31
    ensures SeqGreaterThan(Wrap(f.iss + 1 + a), f.una) <==> v.una < a
    ensures v.una <= v.nxt
  {
    hide Wrap, SeqGreaterThan, Queue, AllGenuine, Rest;
    OrderAgrees(f.iss + 1 + a, f.iss + 1 + v.una);
  }

  /** Once the FIN is out nothing new is numbered. */
  lemma FinStays(v: View, f: Fields, unsent: seq<byte>, closed: bool, v': View, f': Fields, unsent': seq<byte>,
                 closed': bool)
    requires Ok(v, f, unsent, closed) && Ok(v', f', unsent', closed')
    requires v.fin && v'.fin && v'.written == v.written
    ensures v'.nxt == v.nxt && v'.una <= v'.nxt
  {
    hide Wrap, Queue, AllGenuine;
  }
}
