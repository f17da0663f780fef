/**
 One direction of a connection as a transition system over unbounded positions: a sender, a
 simple receiver that stores single bytes, and a network that may deliver any piece of any
 segment, and any acknowledgement, that was ever sent: late, repeatedly, in any order, or never.
 The theorems are about every run of this system.
 */
module Network {
  import opened Bytes
  import opened TcpSender

  datatype Sys = Sys(
    // Sender.
    written: seq<byte>, una: int, nxt: int, fin: bool, sent: seq<Sent>,
    // Receiver: next position, bytes held above it, where a FIN was seen, whether it was consumed.
    pos: int, held: imap<int, byte>, finSeen: bool, finAt: int, finDone: bool,
    delivered: seq<byte>,
    // Acknowledgements put on the wire.
    acks: seq<int>)
  {
    ghost function AckPos(): int {
      if finDone then pos + 1 else pos
    }
  }

  ghost predicate Init(s: Sys) {
    s == Sys([], 0, 0, false, [], 0, imap[], false, 0, false, [], [])
  }

  /** The application writes. */
  ghost predicate Writes(s: Sys, s': Sys, p: seq<byte>) {
    (s.fin ==> p == []) && s' == s.(written := s.written + p)
  }

  /** The sender sends or resends: each new segment on the wire is cut from what was written. */
  ghost predicate Sending(s: Sys, s': Sys) {
    && s' == s.(nxt := s'.nxt, sent := s'.sent)
    && s.nxt <= s'.nxt && (s'.nxt <= |s.written| || s'.nxt == s.nxt) && s.sent <= s'.sent
    && forall k :: |s.sent| <= k < |s'.sent| ==> Genuine(s'.sent[k], s.written, s'.nxt)
  }

  /** Everything written is sent: the FIN goes out, once. */
  ghost predicate Finishes(s: Sys, s': Sys) {
    && !s.fin && s.nxt == |s.written|
    && s' == s.(fin := true, nxt := s.nxt + 1, sent := s.sent + [Sent(s.nxt, [], true)])
  }

  ghost predicate Acknowledges(s: Sys, s': Sys) {
    s' == s.(acks := s.acks + [s.AckPos()])
  }

  /** Acknowledgement `k` arrives: it counts if it is new and not beyond what was sent. */
  ghost predicate AckArrives(s: Sys, s': Sys, k: nat) {
    k < |s.acks| && s' == s.(una := if s.una < s.acks[k] <= s.nxt then s.acks[k] else s.una)
  }

  /** The bytes known once `[lo, hi)` of a segment at `at` has been accepted. */
  ghost function Known(held: imap<int, byte>, at: int, data: seq<byte>, lo: int, hi: int): imap<int, byte>
    requires at <= lo && hi <= at + |data|
  {
    imap x | x in held || lo <= x < hi :: if lo <= x < hi then data[x - at] else held[x]
  }

  /**
   The simple receiver takes `[lo, hi)` of a segment: if that starts at its next position it
   delivers every byte up to the first one it does not know, and otherwise just keeps the bytes.
   */
  ghost predicate Takes(s: Sys, s': Sys, at: int, data: seq<byte>, lo: int, hi: int) {
    && at <= lo < hi <= at + |data|
    && var known := Known(s.held, at, data, lo, hi);
       if lo == s.pos then
         && s.pos <= s'.pos && s'.pos !in known && (forall x :: s.pos <= x < s'.pos ==> x in known)
         && |s'.delivered| == |s.delivered| + s'.pos - s.pos && s.delivered <= s'.delivered
         && (forall x :: s.pos <= x < s'.pos ==> s'.delivered[|s.delivered| + x - s.pos] == known[x])
         && s'.held == (imap x | x in known && x > s'.pos :: known[x])
       else
         s'.pos == s.pos && s'.delivered == s.delivered && s'.held == known
  }

  /**
   The piece `[i, j)` of segment `k` arrives; `edge` is where the receiver's window happens to end.
   A FIN counts once everything before it has been delivered, and is remembered until then.
   */
  ghost predicate SegmentArrives(s: Sys, s': Sys, k: nat, i: nat, j: nat, edge: int) {
    && !s.finDone && k < |s.sent| && i <= j <= |s.sent[k].data|
    && var p := s.sent[k];
       var at, data := p.pos + i, p.data[i..j];
       var lo, hi := Max(at, s.pos), Min(at + |data|, edge);
       && s' == s.(pos := s'.pos, held := s'.held, delivered := s'.delivered,
                   finSeen := s'.finSeen, finAt := s'.finAt, finDone := s'.finDone)
       && (if lo < hi then Takes(s, s', at, data, lo, hi)
           else s'.pos == s.pos && s'.held == s.held && s'.delivered == s.delivered)
       && (s'.finDone <==> (p.fin && s'.pos == at + |data|) || (s.finSeen && s.pos < s'.pos == s.finAt))
       && (s'.finSeen ==> p.fin || s.finSeen)
       && (s'.finSeen ==> s'.finAt == if p.fin then at + |data| else s.finAt)
  }

  ghost predicate Next(s: Sys, s': Sys) {
    || s' == s
    || (exists p :: Writes(s, s', p))
    || Sending(s, s')
    || Finishes(s, s')
    || Acknowledges(s, s')
    || (exists k :: AckArrives(s, s', k))
    || (exists k, i, j, edge :: SegmentArrives(s, s', k, i, j, edge))
  }

  /** The invariant behind the theorems. */
  ghost predicate SenderInv(s: Sys) {
    && 0 <= s.una <= s.nxt && (if s.fin then s.nxt == |s.written| + 1 else s.nxt <= |s.written|)
    && AllGenuine(s.sent, s.written, s.nxt)
  }

  ghost predicate ReceiverInv(s: Sys) {
    && 0 <= s.pos <= Min(s.nxt, |s.written|) && s.delivered == s.written[..s.pos]
    && (forall x :: x in s.held ==> s.pos < x < Min(s.nxt, |s.written|) && s.held[x] == s.written[x])
    && (s.finSeen || s.finDone ==> s.fin) && (s.finSeen ==> s.finAt == |s.written|)
    && (s.finDone ==> s.pos == |s.written|)
  }

  ghost predicate AckInv(s: Sys) {
    && s.una <= s.AckPos()
    && forall k :: 0 <= k < |s.acks| ==> s.acks[k] <= s.AckPos()
  }

  ghost predicate Inv(s: Sys) {
    SenderInv(s) && ReceiverInv(s) && AckInv(s)
  }

  lemma WritesKeeps(s: Sys, s': Sys, p: seq<byte>)
    requires Inv(s) && Writes(s, s', p)
    ensures Inv(s')
  {
    GenuineMore(s.sent, s.written, s.nxt, s'.written, s'.nxt);
  }

  lemma SendingKeeps(s: Sys, s': Sys)
    requires Inv(s) && Sending(s, s')
    ensures Inv(s')
  {
    GenuineMore(s.sent, s.written, s.nxt, s.written, s'.nxt);
    forall k | 0 <= k < |s'.sent|
      ensures Genuine(s'.sent[k], s'.written, s'.nxt)
    {
      assert k < |s.sent| ==> s'.sent[k] == s.sent[k];
    }
  }

  lemma FinishesKeeps(s: Sys, s': Sys)
    requires Inv(s) && Finishes(s, s')
    ensures Inv(s')
  {
    GenuinePush(s.sent, s.written, s.nxt, s'.nxt, Sent(s.nxt, [], true));
  }

  /** Everything known is the stream's byte at its place. */
  lemma KnownIsStream(s: Sys, at: int, data: seq<byte>, lo: int, hi: int, x: int)
    requires ReceiverInv(s) && s.pos <= lo && at <= lo && hi <= at + |data| && x in Known(s.held, at, data, lo, hi)
    requires 0 <= at && at + |data| <= Min(s.nxt, |s.written|) && data == s.written[at..at + |data|]
    ensures s.pos <= x < Min(s.nxt, |s.written|) && Known(s.held, at, data, lo, hi)[x] == s.written[x]
  {
    if lo <= x < hi {
      assert data[x - at] == s.written[at..at + |data|][x - at];
    }
  }

  /** What the receiver takes from a genuine segment keeps it in step with the stream. */
  lemma TakesKeeps(s: Sys, s': Sys, at: int, data: seq<byte>, lo: int, hi: int)
    requires ReceiverInv(s) && Takes(s, s', at, data, lo, hi) && lo >= s.pos
    requires 0 <= at && at + |data| <= Min(s.nxt, |s.written|) && data == s.written[at..at + |data|]
    ensures s.pos <= s'.pos <= Min(s.nxt, |s.written|) && s'.delivered == s.written[..s'.pos]
    ensures forall x :: x in s'.held ==> s'.pos < x < Min(s.nxt, |s.written|) && s'.held[x] == s.written[x]
  {
    hide Known;
    var known := Known(s.held, at, data, lo, hi);
    forall x | x in known
      ensures s.pos <= x < Min(s.nxt, |s.written|) && known[x] == s.written[x]
    {
      KnownIsStream(s, at, data, lo, hi, x);
    }
    if lo == s.pos {
      assert s'.pos > s.pos ==> s'.pos - 1 in known;
      DeliveredIsStream(s.written, s.delivered, s'.delivered, s.pos, s'.pos, known);
    } else {
      forall x | x in known
        ensures x != s.pos
      {
        KnownAbove(s, at, data, lo, hi, x);
      }
    }
  }

  lemma KnownAbove(s: Sys, at: int, data: seq<byte>, lo: int, hi: int, x: int)
    requires ReceiverInv(s) && s.pos < lo && at <= lo && hi <= at + |data| && x in Known(s.held, at, data, lo, hi)
    ensures s.pos < x
  {
  }

  lemma DeliveredIsStream(w: seq<byte>, d: seq<byte>, d': seq<byte>, pos: int, pos': int, known: imap<int, byte>)
    requires 0 <= pos <= pos' <= |w| && d == w[..pos] && d <= d' && |d'| == |d| + pos' - pos
    requires forall x :: pos <= x < pos' ==> x in known
    requires forall x :: pos <= x < pos' ==> d'[|d| + x - pos] == known[x]
    requires forall x :: x in known ==> 0 <= x < |w| && known[x] == w[x]
    ensures d' == w[..pos']
  {
    forall x | 0 <= x < |d'|
      ensures d'[x] == w[x]
    {
      if x >= pos {
        assert d'[|d| + x - pos] == known[x];
      } else {
        assert d'[x] == d[x];
      }
    }
  }

  lemma ArrivalKeeps(s: Sys, s': Sys, k: nat, i: nat, j: nat, edge: int)
    requires Inv(s) && SegmentArrives(s, s', k, i, j, edge)
    ensures Inv(s')
  {
    hide Takes;
    var p := s.sent[k];
    var at, data := p.pos + i, p.data[i..j];
    var lo, hi := Max(at, s.pos), Min(at + |data|, edge);
    assert Genuine(p, s.written, s.nxt);
    if lo < hi {
      PieceOfSegment(p, s.written, s.nxt, i, j);
      TakesKeeps(s, s', at, data, lo, hi);
    }
  }

  lemma PieceOfSegment(p: Sent, w: seq<byte>, nxt: int, i: nat, j: nat)
    requires Genuine(p, w, nxt) && i < j <= |p.data|
    ensures 0 <= p.pos + i && p.pos + j <= Min(nxt, |w|) && p.data[i..j] == w[p.pos + i..p.pos + j]
  {
    SubSlice(w, p.pos, p.data, p.pos + i, p.pos + j);
  }

  lemma NextKeeps(s: Sys, s': Sys)
    requires Inv(s) && Next(s, s')
    ensures Inv(s')
  {
    hide Inv, Writes, Sending, Finishes, SegmentArrives;
    if p :| Writes(s, s', p) {
      WritesKeeps(s, s', p);
    } else if Sending(s, s') {
      SendingKeeps(s, s');
    } else if Finishes(s, s') {
      FinishesKeeps(s, s');
    } else if k, i, j, edge :| SegmentArrives(s, s', k, i, j, edge) {
      ArrivalKeeps(s, s', k, i, j, edge);
    } else {
      AckStepKeeps(s, s');
    }
  }

  lemma AckStepKeeps(s: Sys, s': Sys)
    requires Inv(s)
    requires s' == s || Acknowledges(s, s') || exists k :: AckArrives(s, s', k)
    ensures Inv(s')
  {
  }

  /** A run: any number of steps from the initial state. */
  ghost predicate IsRun(run: seq<Sys>) {
    && run != [] && Init(run[0])
    && forall i :: 0 < i < |run| ==> Next(run[i - 1], run[i])
  }

  lemma RunStep(run: seq<Sys>, s: Sys)
    requires IsRun(run) && Next(run[|run| - 1], s)
    ensures IsRun(run + [s])
  {
    hide Next, Init;
    forall i | 0 < i < |run + [s]|
      ensures Next((run + [s])[i - 1], (run + [s])[i])
    {
      assert i < |run| ==> Next(run[i - 1], run[i]);
    }
  }

  lemma {:induction false} RunKeeps(run: seq<Sys>, n: nat)
    requires IsRun(run) && n < |run|
    ensures Inv(run[n])
  {
    if n > 0 {
      RunKeeps(run, n - 1);
      NextKeeps(run[n - 1], run[n]);
    }
  }

  /**
   Stream integrity. In every state of every run the bytes delivered are a prefix of the bytes
   written; the sender has given up no byte that is not delivered; and a consumed FIN means that
   everything was delivered.
   */
  lemma StreamIntegrity(run: seq<Sys>, n: nat)
    requires IsRun(run) && n < |run|
    ensures run[n].delivered <= run[n].written
    ensures Min(run[n].una, |run[n].written|) <= |run[n].delivered|
    ensures run[n].finDone ==> run[n].fin && run[n].delivered == run[n].written
  {
    RunKeeps(run, n);
  }

  /** Along every run what was delivered stays delivered, and what was written stays written. */
  lemma {:induction false} HistoryGrows(run: seq<Sys>, m: nat, n: nat)
    requires IsRun(run) && m <= n < |run|
    ensures run[m].delivered <= run[n].delivered && run[m].written <= run[n].written
    ensures run[m].una <= run[n].una && run[m].pos <= run[n].pos
    ensures run[m].finDone ==> run[n].delivered == run[m].delivered && run[n].finDone
    decreases n - m
  {
    hide Next, Init;
    if m < n {
      HistoryGrows(run, m, n - 1);
      StepGrows(run[n - 1], run[n]);
    }
  }

  lemma StepGrows(s: Sys, s': Sys)
    requires Next(s, s')
    ensures s.delivered <= s'.delivered && s.written <= s'.written && s.una <= s'.una && s.pos <= s'.pos
    ensures s.finDone ==> s'.delivered == s.delivered && s'.finDone
  {
    hide Known, Genuine;
  }

  /** After the FIN nothing more is written. */
  lemma {:induction false} FinFixed(run: seq<Sys>, m: nat, n: nat)
    requires IsRun(run) && m <= n < |run|
    ensures run[m].fin ==> run[n].fin && run[n].written == run[m].written
    decreases n - m
  {
    hide Next, Init;
    if m < n {
      FinFixed(run, m, n - 1);
      StepFin(run[n - 1], run[n]);
    }
  }

  lemma StepFin(s: Sys, s': Sys)
    requires Next(s, s')
    ensures s.fin ==> s'.fin && s'.written == s.written
  {
    hide Takes, Genuine;
  }

  /** FIN discipline: every FIN ever put on the wire, in any states of a run, has the one number after the last byte written. */
  lemma OneFinNumber(run: seq<Sys>, m: nat, n: nat, i: nat, j: nat)
    requires IsRun(run) && m <= n < |run|
    requires i < |run[m].sent| && run[m].sent[i].fin && j < |run[n].sent| && run[n].sent[j].fin
    ensures run[m].sent[i].pos == run[n].sent[j].pos == |run[n].written| == run[n].nxt - 1
    ensures run[m].sent[i].data == [] && run[n].written == run[m].written
  {
    RunKeeps(run, m);
    RunKeeps(run, n);
    assert Genuine(run[m].sent[i], run[m].written, run[m].nxt) && Genuine(run[n].sent[j], run[n].written, run[n].nxt);
    FinFixed(run, m, n);
  }

  /** In FIN_WAIT_1 and FIN_WAIT_2 the code steps over the FIN that segment `k` brings without looking where it sits. */
  ghost predicate FinTakenUnchecked(s: Sys, s': Sys, k: nat) {
    k < |s.sent| && s.sent[k].fin && !s.finDone && s' == s.(finDone := true)
  }

  /** That keeps the guarantee exactly when the segment is the next one due, which is what ESTABLISHED tests. */
  lemma UncheckedFinIff(s: Sys, s': Sys, k: nat)
    requires Inv(s) && FinTakenUnchecked(s, s', k)
    ensures Inv(s') <==> s.pos == s.sent[k].pos
    ensures s'.delivered == s'.written <==> s.pos == s.sent[k].pos
  {
    assert Genuine(s.sent[k], s.written, s.nxt);
  }

  /** The loss of one segment is enough: the reader meets the end of the stream without ever seeing the byte. */
  lemma UncheckedFinTruncates() returns (run: seq<Sys>, s': Sys)
    ensures IsRun(run) && FinTakenUnchecked(run[|run| - 1], s', 1)
    ensures s'.written == [7] && s'.delivered == [] && s'.finDone
  {
    var s0 := Sys([], 0, 0, false, [], 0, imap[], false, 0, false, [], []);
    var s1 := s0.(written := [7]);
    var s2 := s1.(nxt := 1, sent := [Sent(0, [7], false)]);
    var s3 := s2.(fin := true, nxt := 2, sent := s2.sent + [Sent(1, [], true)]);
    run := [s0, s1, s2, s3];
    assert Writes(s0, s1, [7]);
    assert Sending(s1, s2);
    assert Finishes(s2, s3);
    s' := s3.(finDone := true);
  }
}
