/**
 The sender's retransmission queue: entries that tile sequence space from the oldest
 unacknowledged one up to SND.NXT, each holding its own bytes of the stream.
 */
module SendQueue {
  import opened Bytes
  import opened SeqNum

  /** A sent segment kept for retransmission; a FIN carries no data and takes one number. */
  datatype Unacked = Unacked(sn: u32, data: seq<byte>, fin: bool, retransmitted: bool, sacked: bool) {
    function Length(): nat {
      if fin then 1 else |data|
    }

    /** One past the last number the entry occupies. */
    function EndSeq(): u32 {
      Add(sn, Length())
    }
  }

  /** The entry occupies positions `[a, b)` of the stream `w`, whose FIN would sit at `|w|`. */
  ghost predicate Occupies(e: Unacked, a: int, b: int, base: int, w: seq<byte>) {
    && 0 <= a < b && e.sn == Wrap(base + a) && b == a + e.Length()
    && (if e.fin then e.data == [] && a == |w| else b <= |w| && e.data == w[a..b])
  }

  /** Entry `i` occupies `[at[i], at[i + 1])`: the queue tiles sequence space without gap or overlap. */
  ghost predicate Tiles(q: seq<Unacked>, at: seq<int>, base: int, w: seq<byte>) {
    && |at| == |q| + 1
    && (forall i :: 0 <= i < |q| ==> Occupies(q[i], at[i], at[i + 1], base, w))
    && (forall i, j :: 0 <= i < j < |at| ==> at[i] < at[j])
  }

  /** All the bytes in the queue, in order. */
  ghost function Payload(q: seq<Unacked>): seq<byte> {
    if q == [] then [] else q[0].data + Payload(q[1..])
  }

  /** The queue's bytes are one contiguous piece of the stream. */
  lemma {:induction false} PayloadIsSlice(q: seq<Unacked>, at: seq<int>, base: int, w: seq<byte>)
    requires Tiles(q, at, base, w) && 0 <= at[0] <= |w|
    ensures at[0] <= Min(at[|q|], |w|)
    ensures Payload(q) == w[at[0]..Min(at[|q|], |w|)]
  {
    hide Wrap;
    if q != [] {
      TilesDrop(q, at, base, w, 1);
      assert Occupies(q[0], at[0], at[1], base, w);
      if q[0].fin {
        FinIsLast(q, at, base, w, 0);
      } else {
        var end := Min(at[|q|], |w|);
        PayloadIsSlice(q[1..], at[1..], base, w);
        assert at[1..][|q| - 1] == at[|q|];
        assert w[at[0]..at[1]] + w[at[1]..end] == w[at[0]..end];
      }
    }
  }

  /** A FIN can only be the last entry. */
  lemma FinIsLast(q: seq<Unacked>, at: seq<int>, base: int, w: seq<byte>, i: nat)
    requires Tiles(q, at, base, w) && i < |q| && q[i].fin
    ensures i == |q| - 1
  {
    assert Occupies(q[i], at[i], at[i + 1], base, w);
    assert i + 1 < |q| ==> Occupies(q[i + 1], at[i + 1], at[i + 2], base, w);
  }

  lemma TilesDrop(q: seq<Unacked>, at: seq<int>, base: int, w: seq<byte>, k: nat)
    requires Tiles(q, at, base, w) && k <= |q|
    ensures Tiles(q[k..], at[k..], base, w)
  {
  }

  lemma TilesPush(q: seq<Unacked>, at: seq<int>, base: int, w: seq<byte>, e: Unacked, b: int)
    requires Tiles(q, at, base, w) && Occupies(e, at[|q|], b, base, w)
    ensures Tiles(q + [e], at + [b], base, w)
  {
    var q', at' := q + [e], at + [b];
    forall i, j | 0 <= i < j < |at'|
      ensures at'[i] < at'[j]
    {
      if j == |q| + 1 {
        assert i < |q| ==> at[i] < at[|q|];
      }
    }
  }

  /** Changing only the bookkeeping flags of entries keeps the tiling. */
  ghost predicate SameSegments(q: seq<Unacked>, q': seq<Unacked>) {
    && |q| == |q'|
    && forall i :: 0 <= i < |q| ==> q'[i].sn == q[i].sn && q'[i].data == q[i].data && q'[i].fin == q[i].fin
  }

  lemma TilesFlags(q: seq<Unacked>, q': seq<Unacked>, at: seq<int>, base: int, w: seq<byte>)
    requires Tiles(q, at, base, w) && SameSegments(q, q')
    ensures Tiles(q', at, base, w)
  {
    forall i | 0 <= i < |q|
      ensures Occupies(q'[i], at[i], at[i + 1], base, w)
    {
      assert Occupies(q[i], at[i], at[i + 1], base, w);
    }
  }

  /** The application writes more: data entries stay where they are. */
  lemma TilesMore(q: seq<Unacked>, at: seq<int>, base: int, w: seq<byte>, w': seq<byte>)
    requires Tiles(q, at, base, w) && w <= w' && (forall i :: 0 <= i < |q| ==> !q[i].fin)
    ensures Tiles(q, at, base, w')
  {
    forall i | 0 <= i < |q|
      ensures Occupies(q[i], at[i], at[i + 1], base, w')
    {
      assert Occupies(q[i], at[i], at[i + 1], base, w);
    }
  }

  /** How many entries end by position `a`. */
  ghost predicate AckedUpTo(at: seq<int>, a: int, k: nat) {
    k < |at| && (k > 0 ==> at[k] <= a) && (k + 1 < |at| ==> a < at[k + 1])
  }

  /**
   The scan of `removeAcked`: how many entries the acknowledgement covers, and whether an entry
   eligible for an RTT sample under Karn's rule was met.
   */
  method CountAcked(q: seq<Unacked>, ack: u32, tsEnabled: bool,
                    ghost at: seq<int>, ghost base: int, ghost w: seq<byte>, ghost a: int)
    returns (i: nat, sampled: bool)
    requires Tiles(q, at, base, w) && ack == Wrap(base + a)
    requires at[0] < a <= at[|q|] < at[0] + TWO_31
    ensures i <= |q| && AckedUpTo(at, a, i)
    ensures sampled ==> !tsEnabled && exists k :: 0 <= k < |q| && at[k] < a && !q[k].retransmitted
    ensures !sampled && !tsEnabled ==> forall k :: 0 <= k < |q| && at[k] < a ==> q[k].retransmitted
  {
    hide Wrap, Add;
    i, sampled := 0, false;
    while i < |q|
      invariant 0 <= i <= |q| && at[i] <= a
      invariant sampled ==> !tsEnabled && exists k :: 0 <= k < |q| && at[k] < a && !q[k].retransmitted
      invariant !sampled && !tsEnabled ==> forall k :: 0 <= k < i ==> q[k].retransmitted
    {
      Order(q, at, base, w, i, a);
      if !SeqGreaterThan(ack, q[i].sn) {
        break;
      }
      if !sampled && !tsEnabled && !q[i].retransmitted {
        sampled := true;
      }
      var segEnd := q[i].EndSeq();
      if SeqLessThan(segEnd, ack) || segEnd == ack {
        i := i + 1;
      } else {
        break;
      }
    }
  }

  /** The wire comparisons of one scan step, by position. */
  lemma Order(q: seq<Unacked>, at: seq<int>, base: int, w: seq<byte>, i: nat, a: int)
    requires Tiles(q, at, base, w) && i < |q|
    requires at[0] < a <= at[|q|] < at[0] + TWO_31
    ensures SeqGreaterThan(Wrap(base + a), q[i].sn) <==> a > at[i]
    ensures q[i].EndSeq() == Wrap(base + at[i + 1])
    ensures SeqLessThan(q[i].EndSeq(), Wrap(base + a)) || q[i].EndSeq() == Wrap(base + a) <==> at[i + 1] <= a
  {
    hide Wrap, Add, SeqGreaterThan, SeqLessThan;
    assert Occupies(q[i], at[i], at[i + 1], base, w);
    assert at[0] <= at[i] && at[i + 1] <= at[|q|];
    OrderAgrees(base + a, base + at[i]);
    WrapDistributes(base + at[i], q[i].Length());
    OrderAgrees(base + at[i + 1], base + a);
  }

  /** An entry as it is recorded when it is first sent. */
  function Fresh(sn: u32, data: seq<byte>): Unacked {
    Unacked(sn, data, false, false, false)
  }

  /** The largest entry does not exceed `mss`. */
  ghost predicate Sized(q: seq<Unacked>, mss: nat) {
    forall i :: 0 <= i < |q| ==> |q[i].data| <= mss
  }

  lemma PushData(q: seq<Unacked>, at: seq<int>, base: int, w: seq<byte>, data: seq<byte>)
    requires Tiles(q, at, base, w) && data != []
    requires 0 <= at[|q|] && at[|q|] + |data| <= |w| && data == w[at[|q|]..at[|q|] + |data|]
    ensures Tiles(q + [Fresh(Wrap(base + at[|q|]), data)], at + [at[|q|] + |data|], base, w)
  {
    TilesPush(q, at, base, w, Fresh(Wrap(base + at[|q|]), data), at[|q|] + |data|);
  }

  /**
   The queue invariant: the entries tile `[at[0], nxt)`, none is larger than `mss`, the queue is
   empty exactly when everything is acknowledged, and otherwise `una` lies in its first entry.
   */
  ghost predicate Queue(q: seq<Unacked>, at: seq<int>, base: int, w: seq<byte>, mss: nat, una: int, nxt: int) {
    && Tiles(q, at, base, w) && Sized(q, mss) && at[|q|] == nxt
    && 0 <= at[0] <= una <= nxt && (q == [] <==> una == nxt) && (q != [] ==> una < at[1])
  }

  /** Recording a data segment at SND.NXT. */
  lemma QueuePush(q: seq<Unacked>, at: seq<int>, base: int, w: seq<byte>, mss: nat, una: int, nxt: int, data: seq<byte>)
    requires Queue(q, at, base, w, mss, una, nxt)
    requires 0 < |data| <= mss && nxt + |data| <= |w| && data == w[nxt..nxt + |data|]
    ensures Queue(q + [Fresh(Wrap(base + nxt), data)], at + [nxt + |data|], base, w, mss, una, nxt + |data|)
  {
    hide Wrap;
    PushData(q, at, base, w, data);
  }

  /** Recording a FIN at SND.NXT, once the whole stream is sent. */
  lemma QueuePushFin(q: seq<Unacked>, at: seq<int>, base: int, w: seq<byte>, mss: nat, una: int)
    requires Queue(q, at, base, w, mss, una, |w|)
    ensures Queue(q + [Unacked(Wrap(base + |w|), [], true, false, false)], at + [|w| + 1], base, w, mss, una, |w| + 1)
  {
    hide Wrap;
    TilesPush(q, at, base, w, Unacked(Wrap(base + |w|), [], true, false, false), |w| + 1);
  }

  /** Dropping the entries that an acknowledgement of `a` covers. */
  lemma QueueAck(q: seq<Unacked>, at: seq<int>, base: int, w: seq<byte>, mss: nat, una: int, nxt: int, a: int, k: nat)
    requires Queue(q, at, base, w, mss, una, nxt) && una < a <= nxt && AckedUpTo(at, a, k) && k <= |q|
    ensures Queue(q[k..], at[k..], base, w, mss, a, nxt)
  {
    hide Wrap;
    TilesDrop(q, at, base, w, k);
    assert k < |q| ==> at[k] < at[|q|];
  }

  lemma QueueFlags(q: seq<Unacked>, q': seq<Unacked>, at: seq<int>, base: int, w: seq<byte>, mss: nat, una: int,
                   nxt: int)
    requires Queue(q, at, base, w, mss, una, nxt) && SameSegments(q, q')
    ensures Queue(q', at, base, w, mss, una, nxt)
  {
    hide Wrap;
    TilesFlags(q, q', at, base, w);
  }

  lemma QueueMore(q: seq<Unacked>, at: seq<int>, base: int, w: seq<byte>, w': seq<byte>, mss: nat, una: int, nxt: int)
    requires Queue(q, at, base, w, mss, una, nxt) && w <= w' && nxt <= |w|
    ensures Queue(q, at, base, w', mss, una, nxt)
  {
    hide Wrap;
    forall i | 0 <= i < |q|
      ensures !q[i].fin
    {
      assert Occupies(q[i], at[i], at[i + 1], base, w);
      assert at[i + 1] <= at[|q|];
    }
    TilesMore(q, at, base, w, w');
  }

  lemma QueueFacts(q: seq<Unacked>, at: seq<int>, base: int, w: seq<byte>, mss: nat, una: int, nxt: int)
    requires Queue(q, at, base, w, mss, una, nxt)
    ensures |at| == |q| + 1 && at[|q|] == nxt && 0 <= at[0] <= una <= nxt && (q == [] <==> una == nxt)
    ensures una - at[0] <= Max(mss, 1) && Sized(q, mss)
    ensures forall i :: 0 <= i < |q| ==> Occupies(q[i], at[i], at[i + 1], base, w)
    ensures forall i :: 0 <= i < |at| ==> at[i] <= nxt
  {
    hide Wrap;
    if q != [] {
      assert Occupies(q[0], at[0], at[1], base, w);
    }
  }

  ghost predicate Contains(m: iset<int>, a: int, b: int) {
    forall x :: a <= x < b ==> x in m
  }

  /** Every byte of a marked entry is in `m`. */
  ghost predicate Marks(q: seq<Unacked>, at: seq<int>, m: iset<int>) {
    forall i :: 0 <= i < |q| && i < |at| && q[i].sacked ==> Contains(m, at[i], at[i] + |q[i].data|)
  }

  lemma MarksMore(q: seq<Unacked>, at: seq<int>, q': seq<Unacked>, at': seq<int>, m: iset<int>)
    requires Marks(q, at, m) && |at| == |q| + 1 && q <= q' && at <= at'
    requires forall i :: |q| <= i < |q'| ==> !q'[i].sacked
    ensures Marks(q', at', m)
  {
    hide Contains;
    forall i | 0 <= i < |q'| && i < |at'| && q'[i].sacked
      ensures Contains(m, at'[i], at'[i] + |q'[i].data|)
    {
      assert q'[i] == q[i] && at'[i] == at[i];
    }
  }

  lemma MarksDrop(q: seq<Unacked>, at: seq<int>, m: iset<int>, k: nat)
    requires Marks(q, at, m) && k <= |q| && |at| == |q| + 1
    ensures Marks(q[k..], at[k..], m)
  {
    hide Contains;
    forall i | 0 <= i < |q[k..]| && q[k..][i].sacked
      ensures Contains(m, at[k..][i], at[k..][i] + |q[k..][i].data|)
    {
      assert q[k..][i] == q[k + i];
    }
  }

  /** Nothing is marked that was not. */
  ghost predicate NoNewMarks(q: seq<Unacked>, q': seq<Unacked>) {
    |q| == |q'| && forall i :: 0 <= i < |q| && q'[i].sacked ==> q[i].sacked
  }

  lemma MarksFlags(q: seq<Unacked>, q': seq<Unacked>, at: seq<int>, m: iset<int>)
    requires Marks(q, at, m) && SameSegments(q, q') && NoNewMarks(q, q')
    ensures Marks(q', at, m)
  {
    hide Contains;
  }

  /** `recordSentGSO`: a large segment is recorded in pieces of at most `mss` bytes. */
  method RecordPieces(q: seq<Unacked>, sn: u32, data: seq<byte>, mss: nat,
                      ghost at: seq<int>, ghost base: int, ghost w: seq<byte>, ghost una: int, ghost nxt: int)
    returns (q': seq<Unacked>, ghost at': seq<int>)
    requires Queue(q, at, base, w, mss, una, nxt) && mss > 0
    requires sn == Wrap(base + nxt) && 0 <= nxt && nxt + |data| <= |w| && data == w[nxt..nxt + |data|]
    ensures Queue(q', at', base, w, mss, una, nxt + |data|)
    ensures q <= q' && at <= at' && (forall i :: |q| <= i < |q'| ==> !q'[i].sacked)
    ensures forall i :: |q| <= i < |q'| - 1 ==> |q'[i].data| == mss
  {
    hide Wrap, Add, Queue;
    q', at' := q, at;
    var next, rest := sn, data;
    ghost var pos := nxt;
    while rest != []
      invariant Queue(q', at', base, w, mss, una, pos) && q <= q' && at <= at'
      invariant forall i :: |q| <= i < |q'| ==> !q'[i].sacked
      invariant 0 <= pos && pos + |rest| == nxt + |data| && next == Wrap(base + pos)
      invariant rest == w[pos..nxt + |data|]
      invariant forall i :: |q| <= i < |q'| - (if rest == [] then 1 else 0) ==> |q'[i].data| == mss
      decreases |rest|
    {
      var n := Min(|rest|, mss);
      QueuePush(q', at', base, w, mss, una, pos, rest[..n]);
      WrapDistributes(base + pos, n);
      q', at' := q' + [Fresh(next, rest[..n])], at' + [pos + n];
      next, rest, pos := Add(next, n), rest[n..], pos + n;
    }
  }
}
