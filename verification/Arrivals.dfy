/**
 Whole runs of the reassembler: the fragments of one datagram arrive in any order and any number of
 times, between fragments of other datagrams, and nothing is evicted. The datagram comes out exactly
 when its last missing fragment arrives.
 */
module Arrivals {
  import opened Bytes
  import opened Ipv4
  import opened Fragment
  import opened Reassemble
  import opened RoundTrip
  import opened Table

  datatype Arrival = Arrival(hdr: seq<byte>, data: seq<byte>, now: int)

  ghost predicate AllParsed(run: seq<Arrival>) {
    forall t :: 0 <= t < |run| ==> |run[t].hdr| >= MIN_HEADER
  }

  /** Whatever arrives, the table stays in order. */
  lemma AbsorbKeepsOrder(sets: Sets, hdr: seq<byte>, data: seq<byte>, now: int)
    requires |hdr| >= MIN_HEADER && AllOk(sets)
    ensures AllOk(Absorb(sets, hdr, data, now).0)
    ensures var after := Absorb(sets, hdr, data, now).0;
            forall k :: k != KeyOf(hdr) ==> (k in after <==> k in sets) && (k in sets ==> after[k] == sets[k])
  {
    hide SetOk, Feed, KeyOf;
    if Accepted(hdr, data) {
      var s, f := SetFor(sets, KeyOf(hdr), now), Frag(FragmentOffset(hdr) * 8, data);
      NewSet(sets, KeyOf(hdr), now);
      FeedKeeps(s, hdr, f, More(hdr));
    }
  }

  lemma FeedKeeps(s: FragSet, hdr: seq<byte>, f: Frag, more: bool)
    requires SetOk(s) && |hdr| >= MIN_HEADER && |f.data| > 0
    ensures var v := Feed(s, hdr, f.data, f.offset, more);
            v.Keep? || v.OutOfRange? ==> SetOk(v.kept)
  {
    hide Sort, ClashWith, Tiling, InBounds, Assemble, SetOk;
    HeaderOk(s);
    var v := Feed(s, hdr, f.data, f.offset, more);
    if v.Keep? || v.OutOfRange? {
      StoreOk(s, f, v.kept);
    }
  }

  /** The table after a run. */
  ghost function After(sets: Sets, run: seq<Arrival>): (r: Sets)
    requires AllOk(sets) && AllParsed(run)
    ensures AllOk(r)
  {
    if run == [] then sets
    else
      var before, a := After(sets, run[..|run| - 1]), run[|run| - 1];
      AbsorbKeepsOrder(before, a.hdr, a.data, a.now);
      Absorb(before, a.hdr, a.data, a.now).0
  }

  /** What the last arrival of a run gives. */
  ghost function Answer(sets: Sets, run: seq<Arrival>): Outcome
    requires AllOk(sets) && AllParsed(run) && run != []
  {
    var a := run[|run| - 1];
    Absorb(After(sets, run[..|run| - 1]), a.hdr, a.data, a.now).1
  }

  /** The datagram whose fragments are followed: its header, its payload, and how it is cut. */
  datatype Original = Original(hdr: seq<byte>, payload: seq<byte>, m: nat, n: nat)

  ghost predicate Cut(o: Original) {
    Datagram(o.hdr, o.payload) && Cutting(o.payload, o.m, o.n) && o.m % 8 == 0
  }

  /** `which[t]` is the index of the fragment that arrives at `t`, or none for another datagram. */
  ghost predicate Follows(o: Original, run: seq<Arrival>, which: seq<Option<nat>>)
    requires Cut(o)
  {
    && |which| == |run|
    && forall t :: 0 <= t < |run| ==> ArrivesAs(o, run[t], which[t])
  }

  ghost predicate ArrivesAs(o: Original, a: Arrival, w: Option<nat>)
    requires Cut(o)
  {
    && |a.hdr| >= MIN_HEADER
    && match w
       case None => KeyOf(a.hdr) != KeyOf(o.hdr)
       case Some(i) => i < o.n && a.hdr + a.data == Sent(o.hdr, o.payload, o.m, o.n, i) && |a.hdr| == |o.hdr|
  }

  /** The distinct fragments that have arrived since the datagram was last completed. */
  ghost function Seen(which: seq<Option<nat>>, n: nat): set<nat> {
    if which == [] then {}
    else
      var before, w := Seen(which[..|which| - 1], n), which[|which| - 1];
      if w.None? then before
      else if |before + {w.value}| == n then {}
      else before + {w.value}
  }

  ghost function First(o: Original): seq<byte>
    requires Cut(o)
  {
    Sent(o.hdr, o.payload, o.m, o.n, 0)[..|o.hdr|]
  }

  /** The set holds exactly the pieces seen. */
  ghost predicate Holding(o: Original, s: FragSet, idx: seq<nat>, seen: set<nat>)
    requires Cut(o)
  {
    Gathered(s, First(o), o.payload, o.m, o.n, idx) && forall x :: x in idx <==> x in seen
  }

  /** The table's view of the datagram: no set when nothing is pending. */
  ghost predicate Tracks(o: Original, sets: Sets, seen: set<nat>)
    requires Cut(o)
  {
    var k := KeyOf(o.hdr);
    if seen == {} then k !in sets else k in sets && exists idx :: Holding(o, sets[k], idx, seen)
  }

  lemma {:induction false} DistinctCount(idx: seq<nat>, s: set<nat>)
    requires Distinct(idx) && forall x :: x in idx <==> x in s
    ensures |idx| == |s|
    decreases |idx|
  {
    if idx != [] {
      DistinctCount(idx[1..], s - {idx[0]});
    }
  }

  /** What the reassembler reads from an arriving fragment of the datagram. */
  lemma ArrivalFields(o: Original, a: Arrival, i: nat)
    requires Cut(o) && ArrivesAs(o, a, Some(i))
    ensures var f := Sent(o.hdr, o.payload, o.m, o.n, i);
            && |f| > |o.hdr| && a.hdr == f[..|o.hdr|] && a.data == f[|o.hdr|..] && Accepted(a.hdr, a.data)
            && FragmentOffset(a.hdr) == FragmentOffset(f) && More(a.hdr) == More(f) && KeyOf(a.hdr) == KeyOf(o.hdr)
  {
    hide Sent, Offset, HeaderVerifies, Piece;
    SentFields(o.hdr, o.payload, o.m, o.n, i);
    PieceEnd(o.payload, o.m, o.n, i);
    PieceInside(o.payload, o.m, i);
    var f := Sent(o.hdr, o.payload, o.m, o.n, i);
    assert a.hdr == f[..|o.hdr|] && a.data == f[|o.hdr|..];
    assert f[12..20] == a.hdr[12..20] && f[4..6] == a.hdr[4..6];
  }

  lemma PieceInside(payload: seq<byte>, m: nat, i: nat)
    requires Offset(i, m) <= |payload|
    ensures Piece(payload, m, i).End() <= |payload|
  {
    hide Offset;
  }

  /** The set the fragment goes to holds what has been seen, also when it is new. */
  lemma SetHolds(o: Original, sets: Sets, seen: set<nat>, now: int) returns (idx: seq<nat>)
    requires Cut(o) && Tracks(o, sets, seen)
    ensures Holding(o, SetFor(sets, KeyOf(o.hdr), now), idx, seen) && |idx| == |seen|
  {
    hide First, Offset, Piece;
    if seen == {} {
      idx := [];
    } else {
      idx :| Holding(o, sets[KeyOf(o.hdr)], idx, seen);
    }
    DistinctCount(idx, seen);
  }

  /** Feeding the fragment, in terms of what has been seen. */
  lemma FedPiece(o: Original, s: FragSet, idx: seq<nat>, seen: set<nat>, i: nat)
    requires Cut(o) && i < o.n && Holding(o, s, idx, seen) && |idx| == |seen|
    ensures var f := Sent(o.hdr, o.payload, o.m, o.n, i);
            && |f| > |o.hdr| && (s.header == [] || |s.header| >= MIN_HEADER)
            && var v := Feed(s, f[..|o.hdr|], f[|o.hdr|..], FragmentOffset(f) * 8, More(f));
            if i in seen then v == Same && |seen + {i}| != o.n
            else if |seen + {i}| == o.n then v == Finish(Whole(o.hdr, o.payload))
            else v.Keep? && Holding(o, v.kept, Grown(s, o.n, idx, i), seen + {i})
  {
    hide Feed, Sent, Whole, Offset, Piece, SortIndex;
    FeedPiece(s, o.hdr, o.payload, o.m, o.n, idx, i);
    FirstHeader(o.hdr, o.payload, o.m, o.n);
    if i in seen {
      assert seen + {i} == seen;
    }
  }

  /** One arrival: the answer is the whole datagram exactly when this fragment is the last one missing. */
  lemma ArrivalStep(o: Original, sets: Sets, seen: set<nat>, a: Arrival, w: Option<nat>)
    requires Cut(o) && AllOk(sets) && Tracks(o, sets, seen) && ArrivesAs(o, a, w)
    ensures var r := Absorb(sets, a.hdr, a.data, a.now);
            match w
            case None => Tracks(o, r.0, seen)
            case Some(i) =>
              if |seen + {i}| == o.n then r.1 == Complete(Whole(o.hdr, o.payload)) && Tracks(o, r.0, {})
              else r.1 == Nothing && Tracks(o, r.0, seen + {i})
  {
    hide Feed, First, Sent, Whole, Gathered, KeyOf, Accepted, SetOk;
    AbsorbKeepsOrder(sets, a.hdr, a.data, a.now);
    if w.Some? {
      var i := w.value;
      ArrivalFields(o, a, i);
      var s := SetFor(sets, KeyOf(o.hdr), a.now);
      var idx := SetHolds(o, sets, seen, a.now);
      FedPiece(o, s, idx, seen, i);
      assert i in seen ==> seen + {i} == seen;
      var r := Absorb(sets, a.hdr, a.data, a.now);
      if i !in seen && |seen + {i}| != o.n {
        assert Holding(o, r.0[KeyOf(o.hdr)], Grown(s, o.n, idx, i), seen + {i});
      }
    }
  }

  /**
   Every run: the table always holds exactly the distinct fragments seen since the last completion,
   and an arriving fragment gives the whole datagram exactly when it is the last one missing.
   */
  lemma {:induction false} EveryRun(o: Original, sets: Sets, run: seq<Arrival>, which: seq<Option<nat>>)
    requires Cut(o) && AllOk(sets) && KeyOf(o.hdr) !in sets && Follows(o, run, which) && AllParsed(run)
    ensures Tracks(o, After(sets, run), Seen(which, o.n))
    ensures run != [] && which[|run| - 1].Some? ==>
              Answer(sets, run) ==
              if |Seen(which[..|run| - 1], o.n) + {which[|run| - 1].value}| == o.n
              then Complete(Whole(o.hdr, o.payload)) else Nothing
    decreases |run|
  {
    hide Absorb, Tracks, ArrivesAs, Whole, AllOk;
    if run == [] {
      NothingYet(o, sets);
    } else {
      var last := |run| - 1;
      EveryRun(o, sets, run[..last], which[..last]);
      ArrivalStep(o, After(sets, run[..last]), Seen(which[..last], o.n), run[last], which[last]);
    }
  }

  lemma NothingYet(o: Original, sets: Sets)
    requires Cut(o) && KeyOf(o.hdr) !in sets
    ensures Tracks(o, sets, {})
  {
  }

  /**
   Fragmentation and reassembly are inverse: the fragments of a packet cut to an MTU, in any order,
   with repetitions and other datagrams between them, give the packet back at the last missing fragment,
   exactly when its flags and offset were zero and its checksum the computed one.
   */
  lemma RoundTrips(pkt: seq<byte>, mtu: int, n: nat, sets: Sets, run: seq<Arrival>, which: seq<Option<nat>>)
    requires Cuttable(pkt, mtu) && Covers(PieceSize(mtu, HeaderLength(pkt)), |Payload(pkt)|, n)
    ensures Cut(OriginalOf(pkt, mtu, n))
    ensures var o := OriginalOf(pkt, mtu, n);
            AllOk(sets) && KeyOf(o.hdr) !in sets && Follows(o, run, which) && AllParsed(run) &&
            run != [] && which[|run| - 1].Some? && |Seen(which[..|run| - 1], n) + {which[|run| - 1].value}| == n ==>
              Answer(sets, run).Complete? &&
              (Answer(sets, run).pkt == pkt[..TotalLength(pkt)] <==>
               Word(pkt, 6) == 0 && HeaderVerifies(Header(pkt)) && Word(pkt, 10) != 65535)
  {
    hide Answer, Seen, After, Whole, Offset, HeaderVerifies;
    DatagramOf(pkt);
    CuttingFrom(Payload(pkt), PieceSize(mtu, HeaderLength(pkt)), n);
    WholeIsOriginal(pkt);
    var o := OriginalOf(pkt, mtu, n);
    if AllOk(sets) && KeyOf(o.hdr) !in sets && Follows(o, run, which) && AllParsed(run) {
      EveryRun(o, sets, run, which);
    }
  }

  /** The packet as fragmentation to an MTU cuts it. */
  ghost function OriginalOf(pkt: seq<byte>, mtu: int, n: nat): Original
    requires Cuttable(pkt, mtu)
  {
    Original(Header(pkt), Payload(pkt), PieceSize(mtu, HeaderLength(pkt)), n)
  }

  /** Nothing times out, nothing has to be trimmed and every complete set can be assembled. */
  ghost predicate Undisturbed(sets: Sets, run: seq<Arrival>, timeout: int)
    requires AllOk(sets) && AllParsed(run)
  {
    forall t :: 0 <= t < |run| ==> UndisturbedAt(sets, run, timeout, t)
  }

  ghost predicate UndisturbedAt(sets: Sets, run: seq<Arrival>, timeout: int, t: nat)
    requires AllOk(sets) && AllParsed(run) && t < |run|
  {
    && (forall k :: k in After(sets, run[..t]) ==> !Expired(After(sets, run[..t])[k], run[t].now, timeout))
    && TotalMem(After(sets, run[..t + 1])) <= HIGH_THRESHOLD && Answer(sets, run[..t + 1]) != Fault
  }

  lemma Prefix(sets: Sets, run: seq<Arrival>, t: nat)
    requires AllOk(sets) && AllParsed(run) && t < |run|
    ensures var a := run[t];
            var next := Absorb(After(sets, run[..t]), a.hdr, a.data, a.now);
            After(sets, run[..t + 1]) == next.0 && Answer(sets, run[..t + 1]) == next.1
  {
    hide Absorb;
    var front := run[..t + 1];
    assert front[..|front| - 1] == run[..t] && front[|front| - 1] == run[t];
  }

  lemma NoneExpired(sets: Sets, now: int, timeout: int)
    requires forall k :: k in sets ==> !Expired(sets[k], now, timeout)
    ensures Unexpired(sets, now, timeout) == sets
  {
  }

  /** Then a run of `process` is a run of `Absorb`, and its answers are those the theorems are about. */
  method ProcessRun(r: Reassembler, run: seq<Arrival>) returns (outs: seq<Outcome>)
    requires r.Valid() && AllParsed(run) && Undisturbed(r.sets, run, r.timeout)
    modifies r
    ensures r.Valid() && AllOk(old(r.sets)) && r.sets == After(old(r.sets), run)
    ensures |outs| == |run| && forall t :: 0 <= t < |run| ==> outs[t] == Answer(old(r.sets), run[..t + 1])
  {
    hide Absorb, After, Answer, AllOk, TotalMem, Expired, Trimmed;
    ghost var sets := r.sets;
    outs := [];
    NothingArrived(sets, run);
    for t := 0 to |run|
      invariant r.Valid() && r.sets == After(sets, run[..t]) && |outs| == t
      invariant forall i :: 0 <= i < t ==> outs[i] == Answer(sets, run[..i + 1])
    {
      assert UndisturbedAt(sets, run, r.timeout, t);
      ghost var before := r.sets;
      var a := run[t];
      NoneExpired(before, a.now, r.timeout);
      Prefix(sets, run, t);
      var out := r.Process(a.hdr, a.data, a.now);
      Processed(before, a, r.sets, out, r.timeout);
      outs := outs + [out];
    }
    assert run[..|run|] == run;
  }

  lemma NothingArrived(sets: Sets, run: seq<Arrival>)
    requires AllOk(sets)
    ensures After(sets, run[..0]) == sets
  {
  }

  /** One call, when nothing has expired and what is kept fits the bound. */
  lemma Processed(sets: Sets, a: Arrival, left: Sets, out: Outcome, timeout: int)
    requires AllOk(sets) && |a.hdr| >= MIN_HEADER && Unexpired(sets, a.now, timeout) == sets
    requires !Accepted(a.hdr, a.data) ==> out == Nothing && left == sets
    requires Accepted(a.hdr, a.data) ==>
               && out == Absorb(sets, a.hdr, a.data, a.now).1
               && (out != Fault ==> Trimmed(Absorb(sets, a.hdr, a.data, a.now).0, left))
    requires var next := Absorb(sets, a.hdr, a.data, a.now);
             TotalMem(next.0) <= HIGH_THRESHOLD && next.1 != Fault
    ensures var next := Absorb(sets, a.hdr, a.data, a.now); left == next.0 && out == next.1
  {
    hide Trimmed, TotalMem, Feed;
    if Accepted(a.hdr, a.data) {
      TrimmedWithin(Absorb(sets, a.hdr, a.data, a.now).0, left);
    }
  }
}
