/**
 Fragmentation and reassembly are inverse: the pieces of one datagram, arriving in any order and
 any number of times, give back the datagram exactly when the last missing piece arrives.
 */
module RoundTrip {
  import opened Bytes
  import opened Ipv4
  import opened Fragment
  import opened Reassemble

  /** Piece `i` of the payload. */
  ghost function Piece(payload: seq<byte>, m: nat, i: nat): Frag
    requires Offset(i, m) <= |payload|
  {
    Frag(Offset(i, m), payload[Offset(i, m)..Min(Offset(i, m) + m, |payload|)])
  }

  /** The payload is cut into `n` pieces of `m` bytes. */
  ghost predicate Cutting(payload: seq<byte>, m: nat, n: nat) {
    m > 0 && Covers(m, |payload|, n) && forall i :: 0 <= i < n ==> Offset(i, m) < |payload|
  }

  lemma {:induction false} OffsetMonotone(i: nat, k: nat, m: nat)
    requires i < k
    ensures Offset(i, m) + m <= Offset(k, m)
    decreases k
  {
    hide Offset;
    OffsetStep(k - 1, m);
    if i + 1 < k {
      OffsetMonotone(i, k - 1, m);
    }
  }

  lemma CuttingFrom(payload: seq<byte>, m: nat, n: nat)
    requires m > 0 && Covers(m, |payload|, n)
    ensures Cutting(payload, m, n)
  {
    hide Offset;
    forall i | 0 <= i < n
      ensures Offset(i, m) < |payload|
    {
      if i < n - 1 {
        OffsetMonotone(i, n - 1, m);
      }
    }
  }

  /** Different pieces do not overlap, and their order is that of their indices. */
  lemma PieceOrder(payload: seq<byte>, m: nat, n: nat, i: nat, k: nat)
    requires Cutting(payload, m, n) && i < k < n
    ensures Piece(payload, m, i).End() == Offset(i, m) + m <= Piece(payload, m, k).offset
  {
    hide Offset;
    OffsetMonotone(i, k, m);
  }

  /** Only the last piece reaches the end. */
  lemma PieceEnd(payload: seq<byte>, m: nat, n: nat, i: nat)
    requires Cutting(payload, m, n) && i < n
    ensures Piece(payload, m, i).End() == if i == n - 1 then |payload| else Offset(i + 1, m)
    ensures |Piece(payload, m, i).data| > 0
  {
    hide Offset;
    OffsetStep(i, m);
    if i < n - 1 {
      OffsetMonotone(i, n - 1, m);
    }
  }

  /** The pieces named by an index sequence. */
  ghost function Pieces(payload: seq<byte>, m: nat, idx: seq<nat>): (s: seq<Frag>)
    requires forall j :: 0 <= j < |idx| ==> Offset(idx[j], m) <= |payload|
    ensures |s| == |idx|
  {
    seq(|idx|, j requires 0 <= j < |idx| => Piece(payload, m, idx[j]))
  }

  lemma PiecesSplit(payload: seq<byte>, m: nat, idx: seq<nat>)
    requires idx != [] && forall j :: 0 <= j < |idx| ==> Offset(idx[j], m) <= |payload|
    ensures forall j :: 0 <= j < |idx[1..]| ==> Offset(idx[1..][j], m) <= |payload|
    ensures Pieces(payload, m, idx) == [Piece(payload, m, idx[0])] + Pieces(payload, m, idx[1..])
    ensures Pieces(payload, m, idx)[0] == Piece(payload, m, idx[0])
    ensures Pieces(payload, m, idx)[1..] == Pieces(payload, m, idx[1..])
  {
    hide Offset, Piece;
  }

  ghost predicate Below(idx: seq<nat>, n: nat) {
    forall j :: 0 <= j < |idx| ==> idx[j] < n
  }

  ghost predicate Distinct(idx: seq<nat>) {
    forall i, j :: 0 <= i < j < |idx| ==> idx[i] != idx[j]
  }

  ghost predicate Ascending(idx: seq<nat>) {
    forall i, j :: 0 <= i < j < |idx| ==> idx[i] < idx[j]
  }

  /** An ascending sequence of indices in `[lo, n)` has at most `n - lo` of them. */
  lemma {:induction false} AscendingBound(idx: seq<nat>, lo: nat, n: nat)
    requires Ascending(idx) && Below(idx, n) && lo <= n && (idx != [] ==> lo <= idx[0])
    ensures |idx| <= n - lo
    decreases |idx|
  {
    if idx != [] {
      AscendingBound(idx[1..], idx[0] + 1, n);
    }
  }

  /** A new piece clashes with nothing, and one that is already there is a duplicate. */
  lemma {:induction false} PieceClash(payload: seq<byte>, m: nat, n: nat, idx: seq<nat>, i: nat)
    requires Cutting(payload, m, n) && Below(idx, n) && i < n
    ensures var p := Piece(payload, m, i);
            ClashWith(Pieces(payload, m, idx), p.offset, p.End()) == if i in idx then Duplicate else Free
    decreases |idx|
  {
    hide Offset, Piece;
    if idx != [] {
      var s := Pieces(payload, m, idx);
      assert s[0] == Piece(payload, m, idx[0]);
      assert s[1..] == Pieces(payload, m, idx[1..]);
      PieceClash(payload, m, n, idx[1..], i);
      PieceEnd(payload, m, n, i);
      PieceEnd(payload, m, n, idx[0]);
      if i < idx[0] {
        PieceOrder(payload, m, n, i, idx[0]);
      } else if idx[0] < i {
        PieceOrder(payload, m, n, idx[0], i);
      }
      ClashStep(s, Piece(payload, m, i).offset, Piece(payload, m, i).End());
    }
  }

  lemma ClashStep(s: seq<Frag>, off: nat, end: nat)
    requires s != []
    ensures end <= s[0].offset || s[0].End() <= off ==> ClashWith(s, off, end) == ClashWith(s[1..], off, end)
    ensures off < s[0].End() && s[0].offset < end && off == s[0].offset && end == s[0].End() ==>
              ClashWith(s, off, end) == Duplicate
  {
  }

  /** The same insertion on indices. */
  ghost function InsertIndex(i: nat, idx: seq<nat>): (r: seq<nat>)
    ensures |r| == |idx| + 1 && forall x :: x in r <==> x == i || x in idx
  {
    if idx == [] || i <= idx[0] then [i] + idx else [idx[0]] + InsertIndex(i, idx[1..])
  }

  ghost function SortIndex(idx: seq<nat>): (r: seq<nat>)
    ensures |r| == |idx| && forall x :: x in r <==> x in idx
  {
    if idx == [] then [] else InsertIndex(idx[0], SortIndex(idx[1..]))
  }

  lemma {:induction false} InsertAscending(i: nat, idx: seq<nat>)
    requires Ascending(idx) && i !in idx
    ensures Ascending(InsertIndex(i, idx))
    decreases |idx|
  {
    if idx != [] && i > idx[0] {
      InsertAscending(i, idx[1..]);
      var r := InsertIndex(i, idx[1..]);
      assert forall k :: 0 <= k < |r| ==> r[k] in r;
      assert forall x :: x in idx[1..] ==> x > idx[0];
    }
  }

  lemma {:induction false} SortAscending(idx: seq<nat>)
    requires Distinct(idx)
    ensures Ascending(SortIndex(idx))
    decreases |idx|
  {
    if idx != [] {
      SortAscending(idx[1..]);
      InsertAscending(idx[0], SortIndex(idx[1..]));
    }
  }

  lemma {:induction false} InsertCommutes(payload: seq<byte>, m: nat, n: nat, i: nat, idx: seq<nat>)
    requires Cutting(payload, m, n) && Below(idx, n) && i < n
    ensures Below(InsertIndex(i, idx), n)
    ensures Insert(Piece(payload, m, i), Pieces(payload, m, idx)) == Pieces(payload, m, InsertIndex(i, idx))
    decreases |idx|
  {
    hide Offset, Piece, Pieces;
    var r := InsertIndex(i, idx);
    InsertBelow(i, idx, n);
    if idx == [] || i <= idx[0] {
      PiecesSplit(payload, m, r);
      assert r[1..] == idx;
      if idx != [] {
        PiecesSplit(payload, m, idx);
        IndexOrder(payload, m, n, i, idx[0]);
      }
    } else {
      PiecesSplit(payload, m, idx);
      IndexOrder(payload, m, n, i, idx[0]);
      InsertCommutes(payload, m, n, i, idx[1..]);
      PiecesSplit(payload, m, r);
      assert r[1..] == InsertIndex(i, idx[1..]);
    }
  }

  lemma InsertBelow(i: nat, idx: seq<nat>, n: nat)
    requires Below(idx, n) && i < n
    ensures Below(InsertIndex(i, idx), n)
  {
    var r := InsertIndex(i, idx);
    assert forall k :: 0 <= k < |r| ==> r[k] in r;
  }

  lemma IndexOrder(payload: seq<byte>, m: nat, n: nat, i: nat, k: nat)
    requires Cutting(payload, m, n) && i < n && k < n
    ensures Piece(payload, m, i).offset <= Piece(payload, m, k).offset <==> i <= k
  {
    hide Offset;
    if i < k {
      PieceOrder(payload, m, n, i, k);
    } else if k < i {
      PieceOrder(payload, m, n, k, i);
    }
  }

  lemma {:induction false} SortCommutes(payload: seq<byte>, m: nat, n: nat, idx: seq<nat>)
    requires Cutting(payload, m, n) && Below(idx, n)
    ensures Below(SortIndex(idx), n)
    ensures Sort(Pieces(payload, m, idx)) == Pieces(payload, m, SortIndex(idx))
    decreases |idx|
  {
    hide Offset, Piece;
    assert forall k :: 0 <= k < |SortIndex(idx)| ==> SortIndex(idx)[k] in SortIndex(idx);
    if idx != [] {
      var s := Pieces(payload, m, idx);
      assert s[0] == Piece(payload, m, idx[0]) && s[1..] == Pieces(payload, m, idx[1..]);
      SortCommutes(payload, m, n, idx[1..]);
      InsertCommutes(payload, m, n, idx[0], SortIndex(idx[1..]));
    }
  }

  /** Sorted pieces from piece `j` on tile the rest of the payload exactly when none is missing. */
  lemma {:induction false} TilingIff(payload: seq<byte>, m: nat, n: nat, idx: seq<nat>, j: nat)
    requires Cutting(payload, m, n) && Below(idx, n) && Ascending(idx) && j < n && (idx != [] ==> j <= idx[0])
    ensures Tiling(Pieces(payload, m, idx), Offset(j, m), |payload|) <==> |idx| == n - j
    decreases |idx|
  {
    hide Offset, Piece;
    if idx != [] {
      var s := Pieces(payload, m, idx);
      assert s[0] == Piece(payload, m, idx[0]) && s[1..] == Pieces(payload, m, idx[1..]);
      PieceEnd(payload, m, n, idx[0]);
      PieceAt(payload, m, idx[0]);
      if idx[0] > j {
        OffsetMonotone(j, idx[0], m);
        AscendingBound(idx, j + 1, n);
      } else if j == n - 1 {
        AscendingBound(idx, j, n);
      } else {
        OffsetMonotone(j, j + 1, m);
        TilingIff(payload, m, n, idx[1..], j + 1);
      }
    }
  }

  lemma PieceAt(payload: seq<byte>, m: nat, i: nat)
    requires Offset(i, m) <= |payload|
    ensures Piece(payload, m, i).offset == Offset(i, m)
  {
  }

  /** `n` ascending indices below `n` are all of them. */
  lemma {:induction false} AllIndices(idx: seq<nat>, n: nat, k: nat)
    requires Ascending(idx) && Below(idx, n) && |idx| == n && k < n
    ensures idx[k] == k
  {
    AscendingBound(idx[k..], idx[k], n);
    AscendingFloor(idx, k);
  }

  lemma {:induction false} AscendingFloor(idx: seq<nat>, k: nat)
    requires Ascending(idx) && k < |idx|
    ensures idx[k] >= k
  {
    if k > 0 {
      AscendingFloor(idx, k - 1);
    }
  }

  /** Copying pieces `j`, `j + 1`, ... over a buffer that is right up to piece `j` completes the payload. */
  lemma {:induction false} OverlayAll(payload: seq<byte>, m: nat, n: nat, idx: seq<nat>, j: nat, raw: seq<byte>)
    requires Cutting(payload, m, n) && |raw| == |payload| && j + |idx| == n
    requires forall k :: 0 <= k < |idx| ==> idx[k] == j + k
    requires Below(idx, n) && InBounds(Pieces(payload, m, idx), |raw|)
    requires var done := if j < n then Offset(j, m) else |payload|;
             forall k :: 0 <= k < |raw| && k < done ==> raw[k] == payload[k]
    ensures Overlay(raw, Pieces(payload, m, idx)) == payload
    decreases |idx|
  {
    hide Offset, Piece, Blit;
    var s := Pieces(payload, m, idx);
    if idx != [] {
      var p := Piece(payload, m, j);
      assert s[0] == p && s[1..] == Pieces(payload, m, idx[1..]);
      PieceEnd(payload, m, n, j);
      BlitPiece(payload, m, j, raw);
      OverlayAll(payload, m, n, idx[1..], j + 1, Blit(raw, p.offset, p.data));
    }
  }

  lemma BlitPiece(payload: seq<byte>, m: nat, j: nat, raw: seq<byte>)
    requires Offset(j, m) <= |payload| == |raw|
    requires forall k :: 0 <= k < Offset(j, m) ==> raw[k] == payload[k]
    ensures var p := Piece(payload, m, j);
            forall k :: 0 <= k < |raw| && k < p.End() ==> Blit(raw, p.offset, p.data)[k] == payload[k]
  {
    hide Offset;
  }

  /** The pieces of the datagram that a set holds, and what it knows of header and length. */
  ghost predicate Gathered(s: FragSet, first: seq<byte>, payload: seq<byte>, m: nat, n: nat, idx: seq<nat>) {
    && Below(idx, n) && Distinct(idx) && Cutting(payload, m, n) && |idx| < n
    && s.fragments == Pieces(payload, m, idx)
    && s.header == (if 0 in idx then first else [])
    && s.totalLen == (if n - 1 in idx then |payload| else -1)
  }

  /** The indices after one more piece; the completeness check leaves them sorted. */
  ghost function Grown(s: FragSet, n: nat, idx: seq<nat>, i: nat): (r: seq<nat>)
    ensures |r| == |idx| + 1 && forall x :: x in r <==> x in idx || x == i
  {
    if (i == n - 1 || s.totalLen >= 0) && (i == 0 || s.header != []) then SortIndex(idx + [i]) else idx + [i]
  }

  /** Sorted, the indices gathered so far tile the payload exactly when all are there; then the copy is the payload. */
  lemma SortedPieces(payload: seq<byte>, m: nat, n: nat, idx: seq<nat>)
    requires Cutting(payload, m, n) && Below(idx, n) && Distinct(idx)
    ensures var s := Sort(Pieces(payload, m, idx));
            && InBounds(s, |payload|)
            && (Tiling(s, 0, |payload|) <==> |idx| == n)
            && (|idx| == n ==> Overlay(Zeros(|payload|), s) == payload && 0 in idx && n - 1 in idx)
            && Below(SortIndex(idx), n) && Distinct(SortIndex(idx)) && s == Pieces(payload, m, SortIndex(idx))
  {
    hide Offset, Piece, Overlay, Tiling, Sort, SortIndex;
    var t := SortIndex(idx);
    SortCommutes(payload, m, n, idx);
    SortAscending(idx);
    OffsetStep(0, m);
    TilingIff(payload, m, n, t, 0);
    forall k | 0 <= k < |t|
      ensures Pieces(payload, m, t)[k].offset <= |payload|
    {
      PieceAt(payload, m, t[k]);
    }
    if |idx| == n {
      forall k | 0 <= k < n
        ensures t[k] == k
      {
        AllIndices(t, n, k);
      }
      assert t[0] in t && t[n - 1] in t;
      OverlayAll(payload, m, n, t, 0, Zeros(|payload|));
    }
  }

  // ----- One fragment arriving -----

  /** Fragment `i` of the datagram, as it is sent. */
  ghost function Sent(hdr: seq<byte>, payload: seq<byte>, m: nat, n: nat, i: nat): seq<byte>
    requires Datagram(hdr, payload) && Cutting(payload, m, n) && i < n
  {
    MakeFragment(hdr, payload, m, Offset(i, m))
  }

  lemma {:induction false} OffsetOfEights(i: nat, q: nat)
    ensures Offset(i, 8 * q) == 8 * Offset(i, q)
  {
    hide Offset;
    OffsetStep(0, q);
    OffsetStep(0, 8 * q);
    if i > 0 {
      OffsetOfEights(i - 1, q);
      OffsetStep(i - 1, q);
      OffsetStep(i - 1, 8 * q);
    }
  }

  lemma OffsetAligned(i: nat, m: nat)
    requires m % 8 == 0
    ensures Offset(i, m) % 8 == 0
  {
    hide Offset;
    assert m == 8 * (m / 8);
    OffsetOfEights(i, m / 8);
  }

  /** What the reassembler reads from fragment `i`. */
  lemma SentFields(hdr: seq<byte>, payload: seq<byte>, m: nat, n: nat, i: nat)
    requires Datagram(hdr, payload) && Cutting(payload, m, n) && i < n && m % 8 == 0
    ensures var f, p := Sent(hdr, payload, m, n, i), Piece(payload, m, i);
            && |f| > |hdr| && p.data == f[|hdr|..] && p.offset == FragmentOffset(f) * 8
            && (More(f) <==> i != n - 1) && (More(f) ==> |p.data| % 8 == 0)
            && KeyOf(f) == KeyOf(hdr) && HeaderVerifies(f[..|hdr|]) && HeaderLength(f) == |hdr| && TotalLength(f) == |f|
  {
    hide Offset, MakeFragment, HeaderVerifies;
    OffsetAligned(i, m);
    FragmentFields(hdr, payload, m, Offset(i, m));
    PieceEnd(payload, m, n, i);
    OffsetStep(n - 1, m);
    if i < n - 1 {
      OffsetMonotone(i, n - 1, m);
    }
  }

  /** The datagram with length, flags and checksum as reassembly writes them. */
  ghost function Whole(hdr: seq<byte>, payload: seq<byte>): seq<byte>
    requires Datagram(hdr, payload)
  {
    Stamp(hdr + payload, |hdr|, |hdr| + |payload|, 0, 0)
  }

  /** The first fragment's header serves as well as the original one. */
  lemma FirstHeader(hdr: seq<byte>, payload: seq<byte>, m: nat, n: nat)
    requires Datagram(hdr, payload) && Cutting(payload, m, n) && m % 8 == 0
    ensures var first := Sent(hdr, payload, m, n, 0)[..|hdr|];
            |first| == |hdr| && Stamp(first + payload, |hdr|, |hdr| + |payload|, 0, 0) == Whole(hdr, payload)
  {
    hide Offset, MakeFragment, HeaderVerifies, Stamp;
    OffsetAligned(0, m);
    FragmentFields(hdr, payload, m, Offset(0, m));
    var f := Sent(hdr, payload, m, n, 0);
    var first := f[..|hdr|];
    forall k | 0 <= k < |hdr + payload| && Untouched(k)
      ensures (first + payload)[k] == (hdr + payload)[k]
    {
    }
    StampAgain(hdr + payload, first + payload, |hdr|, |hdr| + |payload|, 0, 0);
  }

  lemma FirstOffset(payload: seq<byte>, m: nat, n: nat, i: nat)
    requires Cutting(payload, m, n) && i < n
    ensures Piece(payload, m, i).offset == 0 <==> i == 0
  {
    hide Offset;
    OffsetStep(0, m);
    if i > 0 {
      OffsetMonotone(0, i, m);
    }
  }

  /** A piece that is not there yet is fed to the set. */
  lemma FeedNew(s: FragSet, first: seq<byte>, h: seq<byte>, payload: seq<byte>, m: nat, n: nat, idx: seq<nat>, i: nat)
    requires Cutting(payload, m, n) && i < n && i !in idx && Gathered(s, first, payload, m, n, idx)
    requires MIN_HEADER <= |first| && MIN_HEADER <= |h| && |first| + |payload| <= 65535 && (i == 0 ==> h == first)
    ensures var p := Piece(payload, m, i);
            var v := Feed(s, h, p.data, p.offset, i != n - 1);
            if |idx| + 1 == n then v == Finish(Stamp(first + payload, |first|, |first| + |payload|, 0, 0))
            else v.Keep? && Gathered(v.kept, first, payload, m, n, Grown(s, n, idx, i))
  {
    hide Offset, Piece, Overlay, Tiling, Sort, SortIndex, Stamp, ClashWith, InBounds;
    PieceClash(payload, m, n, idx, i);
    PieceEnd(payload, m, n, i);
    FirstOffset(payload, m, n, i);
    var p := Piece(payload, m, i);
    var more := idx + [i];
    assert s.fragments + [Frag(p.offset, p.data)] == Pieces(payload, m, more);
    SortedPieces(payload, m, n, more);
    assert forall x :: x in more <==> x in idx || x == i;
  }

  /**
   One fragment of the datagram arrives at a set that holds some of the others: a duplicate changes
   nothing, the last missing one gives back the datagram, and any other is kept.
   */
  lemma FeedPiece(s: FragSet, hdr: seq<byte>, payload: seq<byte>, m: nat, n: nat, idx: seq<nat>, i: nat)
    requires Datagram(hdr, payload) && Cutting(payload, m, n) && i < n && m % 8 == 0
    requires Gathered(s, Sent(hdr, payload, m, n, 0)[..|hdr|], payload, m, n, idx)
    ensures var first, f := Sent(hdr, payload, m, n, 0)[..|hdr|], Sent(hdr, payload, m, n, i);
            && |f| > |hdr| == |first|
            && var v := Feed(s, f[..|hdr|], f[|hdr|..], FragmentOffset(f) * 8, More(f));
            if i in idx then v == Same
            else if |idx| + 1 == n then v == Finish(Whole(hdr, payload))
            else v.Keep? && Gathered(v.kept, first, payload, m, n, Grown(s, n, idx, i))
  {
    hide Offset, Piece, MakeFragment, HeaderVerifies, Overlay, Tiling, Sort, SortIndex, Stamp, ClashWith, InBounds;
    SentFields(hdr, payload, m, n, i);
    SentFields(hdr, payload, m, n, 0);
    FirstHeader(hdr, payload, m, n);
    PieceClash(payload, m, n, idx, i);
    if i !in idx {
      FeedNew(s, Sent(hdr, payload, m, n, 0)[..|hdr|], Sent(hdr, payload, m, n, i)[..|hdr|], payload, m, n, idx, i);
    }
  }

  /** Reassembly gives the original packet back exactly when its flags were zero and its checksum was the computed one. */
  lemma WholeIsOriginal(pkt: seq<byte>)
    requires WellFormed(pkt)
    ensures Datagram(Header(pkt), Payload(pkt))
    ensures Whole(Header(pkt), Payload(pkt)) == pkt[..TotalLength(pkt)] <==>
            Word(pkt, 6) == 0 && HeaderVerifies(Header(pkt)) && Word(pkt, 10) != 65535
  {
    hide Stamp, HeaderVerifies;
    DatagramOf(pkt);
    var b := pkt[..TotalLength(pkt)];
    assert Header(pkt) + Payload(pkt) == b && b[..HeaderLength(pkt)] == Header(pkt);
    StampFixes(b, HeaderLength(pkt));
  }
}
