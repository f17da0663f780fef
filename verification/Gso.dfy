/** Splitting one large TCP packet into segments (`gsoSplit`, IPv4 and TCP). */
module Gso {
  import opened Bytes
  import opened SeqNum
  import opened Checksum
  import opened Ipv4
  import opened Fragment

  const TCP_PROTOCOL: byte := 6
  const FLAGS_AT: nat := 13
  const CHECKSUM_AT: nat := 16

  /** The big-endian 32-bit word at `i`. */
  function Word32(b: seq<byte>, i: nat): (v: u32)
    requires i + 3 < |b|
  {
    65536 * Word(b, i) + Word(b, i + 2)
  }

  function PutWord32(b: seq<byte>, i: nat, v: u32): (r: seq<byte>)
    requires i + 3 < |b|
    ensures |r| == |b| && Word32(r, i) == v
    ensures forall k :: 0 <= k < |b| && !(i <= k < i + 4) ==> r[k] == b[k]
  {
    var hi := PutWord(b, i, v / 65536);
    var r := PutWord(hi, i + 2, v % 65536);
    assert Word(r, i) == Word(hi, i);
    r
  }

  /** `flags &^ (FIN | PSH)`. */
  function Masked(flags: byte): byte {
    16 * (flags / 16) + 2 * (flags / 2 % 4)
  }

  /** FIN and PSH are cleared and every other flag is kept. */
  lemma MaskedBits(high: nat, psh: nat, low: nat, fin: nat)
    requires high < 16 && psh < 2 && low < 4 && fin < 2
    ensures Masked(16 * high + 8 * psh + 2 * low + fin) == 16 * high + 2 * low
  {
    assert (16 * high + 8 * psh + 2 * low + fin) / 2 == 4 * (2 * high + psh) + low;
  }

  /** The checksum over pseudo-header, transport header and payload comes out as all ones. */
  ghost predicate TransportVerifies(src: seq<byte>, dst: seq<byte>, seg: seq<byte>) {
    |seg| <= 65535 && Canon(Sum16(PseudoHeader(TCP_PROTOCOL, src, dst, |seg|)) + Sum16(seg)) == 65535
  }

  lemma {:induction false} WholeTurns(x: nat, k: nat)
    ensures (x + 65536 * k) % 65536 == x % 65536
  {
    if k > 0 {
      WholeTurns(x, k - 1);
      assert x + 65536 * k == x + 65536 * (k - 1) + 65536;
    }
  }

  /** Adding a truncated count to a 16-bit number. */
  lemma NextId(w: nat, i: nat)
    requires w <= 65535
    ensures (w + i % 65536) % 65536 == (w + i) % 65536 && (i == 0 ==> (w + i) % 65536 == w)
  {
    WholeTurns(w + i % 65536, i / 65536);
  }

  /** The IP header of segment `i`: numbered on from the first, with its own length and checksum. */
  method BuildIp(ip0: seq<byte>, i: nat, totalLen: nat, le: bool) returns (ip: seq<byte>)
    requires |ip0| >= MIN_HEADER && ip0[10] == 0 && ip0[11] == 0 && totalLen <= 65535
    ensures |ip| == |ip0| && TotalLength(ip) == totalLen && Word(ip, 4) == (Word(ip0, 4) + i) % 65536
    ensures HeaderVerifies(ip)
    ensures forall k :: 0 <= k < |ip| && !(2 <= k < 6) && k != 10 && k != 11 ==> ip[k] == ip0[k]
  {
    hide Canon, Sum16, PutWord;
    ip := ip0;
    NextId(Word(ip0, 4), i);
    if i > 0 {
      ip := PutWord(ip, 4, (Word(ip, 4) + i % 65536) % 65536);
    }
    ip := PutWord(ip, 2, totalLen);
    var csum := FastChecksum(le, ip, 0);
    ghost var z := ip;
    ip := PutWord(ip, 10, 65535 - csum);
    StoredAt(z, 10, 0, 65535 - csum);
  }

  /** Storing the complement of the sum in a zeroed field makes the whole verify. */
  lemma StoredAt(z: seq<byte>, at: nat, initial: nat, c: nat)
    requires Even(at) && at + 1 < |z| && z[at] == 0 && z[at + 1] == 0 && c == 65535 - Canon(initial + Sum16(z))
    ensures Canon(initial + Sum16(PutWord(z, at, c))) == 65535
  {
    hide Canon, Sum16;
    StoredChecksumVerifies(z, at, initial);
  }

  /** The transport part of a segment: its sequence number, its flags, its payload and its checksum. */
  method BuildTransport(tcp0: seq<byte>, sn: u32, last: bool, payload: seq<byte>, src: seq<byte>, dst: seq<byte>,
                        le: bool)
    returns (seg: seq<byte>)
    requires 20 <= |tcp0| && |tcp0| + |payload| <= 65535 && |src| == 4 && |dst| == 4
    requires tcp0[CHECKSUM_AT] == 0 && tcp0[CHECKSUM_AT + 1] == 0
    ensures |seg| == |tcp0| + |payload| && seg[|tcp0|..] == payload
    ensures Word32(seg, 4) == sn && seg[FLAGS_AT] == if last then tcp0[FLAGS_AT] else Masked(tcp0[FLAGS_AT])
    ensures TransportVerifies(src, dst, seg)
    ensures forall k :: 0 <= k < |tcp0| && !(4 <= k < 8) && k != FLAGS_AT && k != 16 && k != 17 ==> seg[k] == tcp0[k]
  {
    hide Canon, Sum16, PutWord, PutWord32, Masked, Same, PseudoHeader;
    var tcp := PutWord32(tcp0, 4, sn);
    ghost var t1 := tcp;
    if !last {
      tcp := tcp[FLAGS_AT := Masked(tcp[FLAGS_AT])];
    }
    var z := tcp + payload;
    var pseudo := PseudoHeaderNoFold(le, TCP_PROTOCOL, src, dst, |z|);
    var csum := FastChecksum(le, z, pseudo);
    seg := PutWord(z, CHECKSUM_AT, 65535 - csum);
    CanonOfInitial(pseudo, Sum16(PseudoHeader(TCP_PROTOCOL, src, dst, |z|)), Sum16(z));
    StoredAt(z, CHECKSUM_AT, Sum16(PseudoHeader(TCP_PROTOCOL, src, dst, |z|)), 65535 - csum);
    SameWord32(t1, seg, 4);
  }

  lemma SameWord32(a: seq<byte>, b: seq<byte>, i: nat)
    requires i + 3 < |a| && i + 3 < |b| && forall k :: i <= k < i + 4 ==> a[k] == b[k]
    ensures Word32(a, i) == Word32(b, i)
  {
  }

  // ----- The split -----

  /** A packet with an IP header of `cs` bytes, headers of `hl` bytes together, and a legal size. */
  predicate Splittable(input: seq<byte>, cs: nat, hl: nat, g: nat) {
    MIN_HEADER <= cs && cs + 20 <= hl <= |input| <= 65535 && g <= 65535
  }

  /** Header bytes that every segment takes over unchanged. */
  predicate Kept(k: nat, cs: nat) {
    !(2 <= k < 6) && k != 10 && k != 11 && !(cs + 4 <= k < cs + 8) && k != cs + FLAGS_AT && !(cs + 16 <= k < cs + 18)
  }

  /** What segment `i` of the packet has to be. */
  ghost predicate IsSegment(input: seq<byte>, cs: nat, hl: nat, g: nat, i: nat, out: seq<byte>)
    requires Splittable(input, cs, hl, g)
  {
    var data, at := input[hl..], Offset(i, g);
    && at < |data|
    && var n := Min(g, |data| - at);
    && |out| == hl + n && out[hl..] == data[at..at + n]
    && TotalLength(out) == |out| && Word(out, 4) == (Word(input, 4) + i) % 65536
    && Word32(out, cs + 4) == Add(Word32(input, cs + 4), at)
    && out[cs + FLAGS_AT] == (if at + n == |data| then input[cs + FLAGS_AT] else Masked(input[cs + FLAGS_AT]))
    && HeaderVerifies(out[..cs]) && TransportVerifies(out[12..16], out[16..20], out[cs..])
    && forall k :: 0 <= k < hl && Kept(k, cs) ==> out[k] == input[k]
  }

  lemma {:induction false} OffsetAtLeast(i: nat, g: nat)
    requires g > 0
    ensures Offset(i, g) >= i
  {
    hide Offset;
    if i > 0 {
      OffsetAtLeast(i - 1, g);
      OffsetStep(i - 1, g);
    }
  }

  lemma OffsetProduct(i: nat, g: nat)
    ensures Offset(i, g) == g * i
  {
  }

  /** The 16-bit product is the offset exactly while the offset fits in 16 bits. */
  lemma ProductExactIff(g: nat, i: nat)
    requires g <= 65535
    ensures g * (i % 65536) % 65536 == Offset(i, g) <==> Offset(i, g) < 65536
  {
    hide Offset;
    OffsetProduct(i, g);
    if Offset(i, g) < 65536 {
      if g > 0 {
        OffsetAtLeast(i, g);
        assert i % 65536 == i;
      }
      assert g * (i % 65536) == Offset(i, g);
    }
  }

  /** A zeroed 16-bit field. */
  function Cleared(b: seq<byte>, at: nat): (r: seq<byte>)
    requires at + 1 < |b|
    ensures |r| == |b|
  {
    b[at := 0][at + 1 := 0]
  }

  ghost predicate IsIp(input: seq<byte>, cs: nat, i: nat, len: nat, ip: seq<byte>)
    requires MIN_HEADER <= cs <= |input|
  {
    && |ip| == cs && TotalLength(ip) == len && Word(ip, 4) == (Word(input, 4) + i) % 65536 && HeaderVerifies(ip)
    && forall k :: 0 <= k < cs && !(2 <= k < 6) && k != 10 && k != 11 ==> ip[k] == input[k]
  }

  ghost predicate IsTransport(input: seq<byte>, cs: nat, hl: nat, sn: u32, last: bool, payload: seq<byte>,
                              seg: seq<byte>)
    requires MIN_HEADER <= cs && cs + 20 <= hl <= |input|
  {
    && |seg| == hl - cs + |payload| && seg[hl - cs..] == payload && Word32(seg, 4) == sn
    && seg[FLAGS_AT] == (if last then input[cs + FLAGS_AT] else Masked(input[cs + FLAGS_AT]))
    && TransportVerifies(input[12..16], input[16..20], seg)
    && forall k :: 0 <= k < hl - cs && Kept(cs + k, cs) ==> seg[k] == input[cs + k]
  }

  method IpOf(input: seq<byte>, cs: nat, i: nat, len: nat, le: bool) returns (ip: seq<byte>)
    requires MIN_HEADER <= cs <= |input| && len <= 65535
    ensures IsIp(input, cs, i, len, ip)
  {
    hide HeaderVerifies;
    ip := BuildIp(Cleared(input[..cs], 10), i, len, le);
  }

  method TransportOf(input: seq<byte>, cs: nat, hl: nat, sn: u32, last: bool, payload: seq<byte>, le: bool)
    returns (seg: seq<byte>)
    requires MIN_HEADER <= cs && cs + 20 <= hl <= |input| && hl - cs + |payload| <= 65535
    ensures IsTransport(input, cs, hl, sn, last, payload, seg)
  {
    hide TransportVerifies, Masked, Word32;
    var tcp0 := Cleared(input[cs..hl], CHECKSUM_AT);
    seg := BuildTransport(tcp0, sn, last, payload, input[12..16], input[16..20], le);
  }

  lemma Assembled(input: seq<byte>, cs: nat, hl: nat, g: nat, i: nat, ip: seq<byte>, seg: seq<byte>)
    requires Splittable(input, cs, hl, g) && Offset(i, g) < |input| - hl
    requires var at := Offset(i, g);
             var n := Min(g, |input| - hl - at);
             && IsIp(input, cs, i, hl + n, ip)
             && IsTransport(input, cs, hl, Add(Word32(input, cs + 4), at), hl + at + n == |input|,
                            input[hl + at..hl + at + n], seg)
    ensures IsSegment(input, cs, hl, g, i, ip + seg)
  {
    hide Offset, HeaderVerifies, TransportVerifies, Masked;
    var out := ip + seg;
    assert out[..cs] == ip && out[cs..] == seg;
    assert out[hl..] == seg[hl - cs..];
    assert out[12..16] == input[12..16] && out[16..20] == input[16..20];
  }

  /** One turn of the loop. */
  method Segment(input: seq<byte>, cs: nat, hl: nat, g: nat, i: nat, at: nat, le: bool) returns (out: seq<byte>)
    requires Splittable(input, cs, hl, g) && at == Offset(i, g) && at < |input| - hl
    ensures IsSegment(input, cs, hl, g, i, out)
  {
    hide Offset, IsIp, IsTransport, IsSegment, Word32;
    var end := Min(hl + at + g, |input|);
    var ip := IpOf(input, cs, i, hl + end - hl - at, le);
    ProductExactIff(g, i);
    var sn := Add(Word32(input, cs + 4), g * (i % 65536) % 65536);
    var seg := TransportOf(input, cs, hl, sn, end == |input|, input[hl + at..end], le);
    Assembled(input, cs, hl, g, i, ip, seg);
    out := ip + seg;
  }

  /** The pieces one after the other. */
  ghost function Joined(pieces: seq<seq<byte>>): seq<byte> {
    if pieces == [] then [] else Joined(pieces[..|pieces| - 1]) + pieces[|pieces| - 1]
  }

  /** Piece `k` is what a cut at `g` bytes puts there. */
  ghost predicate CutAt(data: seq<byte>, g: nat, pieces: seq<seq<byte>>) {
    forall k :: 0 <= k < |pieces| ==>
      Offset(k, g) < |data| && pieces[k] == data[Offset(k, g)..Min(Offset(k, g) + g, |data|)]
  }

  /** Pieces cut in order join to the front of the data. */
  lemma {:induction false} CutJoins(data: seq<byte>, g: nat, pieces: seq<seq<byte>>)
    requires CutAt(data, g, pieces)
    ensures Joined(pieces) == data[..Min(Offset(|pieces|, g), |data|)]
    decreases |pieces|
  {
    hide Offset, CutAt;
    OffsetStep(0, g);
    assert data[..0] == [];
    if pieces != [] {
      var last := |pieces| - 1;
      CutFront(data, g, pieces);
      CutJoins(data, g, pieces[..last]);
      OffsetStep(last, g);
      JoinSlices(data, Offset(last, g), Min(Offset(last, g) + g, |data|));
    }
  }

  lemma JoinSlices(data: seq<byte>, at: nat, end: nat)
    requires at <= end <= |data|
    ensures data[..at] + data[at..end] == data[..end]
  {
  }

  lemma CutFront(data: seq<byte>, g: nat, pieces: seq<seq<byte>>)
    requires CutAt(data, g, pieces) && pieces != []
    ensures CutAt(data, g, pieces[..|pieces| - 1])
    ensures var at := Offset(|pieces| - 1, g);
            at < |data| && pieces[|pieces| - 1] == data[at..Min(at + g, |data|)]
  {
    hide Offset;
  }

  ghost function Payloads(outs: seq<seq<byte>>, hl: nat): seq<seq<byte>> {
    seq(|outs|, k requires 0 <= k < |outs| => if hl <= |outs[k]| then outs[k][hl..] else [])
  }

  ghost predicate AreSegments(input: seq<byte>, cs: nat, hl: nat, g: nat, outs: seq<seq<byte>>)
    requires Splittable(input, cs, hl, g)
  {
    forall k :: 0 <= k < |outs| ==> IsSegment(input, cs, hl, g, k, outs[k])
  }

  lemma SegmentPiece(input: seq<byte>, cs: nat, hl: nat, g: nat, k: nat, out: seq<byte>)
    requires Splittable(input, cs, hl, g) && IsSegment(input, cs, hl, g, k, out)
    ensures var data := input[hl..];
            hl <= |out| && Offset(k, g) < |data| && out[hl..] == data[Offset(k, g)..Min(Offset(k, g) + g, |data|)]
  {
    hide Offset, Word32, Word, Masked, HeaderVerifies, TransportVerifies, Kept;
  }

  lemma SegmentNumber(input: seq<byte>, cs: nat, hl: nat, g: nat, k: nat, out: seq<byte>)
    requires Splittable(input, cs, hl, g) && IsSegment(input, cs, hl, g, k, out)
    ensures hl <= |out| && Word32(out, cs + 4) == Add(Word32(input, cs + 4), Offset(k, g))
  {
    hide Offset, Word32, Word, Masked, HeaderVerifies, TransportVerifies, Kept;
  }

  /** The output payloads are the input payload, cut up. */
  lemma SplitJoins(input: seq<byte>, cs: nat, hl: nat, g: nat, outs: seq<seq<byte>>)
    requires Splittable(input, cs, hl, g) && |input| - hl <= Offset(|outs|, g)
    requires AreSegments(input, cs, hl, g, outs)
    ensures Joined(Payloads(outs, hl)) == input[hl..]
  {
    hide Offset, IsSegment;
    forall k | 0 <= k < |outs|
      ensures Offset(k, g) < |input[hl..]|
      ensures Payloads(outs, hl)[k] == input[hl..][Offset(k, g)..Min(Offset(k, g) + g, |input[hl..]|)]
    {
      SegmentPiece(input, cs, hl, g, k, outs[k]);
    }
    CutJoins(input[hl..], g, Payloads(outs, hl));
  }

  /**
   `gsoSplit`: every segment written is right. All of the payload is written unless the output buffers
   run out; then the count returned is one less than the number of buffers filled.
   */
  method Split(input: seq<byte>, cs: nat, hl: nat, g: nat, room: nat, le: bool)
    returns (outs: seq<seq<byte>>, n: int, tooMany: bool)
    requires Splittable(input, cs, hl, g)
    ensures tooMany <==> Offset(room, g) < |input| - hl
    ensures AreSegments(input, cs, hl, g, outs)
    ensures tooMany ==> |outs| == room && n == room - 1
    ensures !tooMany ==> |outs| == n <= room && Joined(Payloads(outs, hl)) == input[hl..]
    ensures !tooMany && n > 0 ==> Covers(g, |input| - hl, n)
  {
    hide Offset, IsSegment;
    outs := [];
    var at := 0;
    OffsetStep(0, g);
    while at < |input| - hl
      invariant at == Offset(|outs|, g) && |outs| <= room
      invariant |outs| > 0 ==> Offset(|outs| - 1, g) < |input| - hl
      invariant AreSegments(input, cs, hl, g, outs)
      decreases room - |outs|
    {
      if |outs| == room {
        return outs, room - 1, true;
      }
      var out := Segment(input, cs, hl, g, |outs|, at, le);
      OffsetStep(|outs|, g);
      outs := outs + [out];
      at := at + g;
    }
    SplitJoins(input, cs, hl, g, outs);
    OffsetOrder(|outs|, room, g);
    n, tooMany := |outs|, false;
  }

  lemma {:induction false} OffsetOrder(i: nat, k: nat, g: nat)
    requires i <= k
    ensures Offset(i, g) <= Offset(k, g)
    decreases k
  {
    if i < k {
      OffsetOrder(i, k - 1, g);
      OffsetStep(k - 1, g);
    }
  }
}
