/** Cutting an IPv4 packet to an MTU (section 3.2 of RFC 791). */
module Fragment {
  import opened Bytes
  import opened Ipv4

  datatype Option<+T> = None | Some(value: T)

  /** What fragmentation copies into every fragment: a header and the payload it came with. */
  ghost predicate Datagram(hdr: seq<byte>, payload: seq<byte>) {
    MIN_HEADER <= |hdr| <= 60 && |hdr| + |payload| <= 65535 && HeaderLength(hdr) == |hdr|
  }

  /** The fragment that starts at payload offset `off`, cut at `m` payload bytes. */
  function MakeFragment(hdr: seq<byte>, payload: seq<byte>, m: nat, off: nat): (f: seq<byte>)
    requires Datagram(hdr, payload) && off < |payload|
  {
    var n := Min(m, |payload| - off);
    var raw := hdr + payload[off..off + n];
    var flags := Flags(hdr) - Flags(hdr) % 2 + (if |payload| - off > m then 1 else 0);
    Stamp(raw, |hdr|, |hdr| + n, flags, off / 8)
  }

  /**
   Each fragment carries its piece of the payload and a header of its own that is valid: right
   length, offset and more-fragments flag, a checksum that verifies, everything else copied.
   */
  lemma FragmentFields(hdr: seq<byte>, payload: seq<byte>, m: nat, off: nat)
    requires Datagram(hdr, payload) && off < |payload| && off % 8 == 0
    ensures var f, n := MakeFragment(hdr, payload, m, off), Min(m, |payload| - off);
            && |f| == |hdr| + n && f[|hdr|..] == payload[off..off + n]
            && TotalLength(f) == |f| && HeaderLength(f) == |hdr|
            && FragmentOffset(f) * 8 == off && (More(f) <==> |payload| - off > m)
            && HeaderVerifies(f[..|hdr|]) && KeyOf(f) == KeyOf(hdr)
            && (forall k :: 0 <= k < |hdr| && Untouched(k) ==> f[k] == hdr[k])
  {
    hide HeaderVerifies, Stamp;
    var n := Min(m, |payload| - off);
    var raw := hdr + payload[off..off + n];
    var flags := Flags(hdr) - Flags(hdr) % 2 + (if |payload| - off > m then 1 else 0);
    StampFields(raw, |hdr|, |hdr| + n, flags, off / 8);
    var f := MakeFragment(hdr, payload, m, off);
    SameIdentity(hdr, f);
    OffsetField(f, flags, off);
    assert forall k :: |hdr| <= k < |f| ==> f[k] == payload[off + k - |hdr|];
  }

  lemma SameIdentity(h: seq<byte>, f: seq<byte>)
    requires MIN_HEADER <= |h| <= |f| && forall k :: 0 <= k < |h| && Untouched(k) ==> f[k] == h[k]
    ensures KeyOf(f) == KeyOf(h) && HeaderLength(f) == HeaderLength(h)
  {
    assert f[12..20] == h[12..20] && f[4..6] == h[4..6];
  }

  lemma OffsetField(f: seq<byte>, flags: nat, off: nat)
    requires |f| >= MIN_HEADER && off % 8 == 0 && off < 65536 && flags <= 7
    requires Word(f, 6) == flags * 8192 + off / 8 % 8192
    ensures FragmentOffset(f) * 8 == off && Flags(f) == flags
  {
    hide Word;
    assert off / 8 < 8192;
  }

  /** A packet whose lengths make sense. */
  predicate WellFormed(pkt: seq<byte>) {
    && |pkt| >= MIN_HEADER
    && MIN_HEADER <= HeaderLength(pkt) <= TotalLength(pkt) <= |pkt|
  }

  /** Payload bytes per fragment: what fits beside the header, rounded down to a multiple of eight. */
  function PieceSize(mtu: int, hdrLen: nat): int {
    (mtu - hdrLen) - (mtu - hdrLen) % 8
  }

  /** The packet needs cutting and may be cut. */
  predicate Cuttable(pkt: seq<byte>, mtu: int) {
    && WellFormed(pkt) && TotalLength(pkt) > mtu
    && !DontFragment(pkt) && mtu > HeaderLength(pkt) && PieceSize(mtu, HeaderLength(pkt)) > 0
  }

  ghost function Header(pkt: seq<byte>): seq<byte>
    requires WellFormed(pkt)
  {
    pkt[..HeaderLength(pkt)]
  }

  ghost function Payload(pkt: seq<byte>): seq<byte>
    requires WellFormed(pkt)
  {
    pkt[HeaderLength(pkt)..TotalLength(pkt)]
  }

  /** Where piece `i` of `m` bytes starts. */
  function Offset(i: nat, m: nat): nat {
    i * m
  }

  lemma OffsetStep(i: nat, m: nat)
    ensures Offset(0, m) == 0 && Offset(i + 1, m) == Offset(i, m) + m
  {
  }

  /** `count` pieces of `m` bytes, and no fewer, cover `len` bytes. */
  ghost predicate Covers(m: nat, len: nat, count: nat) {
    count > 0 && Offset(count - 1, m) < len <= Offset(count, m)
  }

  lemma DatagramOf(pkt: seq<byte>)
    requires WellFormed(pkt)
    ensures Datagram(Header(pkt), Payload(pkt))
    ensures Flags(Header(pkt)) == Flags(pkt)
  {
  }

  /**
   `fragmentIPv4Packet`: the packet itself when it fits, nothing when it may not be cut, and
   otherwise fragments within the MTU at consecutive multiples of the piece size.
   */
  method FragmentPacket(pkt: seq<byte>, mtu: int) returns (r: Option<seq<seq<byte>>>)
    ensures r.None? <==> !(WellFormed(pkt) && (TotalLength(pkt) <= mtu || Cuttable(pkt, mtu)))
    ensures WellFormed(pkt) && TotalLength(pkt) <= mtu ==> r == Some([pkt[..TotalLength(pkt)]])
    ensures Cuttable(pkt, mtu) ==>
              var m := PieceSize(mtu, HeaderLength(pkt));
              && r.Some? && Datagram(Header(pkt), Payload(pkt)) && Covers(m, |Payload(pkt)|, |r.value|)
              && forall i :: 0 <= i < |r.value| ==>
                   && Offset(i, m) < |Payload(pkt)|
                   && r.value[i] == MakeFragment(Header(pkt), Payload(pkt), m, Offset(i, m)) && |r.value[i]| <= mtu
  {
    hide MakeFragment, Flags, Offset, Covers;
    if |pkt| < MIN_HEADER {
      return None;
    }
    var hdrLen, totalLen := HeaderLength(pkt), TotalLength(pkt);
    if hdrLen < MIN_HEADER || hdrLen > |pkt| || totalLen < hdrLen || totalLen > |pkt| {
      return None;
    }
    if totalLen <= mtu {
      return Some([pkt[..totalLen]]);
    }
    if DontFragment(pkt) || mtu <= hdrLen {
      return None;
    }
    var m := PieceSize(mtu, hdrLen);
    if m <= 0 {
      return None;
    }
    DatagramOf(pkt);
    var fragments := CutAll(pkt[..hdrLen], pkt[hdrLen..totalLen], m, mtu);
    r := Some(fragments);
  }

  /** The cutting loop. */
  method CutAll(hdr: seq<byte>, payload: seq<byte>, m: nat, mtu: int) returns (fragments: seq<seq<byte>>)
    requires Datagram(hdr, payload) && m > 0 && m % 8 == 0 && |hdr| + m <= mtu < |hdr| + |payload|
    ensures Covers(m, |payload|, |fragments|)
    ensures forall i :: 0 <= i < |fragments| ==>
              && Offset(i, m) < |payload|
              && fragments[i] == MakeFragment(hdr, payload, m, Offset(i, m)) && |fragments[i]| <= mtu
  {
    hide MakeFragment, Offset;
    fragments := [];
    var offset := 0;
    OffsetStep(0, m);
    while offset < |payload|
      invariant offset == Offset(|fragments|, m)
      invariant |fragments| > 0 ==> Offset(|fragments| - 1, m) < |payload|
      invariant forall i :: 0 <= i < |fragments| ==>
                  && Offset(i, m) < |payload|
                  && fragments[i] == MakeFragment(hdr, payload, m, Offset(i, m)) && |fragments[i]| <= mtu
      decreases |payload| - offset
    {
      FragmentSize(hdr, payload, m, offset);
      OffsetStep(|fragments|, m);
      fragments := fragments + [MakeFragment(hdr, payload, m, offset)];
      offset := offset + m;
    }
  }

  lemma FragmentSize(hdr: seq<byte>, payload: seq<byte>, m: nat, off: nat)
    requires Datagram(hdr, payload) && off < |payload|
    ensures |MakeFragment(hdr, payload, m, off)| <= |hdr| + m
  {
    hide Stamp;
  }
}
