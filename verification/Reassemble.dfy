/**
 Reassembling one IPv4 datagram from its fragments, as `process` does it for one fragment set:
 duplicate and overlap checks, completeness by sorting and walking, and assembly.
 */
module Reassemble {
  import opened Bytes
  import opened Checksum
  import opened Ipv4

  datatype Frag = Frag(offset: nat, data: seq<byte>) {
    function End(): nat {
      offset + |data|
    }
  }

  /** The fragments of one datagram so far; the header is empty until the first fragment arrives. */
  datatype FragSet = FragSet(createdAt: int, header: seq<byte>, fragments: seq<Frag>, totalLen: int, mem: nat)

  /** How a new range relates to the fragments already there. */
  datatype Clash = Free | Duplicate | Conflict

  function ClashWith(frags: seq<Frag>, off: nat, end: nat): Clash {
    if frags == [] then Free
    else if end <= frags[0].offset || frags[0].End() <= off then ClashWith(frags[1..], off, end)
    else if off == frags[0].offset && end == frags[0].End() then Duplicate
    else Conflict
  }

  /** The checking loop of `process`. */
  method CheckClash(frags: seq<Frag>, off: nat, end: nat) returns (c: Clash)
    ensures c == ClashWith(frags, off, end)
  {
    for i := 0 to |frags|
      invariant ClashWith(frags[i..], off, end) == ClashWith(frags, off, end)
    {
      assert frags[i..][1..] == frags[i + 1..];
      if end <= frags[i].offset || frags[i].End() <= off {
      } else if off == frags[i].offset && end == frags[i].End() {
        return Duplicate;
      } else {
        return Conflict;
      }
    }
    c := Free;
  }

  /** Sorting by offset: `sort.Slice` as an insertion sort. */
  function Insert(f: Frag, s: seq<Frag>): (r: seq<Frag>)
    ensures |r| == |s| + 1
  {
    if s == [] || f.offset <= s[0].offset then [f] + s else [s[0]] + Insert(f, s[1..])
  }

  function Sort(s: seq<Frag>): (r: seq<Frag>)
    ensures |r| == |s|
  {
    if s == [] then [] else Insert(s[0], Sort(s[1..]))
  }

  /** Whether the sorted fragments tile `[next, total)` from the front. */
  function Tiling(s: seq<Frag>, next: nat, total: int): bool {
    if s == [] || s[0].offset != next then false
    else if next + |s[0].data| == total then true
    else if next + |s[0].data| > total then false
    else Tiling(s[1..], next + |s[0].data|, total)
  }

  /** The walking loop of `complete`. */
  method Complete(s: seq<Frag>, total: int) returns (ok: bool)
    ensures ok == Tiling(s, 0, total)
  {
    var next: nat := 0;
    for i := 0 to |s|
      invariant Tiling(s[i..], next, total) == Tiling(s, 0, total)
    {
      assert s[i..][1..] == s[i + 1..];
      if s[i].offset != next {
        return false;
      }
      next := next + |s[i].data|;
      if next == total {
        return true;
      }
      if next > total {
        return false;
      }
    }
    ok := false;
  }

  /** `copy(raw[at:], data)`: as much as fits. */
  function Blit(raw: seq<byte>, at: nat, data: seq<byte>): (r: seq<byte>)
    requires at <= |raw|
    ensures |r| == |raw|
  {
    var n := Min(|data|, |raw| - at);
    raw[..at] + data[..n] + raw[at + n..]
  }

  /** No slice bound is exceeded while assembling: every fragment starts within the datagram. */
  predicate InBounds(frags: seq<Frag>, total: nat) {
    forall i :: 0 <= i < |frags| ==> frags[i].offset <= total
  }

  /** All fragments copied into place, one after the other. */
  function Overlay(raw: seq<byte>, frags: seq<Frag>): (r: seq<byte>)
    requires InBounds(frags, |raw|)
    ensures |r| == |raw|
    decreases |frags|
  {
    if frags == [] then raw else Overlay(Blit(raw, frags[0].offset, frags[0].data), frags[1..])
  }

  function Zeros(n: nat): (z: seq<byte>)
    ensures |z| == n
  {
    seq(n, _ => 0)
  }

  /** `assemble`: the first fragment's header over the payload, with length, flags and checksum redone. */
  function Assemble(header: seq<byte>, frags: seq<Frag>, total: nat): seq<byte>
    requires |header| >= MIN_HEADER && InBounds(frags, total)
  {
    var raw := header + Overlay(Zeros(total), frags);
    Stamp(raw, |header|, |raw| % 65536, 0, 0)
  }

  /** The length field of an assembled datagram is right exactly when header and payload fit in 16 bits. */
  lemma LengthIff(header: seq<byte>, frags: seq<Frag>, total: nat)
    requires |header| >= MIN_HEADER && InBounds(frags, total)
    ensures var r := Assemble(header, frags, total);
            |r| == |header| + total && (TotalLength(r) == |r| <==> |header| + total <= 65535)
  {
    hide Overlay, Stamp, TotalLength;
    var raw := header + Overlay(Zeros(total), frags);
    StampFields(raw, |header|, |raw| % 65536, 0, 0);
  }

  /** The copying loop of `assemble`. */
  method CopyAll(frags: seq<Frag>, total: nat) returns (raw: seq<byte>)
    requires InBounds(frags, total)
    ensures raw == Overlay(Zeros(total), frags)
  {
    hide Blit;
    raw := Zeros(total);
    for i := 0 to |frags|
      invariant |raw| == total && Overlay(raw, frags[i..]) == Overlay(Zeros(total), frags)
    {
      assert frags[i..][1..] == frags[i + 1..];
      raw := Blit(raw, frags[i].offset, frags[i].data);
    }
  }

  /** What becomes of a set when a fragment arrives. */
  datatype Verdict =
    | Same                      // an exact duplicate
    | Discard                   // overlap, or a second and different end: the set is dropped
    | Keep(kept: FragSet)       // stored, more to come
    | Finish(pkt: seq<byte>)    // complete: the datagram
    | OutOfRange(kept: FragSet) // complete, but some fragment starts beyond the end: a slice out of range

  function Feed(s: FragSet, hdr: seq<byte>, data: seq<byte>, off: nat, more: bool): Verdict
    requires |hdr| >= MIN_HEADER && (s.header == [] || |s.header| >= MIN_HEADER)
  {
    var end := off + |data|;
    match ClashWith(s.fragments, off, end)
    case Duplicate => Same
    case Conflict => Discard
    case Free =>
      if !more && s.totalLen >= 0 && s.totalLen != end then Discard
      else
        var header := if off == 0 then hdr else s.header;
        var total := if more then s.totalLen else end;
        var frags := s.fragments + [Frag(off, data)];
        var kept := FragSet(s.createdAt, header, frags, total, s.mem + |data|);
        if total < 0 || header == [] then Keep(kept)
        else if !Tiling(Sort(frags), 0, total) then Keep(kept.(fragments := Sort(frags)))
        else if !InBounds(Sort(frags), total) then OutOfRange(kept.(fragments := Sort(frags)))
        else Finish(Assemble(header, Sort(frags), total))
  }
}
