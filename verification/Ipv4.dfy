/** The IPv4 header fields that fragmentation reads and rewrites (section 3.1 of RFC 791). */
module Ipv4 {
  import opened Bytes
  import opened Checksum

  const MIN_HEADER: nat := 20
  const MAX_PAYLOAD: nat := 0xffff - MIN_HEADER

  function Word(b: seq<byte>, i: nat): (v: nat)
    requires i + 1 < |b|
    ensures v <= 65535
  {
    256 * (b[i] as int) + b[i + 1] as int
  }

  function PutWord(b: seq<byte>, i: nat, v: nat): (r: seq<byte>)
    requires i + 1 < |b| && v <= 65535
    ensures |r| == |b| && Word(r, i) == v
    ensures forall k :: 0 <= k < |b| && k != i && k != i + 1 ==> r[k] == b[k]
  {
    b[i := v / 256][i + 1 := v % 256]
  }

  function HeaderLength(h: seq<byte>): nat
    requires |h| >= MIN_HEADER
  {
    (h[0] as int % 16) * 4
  }

  function TotalLength(h: seq<byte>): nat
    requires |h| >= MIN_HEADER
  {
    Word(h, 2)
  }

  /** The 3-bit flags: more fragments is 1, don't fragment is 2. */
  function Flags(h: seq<byte>): (f: nat)
    requires |h| >= MIN_HEADER
    ensures f <= 7
  {
    Word(h, 6) / 8192
  }

  predicate More(h: seq<byte>)
    requires |h| >= MIN_HEADER
  {
    Flags(h) % 2 == 1
  }

  predicate DontFragment(h: seq<byte>)
    requires |h| >= MIN_HEADER
  {
    Flags(h) / 2 % 2 == 1
  }

  /** The fragment offset in 8-byte units. */
  function FragmentOffset(h: seq<byte>): (o: nat)
    requires |h| >= MIN_HEADER
    ensures o < 8192
  {
    Word(h, 6) % 8192
  }

  /** What identifies the datagram a fragment belongs to: addresses, identification and protocol. */
  datatype Key = Key(addrs: seq<byte>, id: seq<byte>, proto: byte)

  function KeyOf(h: seq<byte>): Key
    requires |h| >= MIN_HEADER
  {
    Key(h[12..20], h[4..6], h[9])
  }

  function SetTotalLength(b: seq<byte>, v: nat): (r: seq<byte>)
    requires |b| >= MIN_HEADER && v <= 65535
    ensures |r| == |b|
  {
    PutWord(b, 2, v)
  }

  function SetFlagsFragmentOffset(b: seq<byte>, flags: nat, offset: nat): (r: seq<byte>)
    requires |b| >= MIN_HEADER && flags <= 7
    ensures |r| == |b|
  {
    PutWord(b, 6, flags * 8192 + offset % 8192)
  }

  /** Clears the checksum field, then stores the checksum of the first `hdrLen` bytes in it. */
  function SetChecksum(b: seq<byte>, hdrLen: nat): (r: seq<byte>)
    requires MIN_HEADER <= hdrLen <= |b|
    ensures |r| == |b|
  {
    var z := PutWord(b, 10, 0);
    PutWord(z, 10, 65535 - Canon(Sum16(z[..hdrLen])))
  }

  /** The checksum over the header comes out as all ones. */
  predicate HeaderVerifies(h: seq<byte>) {
    Canon(Sum16(h)) == 65535
  }

  lemma ChecksumVerifies(b: seq<byte>, hdrLen: nat)
    requires MIN_HEADER <= hdrLen <= |b|
    ensures HeaderVerifies(SetChecksum(b, hdrLen)[..hdrLen])
  {
    hide Canon, Sum16;
    var z: seq<byte> := PutWord(b, 10, 0)[..hdrLen];
    StoredChecksumVerifies(z, 10, 0);
    var c := 65535 - Canon(0 + Sum16(z));
    var hi: byte, lo: byte := c / 256, c % 256;
    var stored: seq<byte> := z[10 := hi];
    assert SetChecksum(b, hdrLen)[..hdrLen] == stored[11 := lo];
  }

  /** Rewriting length, flags with offset, and checksum: the three fields that reassembly and fragmentation touch. */
  function Stamp(b: seq<byte>, hdrLen: nat, len: nat, flags: nat, offset: nat): (r: seq<byte>)
    requires MIN_HEADER <= hdrLen <= |b| && len <= 65535 && flags <= 7
    ensures |r| == |b|
  {
    SetChecksum(SetFlagsFragmentOffset(SetTotalLength(b, len), flags, offset), hdrLen)
  }

  /** Bytes that stamping leaves alone. */
  predicate Untouched(k: nat) {
    k != 2 && k != 3 && k != 6 && k != 7 && k != 10 && k != 11
  }

  lemma StampFields(b: seq<byte>, hdrLen: nat, len: nat, flags: nat, offset: nat)
    requires MIN_HEADER <= hdrLen <= |b| && len <= 65535 && flags <= 7
    ensures var r := Stamp(b, hdrLen, len, flags, offset);
            && TotalLength(r) == len && Word(r, 6) == flags * 8192 + offset % 8192
            && HeaderVerifies(r[..hdrLen])
            && (forall k :: 0 <= k < |b| && Untouched(k) ==> r[k] == b[k])
  {
    hide Canon, Sum16, HeaderVerifies, PutWord;
    var b1 := SetTotalLength(b, len);
    var b2 := SetFlagsFragmentOffset(b1, flags, offset);
    ChecksumVerifies(b2, hdrLen);
    assert b2[2] == b1[2] && b2[3] == b1[3];
  }

  /** Stamping depends only on the bytes it leaves alone. */
  lemma StampAgain(b: seq<byte>, b': seq<byte>, hdrLen: nat, len: nat, flags: nat, offset: nat)
    requires MIN_HEADER <= hdrLen <= |b| == |b'| && len <= 65535 && flags <= 7
    requires forall k :: 0 <= k < |b| && Untouched(k) ==> b'[k] == b[k]
    ensures Stamp(b', hdrLen, len, flags, offset) == Stamp(b, hdrLen, len, flags, offset)
  {
    hide Canon, Sum16;
    var c := SetFlagsFragmentOffset(SetTotalLength(b, len), flags, offset);
    var c' := SetFlagsFragmentOffset(SetTotalLength(b', len), flags, offset);
    forall k | 0 <= k < |b|
      ensures PutWord(c, 10, 0)[k] == PutWord(c', 10, 0)[k]
    {
    }
    assert PutWord(c, 10, 0) == PutWord(c', 10, 0);
  }

  lemma PutBack(b: seq<byte>, i: nat, v: nat)
    requires i + 1 < |b| && v <= 65535
    ensures PutWord(b, i, v) == b <==> v == Word(b, i)
  {
    assert PutWord(b, i, Word(b, i)) == b;
  }

  /** The stored checksum is the one that would be written exactly when it verifies and is not all ones. */
  lemma StoredIsComputed(b: seq<byte>, hdrLen: nat)
    requires MIN_HEADER <= hdrLen <= |b| && b[0] > 0
    ensures SetChecksum(b, hdrLen) == b <==> HeaderVerifies(b[..hdrLen]) && Word(b, 10) != 65535
  {
    hide Canon, Sum16;
    var z := PutWord(b, 10, 0);
    var w, s := Word(b, 10), Sum16(z[..hdrLen]);
    StoredWord(z[..hdrLen], 10, b[10], b[11]);
    assert z[..hdrLen][10 := b[10]][11 := b[11]] == b[..hdrLen];
    SumPositive(z[..hdrLen]);
    OnlyComplement(s, w);
    PutBack(b, 10, 65535 - Canon(s));
    assert PutWord(z, 10, 65535 - Canon(s)) == PutWord(b, 10, 65535 - Canon(s));
  }

  lemma SumPositive(b: seq<byte>)
    requires |b| >= 2 && b[0] > 0
    ensures Sum16(b) > 0
  {
  }

  lemma OnlyComplement(s: nat, w: nat)
    requires s > 0 && w <= 65535
    ensures w == 65535 - Canon(s) <==> Canon(s + w) == 65535 && w != 65535
  {
  }

  /** Rewriting length, flags and checksum of an unfragmented packet changes nothing exactly when they were right. */
  lemma StampFixes(b: seq<byte>, hdrLen: nat)
    requires MIN_HEADER <= hdrLen <= |b| <= 65535 && TotalLength(b) == |b| && b[0] > 0
    ensures Stamp(b, hdrLen, |b|, 0, 0) == b <==> Word(b, 6) == 0 && HeaderVerifies(b[..hdrLen]) && Word(b, 10) != 65535
  {
    hide Canon, Sum16, PutWord, HeaderVerifies, SetChecksum;
    PutBack(b, 2, |b|);
    PutBack(b, 6, 0);
    StampFields(b, hdrLen, |b|, 0, 0);
    StoredIsComputed(b, hdrLen);
  }
}
