/** Coalescing TCP packets of one flow (`tcpGRO`, IPv4). */
module Gro {
  import opened Bytes
  import opened SeqNum
  import opened Checksum
  import opened Ipv4
  import opened Fragment
  import opened Gso

  /** IPv4 packets with options are never candidates. */
  const IP_HEADER: nat := 20

  /** One original packet: its headers, where its payload starts in the stream, the payload, and whether it was pushed. */
  datatype Part = Part(hdr: seq<byte>, sn: u32, data: seq<byte>, psh: bool)

  /** What makes packets one flow: addresses, ports and the acknowledgement number. */
  datatype FlowKey = FlowKey(addrs: seq<byte>, ports: seq<byte>, ack: seq<byte>)

  function KeyFor(pkt: seq<byte>): FlowKey
    requires |pkt| >= 40
  {
    FlowKey(pkt[12..20], pkt[20..24], pkt[28..32])
  }

  datatype Item = Item(sentSeq: u32, bufsIndex: nat, numMerged: nat, gsoSize: nat, tcphLen: nat, pshSet: bool)

  /** A packet in its buffer, and how long the code lets it become there. */
  datatype Buffer = Buffer(bytes: seq<byte>, room: nat)

  datatype Mode = Prepend | Unavailable | Append

  predicate IpHeadersMatch(a: seq<byte>, b: seq<byte>)
    requires |a| >= IP_HEADER && |b| >= IP_HEADER
  {
    a[1] == b[1] && a[6] / 32 == b[6] / 32 && a[8] == b[8]
  }

  /** How far the item reaches, in the 16-bit arithmetic of the code. */
  function LhsLen(item: Item): nat {
    (item.gsoSize + item.numMerged * item.gsoSize % 65536) % 65536
  }

  /** `tcpPacketsCanCoalesce`. */
  function CanCoalesce(pkt: seq<byte>, tcphLen: nat, sn: u32, psh: bool, g: nat, item: Item, target: seq<byte>): Mode
    requires 20 <= tcphLen && IP_HEADER + tcphLen <= |pkt| && item.gsoSize > 0
    requires 20 <= item.tcphLen && IP_HEADER + item.tcphLen <= |target|
  {
    if tcphLen != item.tcphLen || pkt[40..IP_HEADER + tcphLen] != target[40..IP_HEADER + tcphLen] then Unavailable
    else if !IpHeadersMatch(pkt, target) then Unavailable
    else if sn == Add(item.sentSeq, LhsLen(item)) then
      if item.pshSet || (|target| - IP_HEADER - tcphLen) % item.gsoSize != 0 || g > item.gsoSize then Unavailable
      else Append
    else if Add(sn, g) == item.sentSeq then
      if psh || g < item.gsoSize || (g > item.gsoSize && item.numMerged > 0) then Unavailable
      else Prepend
    else Unavailable
  }

  ghost function Datas(parts: seq<Part>): (d: seq<seq<byte>>)
    ensures |d| == |parts|
  {
    seq(|parts|, k requires 0 <= k < |parts| => parts[k].data)
  }

  /** Every part sits a whole number of segment sizes after the first. */
  ghost predicate InSequence(sentSeq: u32, g: nat, parts: seq<Part>) {
    forall k :: 0 <= k < |parts| ==> parts[k].sn == Add(sentSeq, Offset(k, g))
  }

  /**
   A coalesced packet: cutting its payload at the item's segment size gives back the payloads of the
   packets merged into it, in order and at their sequence numbers. Only the last may have been pushed.
   */
  ghost predicate Merged(item: Item, bytes: seq<byte>, parts: seq<Part>) {
    && |parts| == item.numMerged + 1 && 0 < item.gsoSize <= 65535 && 20 <= item.tcphLen
    && IP_HEADER + item.tcphLen <= |bytes| <= 65535
    && var payload := bytes[IP_HEADER + item.tcphLen..];
    && CutAt(payload, item.gsoSize, Datas(parts)) && |payload| <= Offset(|parts|, item.gsoSize)
    && InSequence(item.sentSeq, item.gsoSize, parts) && Word32(bytes, IP_HEADER + 4) == item.sentSeq
    && OnlyLastPushed(parts, item.pshSet)
  }

  ghost predicate OnlyLastPushed(parts: seq<Part>, pushed: bool) {
    forall k :: 0 <= k < |parts| ==> parts[k].psh == (k == |parts| - 1 && pushed)
  }

  /** A multiple of `g` after the start of piece `n - 1` and not after its end is its end. */
  lemma MultipleIsEnd(len: nat, g: nat, n: nat)
    requires g > 0 && n > 0 && Offset(n - 1, g) < len <= Offset(n, g) && len % g == 0
    ensures len == Offset(n, g)
  {
    var q := len / g;
    assert len == q * g;
    assert q >= n + 1 ==> q * g >= (n + 1) * g;
    assert q <= n - 1 ==> q * g <= (n - 1) * g;
  }

  /** The 16-bit reach is the payload length of a packet without a short part exactly when that fits in 16 bits. */
  lemma ReachExactIff(item: Item)
    requires item.gsoSize <= 65535
    ensures LhsLen(item) == Offset(item.numMerged + 1, item.gsoSize) <==> Offset(item.numMerged + 1, item.gsoSize) < 65536
  {
    var g, m := item.gsoSize, item.numMerged * item.gsoSize;
    assert Offset(item.numMerged + 1, g) == m + g;
    if m + g < 65536 {
      assert m % 65536 == m;
    }
  }

  /** An append is never wrong: the packet starts exactly where the item's payload ends. */
  lemma AppendIsAdjacent(pkt: seq<byte>, tcphLen: nat, sn: u32, psh: bool, g: nat,
                         item: Item, target: seq<byte>, parts: seq<Part>)
    requires 20 <= tcphLen && IP_HEADER + tcphLen <= |pkt| && Merged(item, target, parts)
    requires CanCoalesce(pkt, tcphLen, sn, psh, g, item, target) == Append
    ensures var len := |target| - IP_HEADER - tcphLen;
            && len == Offset(|parts|, item.gsoSize) && sn == Add(item.sentSeq, len)
            && g <= item.gsoSize && tcphLen == item.tcphLen && !item.pshSet
  {
    hide Offset, LhsLen, InSequence;
    var last := |parts| - 1;
    assert Datas(parts)[last] == parts[last].data;
    MultipleIsEnd(|target| - IP_HEADER - tcphLen, item.gsoSize, |parts|);
    ReachExactIff(item);
  }

  lemma PrependMeans(pkt: seq<byte>, tcphLen: nat, sn: u32, psh: bool, g: nat, item: Item, target: seq<byte>,
                     parts: seq<Part>)
    requires 20 <= tcphLen && IP_HEADER + tcphLen <= |pkt| && Merged(item, target, parts)
    requires CanCoalesce(pkt, tcphLen, sn, psh, g, item, target) == Prepend
    ensures tcphLen == item.tcphLen && !psh && Add(sn, g) == item.sentSeq
    ensures g == item.gsoSize || (item.numMerged == 0 && item.gsoSize < g)
  {
  }

  /** The header with the PSH flag set. */
  function WithPsh(bytes: seq<byte>): (r: seq<byte>)
    requires |bytes| >= 40
    ensures |r| == |bytes| && forall k :: 0 <= k < |r| && k != IP_HEADER + FLAGS_AT ==> r[k] == bytes[k]
  {
    var f := bytes[IP_HEADER + FLAGS_AT] as int;
    bytes[IP_HEADER + FLAGS_AT := if f / 8 % 2 == 1 then f else f + 8]
  }

  /** One more piece behind a payload without a short piece. */
  lemma CutAppend(payload: seq<byte>, g: nat, pieces: seq<seq<byte>>, data: seq<byte>)
    requires CutAt(payload, g, pieces) && |payload| == Offset(|pieces|, g) && 0 < |data| <= g
    ensures CutAt(payload + data, g, pieces + [data]) && |payload + data| <= Offset(|pieces| + 1, g)
  {
    hide Offset;
    OffsetStep(|pieces|, g);
    var p := payload + data;
    forall k | 0 <= k < |pieces| + 1
      ensures Offset(k, g) < |p| && (pieces + [data])[k] == p[Offset(k, g)..Min(Offset(k, g) + g, |p|)]
    {
      if k < |pieces| {
        OffsetStep(k, g);
        OffsetOrder(k + 1, |pieces|, g);
      }
    }
  }

  /** One more full piece in front. */
  lemma CutPrepend(payload: seq<byte>, g: nat, pieces: seq<seq<byte>>, data: seq<byte>)
    requires CutAt(payload, g, pieces) && |payload| <= Offset(|pieces|, g) && 0 < |data| == g
    ensures CutAt(data + payload, g, [data] + pieces) && |data + payload| <= Offset(|pieces| + 1, g)
  {
    hide Offset, CutAt;
    OffsetStep(|pieces|, g);
    OffsetStep(0, g);
    var p := data + payload;
    forall k | 0 <= k < |pieces| + 1
      ensures Offset(k, g) < |p| && ([data] + pieces)[k] == p[Offset(k, g)..Min(Offset(k, g) + g, |p|)]
    {
      if k == 0 {
        assert p[..g] == data;
      } else {
        OffsetStep(k - 1, g);
        PieceCut(payload, g, pieces, k - 1);
        var lo := Offset(k - 1, g);
        ShiftedSlice(data, payload, lo, Min(lo + g, |payload|));
      }
    }
    AllCutAt(p, g, [data] + pieces);
  }

  lemma PieceCut(payload: seq<byte>, g: nat, pieces: seq<seq<byte>>, k: nat)
    requires CutAt(payload, g, pieces) && k < |pieces|
    ensures Offset(k, g) < |payload| && pieces[k] == payload[Offset(k, g)..Min(Offset(k, g) + g, |payload|)]
  {
    hide Offset;
  }

  lemma AllCutAt(payload: seq<byte>, g: nat, pieces: seq<seq<byte>>)
    requires forall k :: 0 <= k < |pieces| ==>
               Offset(k, g) < |payload| && pieces[k] == payload[Offset(k, g)..Min(Offset(k, g) + g, |payload|)]
    ensures CutAt(payload, g, pieces)
  {
    hide Offset;
  }

  lemma ShiftedSlice(front: seq<byte>, s: seq<byte>, lo: nat, hi: nat)
    requires lo <= hi <= |s|
    ensures (front + s)[|front| + lo..|front| + hi] == s[lo..hi]
  {
  }

  /** What appending a packet leaves of the item and of its packet. */
  lemma AppendMerges(item: Item, target: seq<byte>, parts: seq<Part>, item': Item, bytes': seq<byte>, part: Part)
    requires Merged(item, target, parts) && |target| + |part.data| <= 65535 && 0 < |part.data| <= item.gsoSize
    requires |target| - IP_HEADER - item.tcphLen == Offset(|parts|, item.gsoSize)
    requires part.sn == Add(item.sentSeq, |target| - IP_HEADER - item.tcphLen)
    requires bytes' == target + part.data || bytes' == WithPsh(target) + part.data
    requires item'.sentSeq == item.sentSeq && item'.gsoSize == item.gsoSize && item'.tcphLen == item.tcphLen
    requires item'.numMerged == item.numMerged + 1 && !item.pshSet && item'.pshSet == part.psh
    ensures Merged(item', bytes', parts + [part])
  {
    hide Offset, WithPsh, CutAt, Word32;
    SameWord32(target, bytes', IP_HEADER + 4);
    var h := IP_HEADER + item.tcphLen;
    CutAppend(target[h..], item.gsoSize, Datas(parts), part.data);
    assert bytes'[h..] == target[h..] + part.data;
    assert Datas(parts + [part]) == Datas(parts) + [part.data];
  }

  lemma AddTwice(a: u32, b: nat, c: nat)
    ensures Add(Add(a, b), c) == Add(a, b + c)
  {
    WrapDistributes(a + b, c);
  }

  /** A single part may be cut at any size that holds it. */
  lemma Widen(item: Item, target: seq<byte>, parts: seq<Part>, g: nat)
    requires Merged(item, target, parts) && (g == item.gsoSize || (item.numMerged == 0 && item.gsoSize < g))
    ensures var payload := target[IP_HEADER + item.tcphLen..];
            CutAt(payload, g, Datas(parts)) && |payload| <= Offset(|parts|, g) && InSequence(item.sentSeq, g, parts)
  {
    hide Offset;
    if g != item.gsoSize {
      OffsetStep(0, g);
      OffsetStep(0, item.gsoSize);
      assert Datas(parts)[0] == parts[0].data;
    }
  }

  /** What prepending a packet leaves of the item and of its packet. */
  lemma PrependMerges(item: Item, target: seq<byte>, parts: seq<Part>, item': Item, bytes': seq<byte>, part: Part)
    requires Merged(item, target, parts)
    requires var g := |part.data|;
             && 0 < g && (g == item.gsoSize || (item.numMerged == 0 && item.gsoSize < g))
             && Add(part.sn, g) == item.sentSeq && item'.gsoSize == g
    requires item'.sentSeq == part.sn && item'.tcphLen == item.tcphLen && item'.numMerged == item.numMerged + 1
    requires item'.pshSet == item.pshSet && !part.psh
    requires IP_HEADER + item.tcphLen + |part.data| <= |bytes'| <= 65535 && Word32(bytes', IP_HEADER + 4) == part.sn
    requires bytes'[IP_HEADER + item.tcphLen..] == part.data + target[IP_HEADER + item.tcphLen..]
    ensures Merged(item', bytes', [part] + parts)
  {
    hide Offset, CutAt, Word32;
    var h, g := IP_HEADER + item.tcphLen, |part.data|;
    Widen(item, target, parts, g);
    CutPrepend(target[h..], g, Datas(parts), part.data);
    assert Datas([part] + parts) == [part.data] + Datas(parts);
    var all := [part] + parts;
    forall k | 0 <= k < |all|
      ensures all[k].sn == Add(part.sn, Offset(k, g))
    {
      OffsetStep(0, g);
      if k > 0 {
        OffsetStep(k - 1, g);
        AddTwice(part.sn, g, Offset(k - 1, g));
      }
    }
  }

  // ----- The flow's items and their buffers -----

  datatype CoalesceResult = InsufficientCap | PshEnding | ItemInvalidChecksum | PacketInvalidChecksum | Success

  /** `checksumValid`. */
  predicate ChecksumValid(pkt: seq<byte>)
    requires IP_HEADER <= |pkt| <= 65535
  {
    Canon(Sum16(PseudoHeader(TCP_PROTOCOL, pkt[12..16], pkt[16..20], |pkt| - IP_HEADER)) + Sum16(pkt[IP_HEADER..])) == 65535
  }

  // ----- Headers -----

  /** Headers as candidates of one flow have them. */
  ghost predicate Plain(key: FlowKey, b: seq<byte>) {
    && |b| >= 40 && b[0] == 0x45 && b[6] % 64 == 0 && b[7] == 0 && b[9] == TCP_PROTOCOL && KeyFor(b) == key
    && (b[IP_HEADER + FLAGS_AT] == 0x10 || b[IP_HEADER + FLAGS_AT] == 0x18)
  }

  /** The PSH flag beside ACK. */
  predicate Pushed(b: seq<byte>) {
    |b| >= 40 && b[IP_HEADER + FLAGS_AT] == 0x18
  }

  /** Header bytes that all merged packets share: all but length, identification, numbers, flags, window and checksums. */
  predicate Shared(k: nat, h: nat) {
    k < h && (k < 2 || 6 <= k < 10 || 12 <= k < 24 || 28 <= k < 32 || 40 <= k)
  }

  ghost predicate Alike(a: seq<byte>, b: seq<byte>, h: nat) {
    h <= |a| && h <= |b| && forall k: nat :: Shared(k, h) ==> a[k] == b[k]
  }

  /** The headers of a merged packet are those of every part as far as they are shared; PSH in them means a pushed part. */
  ghost predicate Headed(key: FlowKey, item: Item, bytes: seq<byte>, parts: seq<Part>) {
    && Plain(key, bytes) && IP_HEADER + item.tcphLen <= |bytes| && (Pushed(bytes) ==> item.pshSet)
    && forall k :: 0 <= k < |parts| ==>
         |parts[k].hdr| == IP_HEADER + item.tcphLen && Alike(bytes, parts[k].hdr, IP_HEADER + item.tcphLen)
  }

  lemma HeadedPlain(key: FlowKey, item: Item, bytes: seq<byte>, parts: seq<Part>)
    requires Headed(key, item, bytes, parts)
    ensures Plain(key, bytes)
  {
  }

  /** Packets that may be merged have the same shared header bytes. */
  lemma CoalesceAlike(key: FlowKey, pkt: seq<byte>, tcphLen: nat, sn: u32, psh: bool, g: nat, item: Item,
                      target: seq<byte>)
    requires 20 <= tcphLen && IP_HEADER + tcphLen <= |pkt| && item.gsoSize > 0
    requires 20 <= item.tcphLen && IP_HEADER + item.tcphLen <= |target| && Plain(key, pkt) && Plain(key, target)
    requires CanCoalesce(pkt, tcphLen, sn, psh, g, item, target) != Unavailable
    ensures tcphLen == item.tcphLen && Alike(pkt, target, IP_HEADER + tcphLen)
  {
    hide LhsLen, Add;
    var h := IP_HEADER + tcphLen;
    assert pkt[40..h] == target[40..h] && pkt[12..20] == target[12..20];
    assert pkt[20..24] == target[20..24] && pkt[28..32] == target[28..32];
    SameFrom(pkt, target, 12, 20);
    SameFrom(pkt, target, 20, 24);
    SameFrom(pkt, target, 28, 32);
    SameFrom(pkt, target, 40, h);
    assert pkt[6] == target[6];
  }

  lemma SameFrom(a: seq<byte>, b: seq<byte>, lo: nat, hi: nat)
    requires lo <= hi <= |a| && hi <= |b| && a[lo..hi] == b[lo..hi]
    ensures forall k :: lo <= k < hi ==> a[k] == b[k]
  {
    forall k | lo <= k < hi
      ensures a[k] == b[k]
    {
      assert a[lo..hi][k - lo] == b[lo..hi][k - lo];
    }
  }

  lemma AlikeFront(a: seq<byte>, b: seq<byte>, h: nat)
    requires Alike(a, b, h)
    ensures Alike(a[..h], b, h)
  {
  }

  lemma AppendHeaded(key: FlowKey, item: Item, target: seq<byte>, parts: seq<Part>, item': Item, bytes': seq<byte>,
                     part: Part)
    requires Headed(key, item, target, parts) && 20 <= item.tcphLen == item'.tcphLen && !item.pshSet
    requires item'.pshSet == part.psh
    requires |part.hdr| == IP_HEADER + item.tcphLen && Alike(part.hdr, target, IP_HEADER + item.tcphLen)
    requires bytes' == (if part.psh then WithPsh(target) else target) + part.data
    ensures Headed(key, item', bytes', parts + [part]) && (part.psh ==> Pushed(bytes'))
  {
    var b := if part.psh then WithPsh(target) else target;
    assert forall k :: 0 <= k < |target| ==> bytes'[k] == b[k];
    assert bytes'[12..20] == target[12..20] && bytes'[20..24] == target[20..24] && bytes'[28..32] == target[28..32];
  }

  lemma PrependHeaded(key: FlowKey, item: Item, target: seq<byte>, parts: seq<Part>, item': Item, pkt: seq<byte>,
                      bytes': seq<byte>, part: Part)
    requires Headed(key, item, target, parts) && 20 <= item.tcphLen == item'.tcphLen && item'.pshSet == item.pshSet
    requires Plain(key, pkt) && !Pushed(pkt) && IP_HEADER + item.tcphLen <= |pkt| <= |bytes'|
    requires part.hdr == pkt[..IP_HEADER + item.tcphLen] && Alike(pkt, target, IP_HEADER + item.tcphLen)
    requires bytes'[..|pkt|] == pkt
    ensures Headed(key, item', bytes', [part] + parts) && !Pushed(bytes')
  {
    assert forall k :: 0 <= k < |pkt| ==> bytes'[k] == pkt[k];
    assert bytes'[12..20] == pkt[12..20] && bytes'[20..24] == pkt[20..24] && bytes'[28..32] == pkt[28..32];
    var all := [part] + parts;
    forall k | 0 <= k < |all|
      ensures |all[k].hdr| == IP_HEADER + item.tcphLen && Alike(bytes', all[k].hdr, IP_HEADER + item.tcphLen)
    {
      assert k > 0 ==> all[k] == parts[k - 1];
    }
  }

  /** An item and its packet: payload and headers. */
  ghost predicate Described(key: FlowKey, item: Item, bytes: seq<byte>, parts: seq<Part>) {
    Merged(item, bytes, parts) && Headed(key, item, bytes, parts)
  }

  /** The packet as a part. */
  ghost function PartAt(pkt: seq<byte>, tcphLen: nat, sn: u32, psh: bool): Part
    requires IP_HEADER + tcphLen <= |pkt|
  {
    Part(pkt[..IP_HEADER + tcphLen], sn, pkt[IP_HEADER + tcphLen..], psh)
  }

  /** Each item describes the packet in its buffer, no two items share one, and no buffer takes more than 65535 bytes. */
  ghost predicate ItemsOk(key: FlowKey, bufs: seq<Buffer>, items: seq<Item>, parts: seq<seq<Part>>) {
    && |parts| == |items|
    && (forall b :: 0 <= b < |bufs| ==> bufs[b].room <= 65535)
    && (forall i :: 0 <= i < |items| ==>
          items[i].bufsIndex < |bufs| && Described(key, items[i], bufs[items[i].bufsIndex].bytes, parts[i]))
    && (forall i, j :: 0 <= i < j < |items| ==> items[i].bufsIndex != items[j].bufsIndex)
  }

  ghost predicate Unused(items: seq<Item>, b: nat) {
    forall i :: 0 <= i < |items| ==> items[i].bufsIndex != b
  }

  lemma UpdateOk(key: FlowKey, bufs: seq<Buffer>, items: seq<Item>, parts: seq<seq<Part>>, i: nat, pktI: nat,
                 bufs': seq<Buffer>, item': Item, parts': seq<Part>)
    requires ItemsOk(key, bufs, items, parts) && i < |items| && item'.bufsIndex == items[i].bufsIndex && Unused(items, pktI)
    requires |bufs'| == |bufs| && forall b :: 0 <= b < |bufs| ==> bufs'[b].room <= 65535
    requires forall b :: 0 <= b < |bufs| && b != item'.bufsIndex && b != pktI ==> bufs'[b] == bufs[b]
    requires Described(key, item', bufs'[item'.bufsIndex].bytes, parts')
    ensures ItemsOk(key, bufs', items[i := item'], parts[i := parts'])
  {
    hide Described;
  }

  /** The merge counter cannot wrap. */
  lemma CountFits(item: Item, bytes: seq<byte>, parts: seq<Part>)
    requires Merged(item, bytes, parts)
    ensures item.numMerged < 65535
  {
    hide Offset, InSequence;
    var last := |parts| - 1;
    assert Datas(parts)[last] == parts[last].data;
    OffsetAtLeast(last, item.gsoSize);
  }

  datatype GroResult = Noop | TableInsert | Coalesced

  function TcpHeaderLength(pkt: seq<byte>): nat
    requires |pkt| >= 40
  {
    pkt[IP_HEADER + 12] as int / 16 * 4
  }

  /** IPv4 without options, TCP, whole, unfragmented, with payload, and no flags but ACK and perhaps PSH. */
  predicate Candidate(pkt: seq<byte>)
    requires |pkt| >= 40
  {
    && |pkt| <= 65535 && TotalLength(pkt) == |pkt| && pkt[0] == 0x45 && pkt[9] == TCP_PROTOCOL
    && 20 <= TcpHeaderLength(pkt) <= 60 && IP_HEADER + TcpHeaderLength(pkt) < |pkt|
    && pkt[6] % 64 == 0 && pkt[7] == 0
    && (pkt[IP_HEADER + FLAGS_AT] == 0x10 || pkt[IP_HEADER + FLAGS_AT] == 0x18)
  }

  /** What a packet contributes. */
  function PartOf(pkt: seq<byte>): Part
    requires |pkt| >= 40 && Candidate(pkt)
  {
    var h := IP_HEADER + TcpHeaderLength(pkt);
    Part(pkt[..h], Word32(pkt, IP_HEADER + 4), pkt[h..], pkt[IP_HEADER + FLAGS_AT] == 0x18)
  }

  /** Every part held, over all items. */
  ghost function All(parts: seq<seq<Part>>): multiset<Part> {
    if parts == [] then multiset{} else multiset(parts[0]) + All(parts[1..])
  }

  lemma {:induction false} AllJoin(a: seq<seq<Part>>, b: seq<seq<Part>>)
    ensures All(a + b) == All(a) + All(b)
  {
    if a == [] {
      assert a + b == b;
    } else {
      assert (a + b)[0] == a[0] && (a + b)[1..] == a[1..] + b;
      AllJoin(a[1..], b);
    }
  }

  lemma AllSplit(parts: seq<seq<Part>>, i: nat)
    requires i < |parts|
    ensures All(parts) == All(parts[..i]) + multiset(parts[i]) + All(parts[i + 1..])
  {
    assert parts == parts[..i] + parts[i..] && parts[i..][0] == parts[i] && parts[i..][1..] == parts[i + 1..];
    AllJoin(parts[..i], parts[i..]);
  }

  lemma AllReplace(parts: seq<seq<Part>>, i: nat, q: seq<Part>, p: Part)
    requires i < |parts| && multiset(q) == multiset(parts[i]) + multiset{p}
    ensures All(parts[i := q]) == All(parts) + multiset{p}
  {
    AllSplit(parts, i);
    AllSplit(parts[i := q], i);
    assert parts[i := q][..i] == parts[..i] && parts[i := q][i + 1..] == parts[i + 1..];
  }

  lemma AllDelete(parts: seq<seq<Part>>, i: nat)
    requires i < |parts|
    ensures All(parts) == All(parts[..i] + parts[i + 1..]) + multiset(parts[i])
  {
    AllSplit(parts, i);
    AllJoin(parts[..i], parts[i + 1..]);
  }

  lemma AllPush(parts: seq<seq<Part>>, q: seq<Part>)
    ensures All(parts + [q]) == All(parts) + multiset(q)
  {
    AllJoin(parts, [q]);
    assert [q][1..] == [];
  }

  lemma DeleteOk(key: FlowKey, bufs: seq<Buffer>, items: seq<Item>, parts: seq<seq<Part>>, i: nat)
    requires ItemsOk(key, bufs, items, parts) && i < |items|
    ensures ItemsOk(key, bufs, items[..i] + items[i + 1..], parts[..i] + parts[i + 1..])
  {
    hide Described;
  }

  lemma InsertOk(key: FlowKey, bufs: seq<Buffer>, items: seq<Item>, parts: seq<seq<Part>>, item: Item, q: seq<Part>)
    requires ItemsOk(key, bufs, items, parts) && Unused(items, item.bufsIndex) && item.bufsIndex < |bufs|
    requires Described(key, item, bufs[item.bufsIndex].bytes, q)
    ensures ItemsOk(key, bufs, items + [item], parts + [q])
  {
    hide Described;
  }

  lemma HeadersFit(item: Item, bytes: seq<byte>, parts: seq<Part>)
    requires Merged(item, bytes, parts)
    ensures item.gsoSize > 0 && 20 <= item.tcphLen && IP_HEADER + item.tcphLen <= |bytes| <= 65535
    ensures |parts| == item.numMerged + 1
  {
  }

  /** A packet on its own. */
  lemma SingleMerged(item: Item, bytes: seq<byte>, part: Part)
    requires 20 <= item.tcphLen && IP_HEADER + item.tcphLen < |bytes| <= 65535 && item.numMerged == 0
    requires Word32(bytes, IP_HEADER + 4) == item.sentSeq
    requires part.sn == item.sentSeq && part.data == bytes[IP_HEADER + item.tcphLen..] && part.psh == item.pshSet
    requires item.gsoSize == |part.data|
    ensures Merged(item, bytes, [part])
  {
    hide Offset;
    OffsetStep(0, item.gsoSize);
    assert Datas([part]) == [part.data];
  }

  lemma NoneDropped(parts: seq<seq<Part>>)
    ensures All(parts) + All([]) == All(parts)
  {
  }

  lemma CandidateFields(pkt: seq<byte>)
    requires |pkt| >= 40 && Candidate(pkt)
    ensures Plain(KeyFor(pkt), pkt)
    ensures |pkt| <= 65535 && 20 <= TcpHeaderLength(pkt) <= 60 && IP_HEADER + TcpHeaderLength(pkt) < |pkt|
  {
  }

  lemma PushedFlag(pkt: seq<byte>)
    requires |pkt| >= 40 && Candidate(pkt)
    ensures Pushed(pkt) == (pkt[IP_HEADER + FLAGS_AT] != 0x10)
    ensures PartOf(pkt) == PartAt(pkt, TcpHeaderLength(pkt), Word32(pkt, IP_HEADER + 4), Pushed(pkt))
  {
    hide Word32;
  }

  lemma SameCount(key: FlowKey, bufs: seq<Buffer>, items: seq<Item>, parts: seq<seq<Part>>, i: nat)
    requires ItemsOk(key, bufs, items, parts) && i < |items|
    ensures |parts| == |items| && |parts[i]| == items[i].numMerged + 1
  {
  }

  /** Either way of merging adds the one part. */
  lemma Merging(before: seq<seq<Part>>, i: nat, after: seq<seq<Part>>, part: Part)
    requires i < |before| && (after == before[i := before[i] + [part]] || after == before[i := [part] + before[i]])
    ensures All(after) == All(before) + multiset{part}
  {
    AllReplace(before, i, after[i], part);
  }

  lemma SingleHeaded(key: FlowKey, item: Item, bytes: seq<byte>, part: Part)
    requires Plain(key, bytes) && IP_HEADER + item.tcphLen <= |bytes| && part.hdr == bytes[..IP_HEADER + item.tcphLen]
    requires item.pshSet == Pushed(bytes)
    ensures Headed(key, item, bytes, [part])
  {
  }

  /** The merged packet fits the buffer it is built in. */
  ghost predicate Fits(mode: Mode, pkt: Buffer, item: Item, target: Buffer) {
    |target.bytes| + |pkt.bytes| - IP_HEADER - item.tcphLen <= if mode == Append then target.room else pkt.room
  }

  /** The checksum of the item's packet is right, or was when it was first merged. */
  ghost predicate Checked(item: Item, bytes: seq<byte>) {
    item.numMerged > 0 || (IP_HEADER <= |bytes| <= 65535 && ChecksumValid(bytes))
  }

  /** The item takes the packet if the packet's own checksum is right: adjacent and alike, with room, and checked. */
  ghost predicate Ready(pkt: Buffer, tcphLen: nat, sn: u32, psh: bool, item: Item, target: Buffer) {
    && 20 <= tcphLen && IP_HEADER + tcphLen <= |pkt.bytes| && item.gsoSize > 0
    && 20 <= item.tcphLen && IP_HEADER + item.tcphLen <= |target.bytes|
    && var mode := CanCoalesce(pkt.bytes, tcphLen, sn, psh, |pkt.bytes| - IP_HEADER - tcphLen, item, target.bytes);
       mode != Unavailable && Fits(mode, pkt, item, target) && Checked(item, target.bytes)
  }

  /** Item `j` is ready for the packet in buffer `b`. */
  ghost predicate ReadyAt(bufs: seq<Buffer>, b: nat, tcphLen: nat, sn: u32, psh: bool, items: seq<Item>, j: nat) {
    && b < |bufs| && j < |items| && items[j].bufsIndex < |bufs|
    && Ready(bufs[b], tcphLen, sn, psh, items[j], bufs[items[j].bufsIndex])
  }

  lemma ReadySame(bufs: seq<Buffer>, b: nat, tcphLen: nat, sn: u32, psh: bool, items: seq<Item>, items': seq<Item>,
                  j: nat)
    requires j < |items| && j < |items'| && items[j] == items'[j]
    ensures ReadyAt(bufs, b, tcphLen, sn, psh, items, j) == ReadyAt(bufs, b, tcphLen, sn, psh, items', j)
  {
  }

  lemma PrependNotPushed(pkt: seq<byte>, tcphLen: nat, sn: u32, psh: bool, g: nat, item: Item, target: seq<byte>)
    requires 20 <= tcphLen && IP_HEADER + tcphLen <= |pkt| && item.gsoSize > 0
    requires 20 <= item.tcphLen && IP_HEADER + item.tcphLen <= |target|
    requires CanCoalesce(pkt, tcphLen, sn, psh, g, item, target) == Prepend
    ensures !psh
  {
  }

  class Flow {
    const key: FlowKey
    var bufs: seq<Buffer>
    var items: seq<Item>
    ghost var parts: seq<seq<Part>>

    ghost predicate Valid()
      reads this
    {
      ItemsOk(key, bufs, items, parts)
    }

    /** A flow with no packets yet, over the buffers of one batch. */
    constructor (key: FlowKey, bufs: seq<Buffer>)
      requires forall b :: 0 <= b < |bufs| ==> bufs[b].room <= 65535
      ensures Valid() && this.key == key && this.bufs == bufs && items == [] && parts == []
    {
      this.key, this.bufs := key, bufs;
      items, parts := [], [];
    }

    /** `coalesceTCPPackets`, appending. */
    method CoalesceAppend(pktI: nat, i: nat, tcphLen: nat, sn: u32, psh: bool) returns (res: CoalesceResult)
      requires Valid() && i < |items| && pktI < |bufs| && Unused(items, pktI)
      requires 20 <= tcphLen && IP_HEADER + tcphLen < |bufs[pktI].bytes| <= 65535
      requires Word32(bufs[pktI].bytes, IP_HEADER + 4) == sn
      requires Plain(key, bufs[pktI].bytes) && psh == Pushed(bufs[pktI].bytes)
      requires CanCoalesce(bufs[pktI].bytes, tcphLen, sn, psh, |bufs[pktI].bytes| - IP_HEADER - tcphLen,
                           items[i], bufs[items[i].bufsIndex].bytes) == Append
      modifies this
      ensures Valid() && |bufs| == old(|bufs|)
      ensures res == InsufficientCap <==> old(!Fits(Append, bufs[pktI], items[i], bufs[items[i].bufsIndex]))
      ensures res != InsufficientCap ==>
                (res == ItemInvalidChecksum <==> old(!Checked(items[i], bufs[items[i].bufsIndex].bytes)))
      ensures res != InsufficientCap && res != ItemInvalidChecksum ==>
                res == if old(ChecksumValid(bufs[pktI].bytes)) then Success else PacketInvalidChecksum
      ensures res != Success ==> bufs == old(bufs) && items == old(items) && parts == old(parts)
      ensures res == ItemInvalidChecksum ==>
                items[i].numMerged == 0 && !ChecksumValid(old(bufs[items[i].bufsIndex].bytes))
      ensures res == Success ==>
                && |items| == old(|items|) && Unused(items, pktI) && ChecksumValid(old(bufs[pktI].bytes))
                && (psh ==> Pushed(bufs[old(items[i].bufsIndex)].bytes))
                && parts == old(parts)[i := old(parts)[i] + [PartAt(old(bufs[pktI].bytes), tcphLen, sn, psh)]]
    {
      hide ChecksumValid, CanCoalesce, Offset, CutAt, WithPsh, InSequence, OnlyLastPushed, Word32, Headed, Plain, Alike;
      var item := items[i];
      var at := item.bufsIndex;
      var pkt, head := bufs[pktI].bytes, bufs[at];
      var h := IP_HEADER + item.tcphLen;
      AppendIsAdjacent(pkt, tcphLen, sn, psh, |pkt| - IP_HEADER - tcphLen, item, head.bytes, parts[i]);
      var coalescedLen := |head.bytes| + |pkt| - h;
      if head.room < coalescedLen {
        return InsufficientCap;
      }
      if item.numMerged == 0 && !ChecksumValid(head.bytes) {
        return ItemInvalidChecksum;
      }
      if !ChecksumValid(pkt) {
        return PacketInvalidChecksum;
      }
      var bytes := head.bytes;
      if psh {
        item := item.(pshSet := true);
        bytes := WithPsh(bytes);
      }
      CountFits(items[i], head.bytes, parts[i]);
      item := item.(numMerged := (item.numMerged + 1) % 65536);
      ghost var part := PartAt(pkt, item.tcphLen, sn, psh);
      AppendMerges(items[i], head.bytes, parts[i], item, bytes + pkt[h..], part);
      HeadedPlain(key, items[i], head.bytes, parts[i]);
      CoalesceAlike(key, pkt, tcphLen, sn, psh, |pkt| - IP_HEADER - tcphLen, items[i], head.bytes);
      AlikeFront(pkt, head.bytes, h);
      AppendHeaded(key, items[i], head.bytes, parts[i], item, bytes + pkt[h..], part);
      var after := bufs[at := Buffer(bytes + pkt[h..], head.room)];
      UpdateOk(key, bufs, items, parts, i, pktI, after, item, parts[i] + [part]);
      bufs, items, parts := after, items[i := item], parts[i := parts[i] + [part]];
      res := Success;
    }

    /** `coalesceTCPPackets`, prepending: the longer packet is built in the new packet's buffer and the two are swapped. */
    method CoalescePrepend(pktI: nat, i: nat, tcphLen: nat, sn: u32, psh: bool) returns (res: CoalesceResult)
      requires Valid() && i < |items| && pktI < |bufs| && Unused(items, pktI)
      requires 20 <= tcphLen && IP_HEADER + tcphLen < |bufs[pktI].bytes| <= 65535
      requires Word32(bufs[pktI].bytes, IP_HEADER + 4) == sn
      requires Plain(key, bufs[pktI].bytes) && psh == Pushed(bufs[pktI].bytes)
      requires CanCoalesce(bufs[pktI].bytes, tcphLen, sn, psh, |bufs[pktI].bytes| - IP_HEADER - tcphLen,
                           items[i], bufs[items[i].bufsIndex].bytes) == Prepend
      modifies this
      ensures Valid() && |bufs| == old(|bufs|)
      ensures res == InsufficientCap <==> old(!Fits(Prepend, bufs[pktI], items[i], bufs[items[i].bufsIndex]))
      ensures res != InsufficientCap ==>
                (res == ItemInvalidChecksum <==> old(!Checked(items[i], bufs[items[i].bufsIndex].bytes)))
      ensures res != InsufficientCap && res != ItemInvalidChecksum ==>
                res == if old(ChecksumValid(bufs[pktI].bytes)) then Success else PacketInvalidChecksum
      ensures res != Success ==> bufs == old(bufs) && items == old(items) && parts == old(parts)
      ensures res == ItemInvalidChecksum ==>
                items[i].numMerged == 0 && !ChecksumValid(old(bufs[items[i].bufsIndex].bytes))
      ensures res == Success ==>
                && |items| == old(|items|) && Unused(items, pktI) && ChecksumValid(old(bufs[pktI].bytes))
                && items[i].pshSet == old(items[i].pshSet)
                && !Pushed(bufs[old(items[i].bufsIndex)].bytes)
                && parts == old(parts)[i := [PartAt(old(bufs[pktI].bytes), tcphLen, sn, psh)] + old(parts)[i]]
    {
      hide ChecksumValid, CanCoalesce, Offset, CutAt, InSequence, OnlyLastPushed, Word32, Add, Headed, Plain, Alike;
      var item := items[i];
      var at := item.bufsIndex;
      var pkt, tail := bufs[pktI], bufs[at];
      var h := IP_HEADER + item.tcphLen;
      PrependMeans(pkt.bytes, tcphLen, sn, psh, |pkt.bytes| - IP_HEADER - tcphLen, item, tail.bytes, parts[i]);
      var g := |pkt.bytes| - h;
      var coalescedLen := |tail.bytes| + |pkt.bytes| - h;
      if pkt.room < coalescedLen {
        return InsufficientCap;
      }
      PrependNotPushed(pkt.bytes, tcphLen, sn, psh, |pkt.bytes| - IP_HEADER - tcphLen, item, tail.bytes);
      if psh {
        return PshEnding;
      }
      if item.numMerged == 0 && !ChecksumValid(tail.bytes) {
        return ItemInvalidChecksum;
      }
      if !ChecksumValid(pkt.bytes) {
        return PacketInvalidChecksum;
      }
      item := item.(sentSeq := sn);
      var joined := Buffer(pkt.bytes + tail.bytes[h..], pkt.room);
      if g > item.gsoSize {
        item := item.(gsoSize := g);
      }
      CountFits(items[i], tail.bytes, parts[i]);
      item := item.(numMerged := (item.numMerged + 1) % 65536);
      ghost var part := PartAt(pkt.bytes, item.tcphLen, sn, psh);
      assert joined.bytes[h..] == part.data + tail.bytes[h..];
      SameWord32(pkt.bytes, joined.bytes, IP_HEADER + 4);
      PrependMerges(items[i], tail.bytes, parts[i], item, joined.bytes, part);
      HeadedPlain(key, items[i], tail.bytes, parts[i]);
      CoalesceAlike(key, pkt.bytes, tcphLen, sn, psh, |pkt.bytes| - IP_HEADER - tcphLen, items[i], tail.bytes);
      PrependHeaded(key, items[i], tail.bytes, parts[i], item, pkt.bytes, joined.bytes, part);
      var after := bufs[at := joined][pktI := tail];
      UpdateOk(key, bufs, items, parts, i, pktI, after, item, [part] + parts[i]);
      bufs, items, parts := after, items[i := item], parts[i := [part] + parts[i]];
      res := Success;
    }

    /** One attempt to merge the packet into item `i`. */
    method Try(pktI: nat, i: nat, tcphLen: nat, sn: u32, psh: bool) returns (res: Option<CoalesceResult>)
      requires Valid() && i < |items| && pktI < |bufs| && Unused(items, pktI)
      requires 20 <= tcphLen && IP_HEADER + tcphLen < |bufs[pktI].bytes| <= 65535
      requires Word32(bufs[pktI].bytes, IP_HEADER + 4) == sn
      requires Plain(key, bufs[pktI].bytes) && psh == Pushed(bufs[pktI].bytes)
      modifies this
      ensures Valid() && |bufs| == old(|bufs|)
      ensures old(ReadyAt(bufs, pktI, tcphLen, sn, psh, items, i)) <==>
              res == Some(if old(ChecksumValid(bufs[pktI].bytes)) then Success else PacketInvalidChecksum)
      ensures res == Some(Success) || res == Some(PacketInvalidChecksum) ==>
                (res == Some(Success) <==> old(ChecksumValid(bufs[pktI].bytes)))
      ensures res != Some(Success) ==> bufs == old(bufs) && items == old(items) && parts == old(parts)
      ensures res == Some(ItemInvalidChecksum) ==>
                items[i].numMerged == 0 && !ChecksumValid(old(bufs[items[i].bufsIndex].bytes))
      ensures res == Some(Success) ==>
                && |items| == old(|items|) && Unused(items, pktI) && ChecksumValid(old(bufs[pktI].bytes))
                && var part := PartAt(old(bufs[pktI].bytes), tcphLen, sn, psh);
                (parts == old(parts)[i := old(parts)[i] + [part]] || parts == old(parts)[i := [part] + old(parts)[i]])
    {
      hide ChecksumValid, CanCoalesce, Merged, Headed, Plain, Word32;
      var pkt, target := bufs[pktI].bytes, bufs[items[i].bufsIndex].bytes;
      HeadersFit(items[i], target, parts[i]);
      var can := CanCoalesce(pkt, tcphLen, sn, psh, |pkt| - IP_HEADER - tcphLen, items[i], target);
      match can
      case Unavailable =>
        res := None;
      case Append =>
        var r := CoalesceAppend(pktI, i, tcphLen, sn, psh);
        res := Some(r);
      case Prepend =>
        var r := CoalescePrepend(pktI, i, tcphLen, sn, psh);
        res := Some(r);
    }

    /** Item `j` is ready for the packet in buffer `pktI`. */
    ghost predicate ReadyFor(pktI: nat, j: int)
      reads this
    {
      && pktI < |bufs| && |bufs[pktI].bytes| >= 40 && 0 <= j
      && ReadyAt(bufs, pktI, TcpHeaderLength(bufs[pktI].bytes), Word32(bufs[pktI].bytes, IP_HEADER + 4),
                 Pushed(bufs[pktI].bytes), items, j)
    }

    /**
     `tcpGRO` on the items of the packet's flow, newest first. A candidate is merged exactly when some item is ready for
     it and its checksum is right, left alone when one is and it is not, and stored when none is. Every part is kept where
     it was, the packet's own part is added unless it is left alone, and only single packets whose checksum is wrong leave
     the table.
     */
    method Receive(pktI: nat) returns (r: GroResult, ghost dropped: seq<seq<Part>>)
      requires Valid() && pktI < |bufs| && Unused(items, pktI) && |bufs[pktI].bytes| >= 40
      requires Candidate(bufs[pktI].bytes) ==> KeyFor(bufs[pktI].bytes) == key
      modifies this
      ensures Valid() && |bufs| == old(|bufs|)
      ensures !Candidate(old(bufs[pktI].bytes)) ==> r == Noop && dropped == []
      ensures r == Noop ==> bufs == old(bufs) && All(parts) + All(dropped) == old(All(parts))
      ensures r != Noop ==>
                && Candidate(old(bufs[pktI].bytes))
                && All(parts) + All(dropped) == old(All(parts)) + multiset{PartOf(old(bufs[pktI].bytes))}
      ensures forall d :: 0 <= d < |dropped| ==> |dropped[d]| == 1
      ensures Candidate(old(bufs[pktI].bytes)) ==>
                var pkt := old(bufs[pktI].bytes);
                var ready := exists j :: 0 <= j < |old(items)| && old(ReadyFor(pktI, j));
                r == if !ready then TableInsert else if ChecksumValid(pkt) then Coalesced else Noop
      ensures r == Coalesced ==> Unused(items, pktI)
      ensures r == TableInsert ==> bufs == old(bufs) && |items| > 0 && items[|items| - 1].bufsIndex == pktI
    {
      hide ItemsOk, All, Candidate, ChecksumValid, Word32, Headed, Merged, ReadyAt, PartOf, Plain;
      dropped := [];
      NoneDropped(parts);
      var pkt := bufs[pktI].bytes;
      if !Candidate(pkt) {
        return Noop, dropped;
      }
      CandidateFields(pkt);
      var tcphLen, sn := TcpHeaderLength(pkt), Word32(pkt, IP_HEADER + 4);
      var psh := pkt[IP_HEADER + FLAGS_AT] != 0x10;
      PushedFlag(pkt);
      ghost var part := PartOf(pkt);
      var i := |items|;
      while i > 0
        invariant Valid() && bufs == old(bufs) && 0 <= i <= |items| && Unused(items, pktI)
        invariant All(parts) + All(dropped) == old(All(parts))
        invariant i <= |old(items)| && items[..i] == old(items)[..i]
        invariant forall j :: i <= j < |old(items)| ==> !old(ReadyFor(pktI, j))
        invariant forall d :: 0 <= d < |dropped| ==> |dropped[d]| == 1
      {
        i := i - 1;
        SameCount(key, bufs, items, parts, i);
        assert items[i] == items[..i + 1][i] == old(items)[..i + 1][i];
        ReadySame(bufs, pktI, tcphLen, sn, psh, items, old(items), i);
        ghost var before, ready := parts, old(ReadyFor(pktI, i));
        assert ready == ReadyAt(bufs, pktI, tcphLen, sn, psh, items, i);
        var res := Try(pktI, i, tcphLen, sn, psh);
        if res == Some(Success) {
          Merging(before, i, parts, part);
          return Coalesced, dropped;
        } else if res == Some(ItemInvalidChecksum) {
          Drop(i);
          AllPush(dropped, before[i]);
          dropped := dropped + [before[i]];
        } else if res == Some(PacketInvalidChecksum) {
          return Noop, dropped;
        }
      }
      StoreAlone(pktI, tcphLen, sn, psh);
      r := TableInsert;
    }

    /** The packet becomes an item of its own. */
    method StoreAlone(pktI: nat, tcphLen: nat, sn: u32, psh: bool)
      requires Valid() && pktI < |bufs| && Unused(items, pktI)
      requires 20 <= tcphLen && IP_HEADER + tcphLen < |bufs[pktI].bytes| <= 65535
      requires Word32(bufs[pktI].bytes, IP_HEADER + 4) == sn
      requires Plain(key, bufs[pktI].bytes) && psh == Pushed(bufs[pktI].bytes)
      modifies this`items, this`parts
      ensures Valid() && |items| == old(|items|) + 1 && items[|items| - 1].bufsIndex == pktI
      ensures All(parts) == old(All(parts)) + multiset{PartAt(bufs[pktI].bytes, tcphLen, sn, psh)}
    {
      hide ItemsOk, All, Word32, Headed, Merged, Plain;
      var pkt := bufs[pktI].bytes;
      var item := Item(sn, pktI, 0, |pkt| - IP_HEADER - tcphLen, tcphLen, psh);
      ghost var part := PartAt(pkt, tcphLen, sn, psh);
      SingleMerged(item, pkt, part);
      SingleHeaded(key, item, pkt, part);
      InsertOk(key, bufs, items, parts, item, [part]);
      AllPush(parts, [part]);
      items, parts := items + [item], parts + [[part]];
    }

    /** An item on its own leaves the table. */
    method Drop(i: nat)
      requires Valid() && i < |items| && items[i].numMerged == 0
      modifies this`items, this`parts
      ensures Valid() && items == old(items)[..i] + old(items)[i + 1..]
      ensures i < |old(parts)| && |old(parts)[i]| == 1 && old(All(parts)) == All(parts) + multiset(old(parts)[i])
    {
      hide ItemsOk, All, Headed, Merged;
      SameCount(key, bufs, items, parts, i);
      DeleteOk(key, bufs, items, parts, i);
      AllDelete(parts, i);
      items, parts := items[..i] + items[i + 1..], parts[..i] + parts[i + 1..];
    }
  }

  /** The fields that accounting rewrites in a merged packet: length and both checksums. */
  predicate Rewritten(k: nat) {
    k == 2 || k == 3 || k == 10 || k == 11 || k == IP_HEADER + CHECKSUM_AT || k == IP_HEADER + CHECKSUM_AT + 1
  }

  lemma CoversOnce(g: nat, len: nat, a: nat, b: nat)
    requires Covers(g, len, a) && Covers(g, len, b)
    ensures a == b
  {
    hide Offset;
    if a < b {
      OffsetOrder(a, b - 1, g);
    } else if b < a {
      OffsetOrder(b, a - 1, g);
    }
  }

  /** Coalescing and splitting are inverse: each original payload comes out again at its sequence number. */
  lemma GroThenGso(item: Item, bytes: seq<byte>, parts: seq<Part>, sent: seq<byte>, outs: seq<seq<byte>>)
    requires Merged(item, bytes, parts) && |sent| == |bytes|
    requires forall k :: 0 <= k < |bytes| && !Rewritten(k) ==> sent[k] == bytes[k]
    ensures Splittable(sent, IP_HEADER, IP_HEADER + item.tcphLen, item.gsoSize)
    ensures var hl := IP_HEADER + item.tcphLen;
            AreSegments(sent, IP_HEADER, hl, item.gsoSize, outs) && Covers(item.gsoSize, |sent| - hl, |outs|) ==>
              && |outs| == |parts|
              && forall k :: 0 <= k < |parts| ==>
                   hl <= |outs[k]| && outs[k][hl..] == parts[k].data && Word32(outs[k], IP_HEADER + 4) == parts[k].sn
  {
    hide Offset, IsSegment, Word32, CutAt;
    var hl, g := IP_HEADER + item.tcphLen, item.gsoSize;
    SameWord32(bytes, sent, IP_HEADER + 4);
    assert sent[hl..] == bytes[hl..];
    if AreSegments(sent, IP_HEADER, hl, g, outs) && Covers(g, |sent| - hl, |outs|) {
      LastCut(item, bytes, parts);
      CoversOnce(g, |sent| - hl, |outs|, |parts|);
      forall k | 0 <= k < |parts|
        ensures hl <= |outs[k]| && outs[k][hl..] == parts[k].data && Word32(outs[k], IP_HEADER + 4) == parts[k].sn
      {
        SegmentPiece(sent, IP_HEADER, hl, g, k, outs[k]);
        SegmentNumber(sent, IP_HEADER, hl, g, k, outs[k]);
        PieceCut(sent[hl..], g, Datas(parts), k);
      }
    }
  }

  lemma LastCut(item: Item, bytes: seq<byte>, parts: seq<Part>)
    requires Merged(item, bytes, parts)
    ensures Covers(item.gsoSize, |bytes| - IP_HEADER - item.tcphLen, |parts|)
  {
    hide Offset, Word32;
    var last := |parts| - 1;
    assert Datas(parts)[last] == parts[last].data;
  }

  /** The headers of the segments: shared bytes and the PSH flag. */
  lemma SegmentHeaders(key: FlowKey, item: Item, bytes: seq<byte>, parts: seq<Part>, sent: seq<byte>,
                       outs: seq<seq<byte>>, k: nat)
    requires Described(key, item, bytes, parts) && |sent| == |bytes| && k < |parts| == |outs|
    requires forall j :: 0 <= j < |bytes| && !Rewritten(j) ==> sent[j] == bytes[j]
    requires var hl := IP_HEADER + item.tcphLen;
             Splittable(sent, IP_HEADER, hl, item.gsoSize) && AreSegments(sent, IP_HEADER, hl, item.gsoSize, outs)
    ensures Alike(outs[k], parts[k].hdr, IP_HEADER + item.tcphLen)
    ensures Pushed(outs[k]) <==> k == |parts| - 1 && Pushed(bytes)
  {
    hide Offset, Word32, Word, HeaderVerifies, TransportVerifies, CutAt, InSequence, OnlyLastPushed, Masked;
    var hl, g := IP_HEADER + item.tcphLen, item.gsoSize;
    LastCut(item, bytes, parts);
    LastOnly(g, |sent| - hl, |parts|, k);
    MaskedBits(1, 0, 0, 0);
    MaskedBits(1, 1, 0, 0);
    var out := outs[k];
    assert IsSegment(sent, IP_HEADER, hl, g, k, out);
    forall j: nat | Shared(j, hl)
      ensures out[j] == parts[k].hdr[j]
    {
      assert Kept(j, IP_HEADER) && !Rewritten(j);
    }
  }

  /** Of `n` pieces that cover `len` bytes only the last reaches the end. */
  lemma LastOnly(g: nat, len: nat, n: nat, k: nat)
    requires Covers(g, len, n) && k < n
    ensures Offset(k, g) < len
    ensures Offset(k, g) + Min(g, len - Offset(k, g)) == len <==> k == n - 1
  {
    hide Offset;
    OffsetStep(k, g);
    if k < n - 1 {
      OffsetOrder(k + 1, n - 1, g);
    }
  }

  /**
   With the headers: what all packets of an item share comes out again on every segment, and the PSH flags are those of
   the original packets exactly when the merged header still has the flag of its last part. A prepend to an item that
   ends in a pushed packet loses it.
   */
  lemma HeadersRecovered(key: FlowKey, item: Item, bytes: seq<byte>, parts: seq<Part>, sent: seq<byte>,
                         outs: seq<seq<byte>>)
    requires Described(key, item, bytes, parts) && |sent| == |bytes|
    requires forall j :: 0 <= j < |bytes| && !Rewritten(j) ==> sent[j] == bytes[j]
    requires var hl := IP_HEADER + item.tcphLen;
             && Splittable(sent, IP_HEADER, hl, item.gsoSize) && AreSegments(sent, IP_HEADER, hl, item.gsoSize, outs)
             && Covers(item.gsoSize, |sent| - hl, |outs|)
    ensures |outs| == |parts| && forall k :: 0 <= k < |parts| ==> Alike(outs[k], parts[k].hdr, IP_HEADER + item.tcphLen)
    ensures (forall k :: 0 <= k < |parts| ==> (Pushed(outs[k]) <==> parts[k].psh)) <==> (Pushed(bytes) <==> item.pshSet)
  {
    hide Offset, Word32, CutAt, InSequence, Headed, Alike, Pushed, IsSegment, Splittable, Rewritten;
    GroThenGso(item, bytes, parts, sent, outs);
    forall k | 0 <= k < |parts|
      ensures Alike(outs[k], parts[k].hdr, IP_HEADER + item.tcphLen)
      ensures Pushed(outs[k]) <==> k == |parts| - 1 && Pushed(bytes)
    {
      SegmentHeaders(key, item, bytes, parts, sent, outs, k);
    }
    assert parts[|parts| - 1].psh == item.pshSet;
  }
}
