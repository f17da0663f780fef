/** TCP options: the parsers, the encoders, and what a SYN+ACK and an ACK carry. */
module Options {
  import opened Bytes
  import opened SeqNum
  import opened Ipv4
  import opened Fragment
  import opened Gso

  const EOL: byte := 0
  const NOP: byte := 1
  const MSS: byte := 2
  const WS: byte := 3
  const SACK_PERMITTED: byte := 4
  const SACK: byte := 5
  const TS: byte := 8

  const MAX_SACK_BLOCKS: nat := 4
  const MAX_WND_SCALE: nat := 14

  /** `ws` is -1 and `mss` is 0 when the option is absent. */
  datatype SynOptions = SynOptions(mss: nat, ws: int, sackPermit: bool, tsEnabled: bool, tsVal: u32)

  datatype SegmentOptions = SegmentOptions(blocks: seq<SackBlock>, tsEnabled: bool, tsVal: u32, tsEcr: u32)

  datatype Timestamps = Timestamps(val: u32, ecr: u32)

  /** An option with a length byte that is right. */
  predicate WholeOption(o: seq<byte>) {
    |o| >= 2 && o[0] != EOL && o[0] != NOP && o[1] == |o|
  }

  /** What one option of a SYN adds. */
  function SynStep(so: SynOptions, o: seq<byte>): SynOptions
    requires WholeOption(o)
  {
    if o[0] == MSS && |o| == 4 then so.(mss := Word(o, 2))
    else if o[0] == WS && |o| == 3 then so.(ws := Min(o[2], MAX_WND_SCALE))
    else if o[0] == SACK_PERMITTED && |o| == 2 then so.(sackPermit := true)
    else if o[0] == TS && |o| == 10 then so.(tsEnabled := true, tsVal := Word32(o, 2))
    else so
  }

  /** The blocks of a SACK option, at most four. */
  function BlocksIn(o: seq<byte>, n: nat): (b: seq<SackBlock>)
    requires 2 + 8 * n <= |o|
    ensures |b| == n
  {
    seq(n, j requires 0 <= j < n => SackBlock(Word32(o, 2 + 8 * j), Word32(o, 6 + 8 * j)))
  }

  /** What one option of any other segment adds. */
  function SegmentStep(so: SegmentOptions, o: seq<byte>): SegmentOptions
    requires WholeOption(o)
  {
    if o[0] == SACK && (|o| - 2) % 8 == 0 then so.(blocks := BlocksIn(o, Min((|o| - 2) / 8, MAX_SACK_BLOCKS)))
    else if o[0] == TS && |o| == 10 then so.(tsEnabled := true, tsVal := Word32(o, 2), tsEcr := Word32(o, 6))
    else so
  }

  /** The options of a segment in order, up to the end-of-list mark or the first one that does not fit. */
  ghost function Listed(o: seq<byte>): seq<seq<byte>>
    decreases |o|
  {
    if o == [] || o[0] == EOL then []
    else if o[0] == NOP then Listed(o[1..])
    else if |o| < 2 || o[1] < 2 || o[1] > |o| then []
    else [o[..o[1]]] + Listed(o[o[1]..])
  }

  ghost predicate AllWhole(l: seq<seq<byte>>) {
    forall k :: 0 <= k < |l| ==> WholeOption(l[k])
  }

  lemma {:induction false} ListedWhole(o: seq<byte>)
    ensures AllWhole(Listed(o))
    decreases |o|
  {
    if o == [] || o[0] == EOL {
    } else if o[0] == NOP {
      ListedWhole(o[1..]);
    } else if |o| >= 2 && 2 <= o[1] <= |o| {
      ListedWhole(o[o[1]..]);
    }
  }

  /** The meaning of a list of options: each one applied in turn. */
  ghost function SynMeaning(l: seq<seq<byte>>, so: SynOptions): SynOptions
    requires AllWhole(l)
  {
    if l == [] then so else SynMeaning(l[1..], SynStep(so, l[0]))
  }

  ghost function SegmentMeaning(l: seq<seq<byte>>, so: SegmentOptions): SegmentOptions
    requires AllWhole(l)
  {
    if l == [] then so else SegmentMeaning(l[1..], SegmentStep(so, l[0]))
  }

  /** `ParseSynOptions`: in bounds and terminating on every byte string. */
  method ParseSynOptions(opts: seq<byte>) returns (so: SynOptions)
    ensures AllWhole(Listed(opts)) && so == SynMeaning(Listed(opts), SynOptions(0, -1, false, false, 0))
  {
    hide SynStep, Word32, Word;
    so := SynOptions(0, -1, false, false, 0);
    ListedWhole(opts);
    var i := 0;
    assert opts[0..] == opts;
    while i < |opts|
      invariant i <= |opts| && AllWhole(Listed(opts[i..]))
      invariant SynMeaning(Listed(opts[i..]), so) == SynMeaning(Listed(opts), SynOptions(0, -1, false, false, 0))
      decreases |opts| - i
    {
      ghost var rest := opts[i..];
      if opts[i] == EOL {
        return;
      }
      if opts[i] == NOP {
        assert rest[1..] == opts[i + 1..];
        i := i + 1;
      } else {
        if i + 1 >= |opts| {
          return;
        }
        var optLen := opts[i + 1] as int;
        if optLen < 2 || i + optLen > |opts| {
          return;
        }
        assert rest[optLen..] == opts[i + optLen..] && rest[..optLen] == opts[i..i + optLen];
        ListedStep(rest);
        so := SynStep(so, opts[i..i + optLen]);
        i := i + optLen;
      }
    }
  }

  lemma ListedStep(o: seq<byte>)
    requires |o| >= 2 && o[0] != EOL && o[0] != NOP && 2 <= o[1] <= |o|
    ensures Listed(o) == [o[..o[1]]] + Listed(o[o[1]..]) && Listed(o)[1..] == Listed(o[o[1]..]) && AllWhole(Listed(o[o[1]..]))
  {
    ListedWhole(o[o[1]..]);
  }

  /** `ParseSegmentOptions`: in bounds and terminating on every byte string. */
  method ParseSegmentOptions(opts: seq<byte>) returns (so: SegmentOptions)
    ensures AllWhole(Listed(opts)) && so == SegmentMeaning(Listed(opts), SegmentOptions([], false, 0, 0))
  {
    hide SegmentStep, Word32, Word;
    so := SegmentOptions([], false, 0, 0);
    ListedWhole(opts);
    var i := 0;
    assert opts[0..] == opts;
    while i < |opts|
      invariant i <= |opts| && AllWhole(Listed(opts[i..]))
      invariant SegmentMeaning(Listed(opts[i..]), so) == SegmentMeaning(Listed(opts), SegmentOptions([], false, 0, 0))
      decreases |opts| - i
    {
      ghost var rest := opts[i..];
      if opts[i] == EOL {
        return;
      }
      if opts[i] == NOP {
        assert rest[1..] == opts[i + 1..];
        i := i + 1;
      } else {
        if i + 1 >= |opts| {
          return;
        }
        var optLen := opts[i + 1] as int;
        if optLen < 2 || i + optLen > |opts| {
          return;
        }
        assert rest[optLen..] == opts[i + optLen..] && rest[..optLen] == opts[i..i + optLen];
        ListedStep(rest);
        so := SegmentStep(so, opts[i..i + optLen]);
        i := i + optLen;
      }
    }
  }

  // ----- Encoders -----

  function MssOption(mss: nat): (o: seq<byte>)
    requires mss <= 65535
  {
    [MSS, 4, mss / 256, mss % 256]
  }

  function WsOption(ws: nat): seq<byte>
    requires ws < 256
  {
    [WS, 3, ws]
  }

  function SackPermittedOption(): seq<byte> {
    [SACK_PERMITTED, 2]
  }

  /** The ten option bytes; two NOPs go in front of them. */
  function TimestampOption(t: Timestamps): (o: seq<byte>)
    ensures WholeOption(o) && |o| == 10 && o[0] == TS && Word32(o, 2) == t.val && Word32(o, 6) == t.ecr
  {
    hide PutWord32, Word32;
    var z: seq<byte> := [TS, 10, 0, 0, 0, 0, 0, 0, 0, 0];
    var a := PutWord32(z, 2, t.val);
    var o := PutWord32(a, 6, t.ecr);
    SameWord32(a, o, 2);
    o
  }

  /** `EncodeSACKBlocks`: as many blocks as fit, at most four, or nothing at all. */
  method EncodeSackBlocks(room: nat, blocks: seq<SackBlock>) returns (opt: seq<byte>)
    ensures opt == [] || (WholeOption(opt) && opt[0] == SACK)
    ensures var n := Min(Min(|blocks|, MAX_SACK_BLOCKS), (room - 2) / 8);
            if n <= 0 then opt == [] else |opt| == 2 + 8 * n <= room && BlocksIn(opt, n) == blocks[..n]
  {
    hide PutWord32, Word32;
    var n := Min(|blocks|, MAX_SACK_BLOCKS);
    var needed := 2 + n * 8;
    while needed > room && n > 0
      invariant 0 <= n <= Min(|blocks|, MAX_SACK_BLOCKS) && needed == 2 + n * 8
      invariant n < Min(|blocks|, MAX_SACK_BLOCKS) ==> needed + 8 > room
    {
      n := n - 1;
      needed := 2 + n * 8;
    }
    if n == 0 {
      return [];
    }
    opt := [SACK, needed] + seq(8 * n, _ => 0);
    for i := 0 to n
      invariant |opt| == needed && opt[0] == SACK && opt[1] == needed
      invariant forall j :: 0 <= j < i ==> SackBlock(Word32(opt, 2 + 8 * j), Word32(opt, 6 + 8 * j)) == blocks[j]
    {
      ghost var before := opt;
      opt := PutWord32(opt, 2 + 8 * i, blocks[i].start);
      ghost var half := opt;
      opt := PutWord32(opt, 6 + 8 * i, blocks[i].end);
      SameWord32(half, opt, 2 + 8 * i);
      forall j | 0 <= j < i
        ensures SackBlock(Word32(opt, 2 + 8 * j), Word32(opt, 6 + 8 * j)) == blocks[j]
      {
        SameWord32(before, opt, 2 + 8 * j);
        SameWord32(before, opt, 6 + 8 * j);
      }
    }
  }

  // ----- What is built reads back -----

  /** The bytes spell exactly the options `l`, whatever follows them. */
  ghost predicate Spells(o: seq<byte>, l: seq<seq<byte>>) {
    forall rest :: Listed(o + rest) == l + Listed(rest)
  }

  lemma SpellsOption(o: seq<byte>, l: seq<seq<byte>>, opt: seq<byte>)
    requires Spells(o, l) && WholeOption(opt)
    ensures Spells(o + opt, l + [opt])
  {
    forall rest
      ensures Listed(o + opt + rest) == l + [opt] + Listed(rest)
    {
      assert o + opt + rest == o + (opt + rest);
      assert (opt + rest)[..|opt|] == opt && (opt + rest)[|opt|..] == rest;
      assert Listed(opt + rest) == [opt] + Listed(rest);
    }
  }

  lemma SpellsNop(o: seq<byte>, l: seq<seq<byte>>)
    requires Spells(o, l)
    ensures Spells(o + [NOP], l)
  {
    forall rest
      ensures Listed(o + [NOP] + rest) == l + Listed(rest)
    {
      assert o + [NOP] + rest == o + ([NOP] + rest);
      assert ([NOP] + rest)[1..] == rest;
    }
  }

  lemma SpellsAll(o: seq<byte>, l: seq<seq<byte>>)
    requires Spells(o, l)
    ensures Listed(o) == l
  {
    assert o + [] == o;
    assert Listed(o + []) == l + Listed([]);
  }

  lemma SpellsNothing()
    ensures Spells([], [])
  {
    forall rest: seq<byte>
      ensures Listed([] + rest) == [] + Listed(rest)
    {
      assert [] + rest == rest;
    }
  }

  lemma {:induction false} SynMeaningAppend(l: seq<seq<byte>>, so: SynOptions, o: seq<byte>)
    requires AllWhole(l) && WholeOption(o)
    ensures AllWhole(l + [o]) && SynMeaning(l + [o], so) == SynStep(SynMeaning(l, so), o)
    decreases |l|
  {
    hide SynStep;
    if l == [] {
      assert (l + [o])[1..] == [];
    } else {
      assert (l + [o])[1..] == l[1..] + [o];
      SynMeaningAppend(l[1..], SynStep(so, l[0]), o);
    }
  }

  lemma {:induction false} SegmentMeaningAppend(l: seq<seq<byte>>, so: SegmentOptions, o: seq<byte>)
    requires AllWhole(l) && WholeOption(o)
    ensures AllWhole(l + [o]) && SegmentMeaning(l + [o], so) == SegmentStep(SegmentMeaning(l, so), o)
    decreases |l|
  {
    hide SegmentStep;
    if l == [] {
      assert (l + [o])[1..] == [];
    } else {
      assert (l + [o])[1..] == l[1..] + [o];
      SegmentMeaningAppend(l[1..], SegmentStep(so, l[0]), o);
    }
  }

  const NO_SYN_OPTIONS: SynOptions := SynOptions(0, -1, false, false, 0)
  const NO_SEGMENT_OPTIONS: SegmentOptions := SegmentOptions([], false, 0, 0)

  /** The bytes say `so`. */
  ghost predicate SaysSyn(o: seq<byte>, so: SynOptions) {
    exists l :: AllWhole(l) && Spells(o, l) && SynMeaning(l, NO_SYN_OPTIONS) == so
  }

  ghost predicate SaysSegment(o: seq<byte>, so: SegmentOptions) {
    exists l :: AllWhole(l) && Spells(o, l) && SegmentMeaning(l, NO_SEGMENT_OPTIONS) == so
  }

  lemma SynOption(o: seq<byte>, so: SynOptions, opt: seq<byte>)
    requires SaysSyn(o, so) && WholeOption(opt)
    ensures SaysSyn(o + opt, SynStep(so, opt))
  {
    hide Spells, SynStep;
    var l :| AllWhole(l) && Spells(o, l) && SynMeaning(l, NO_SYN_OPTIONS) == so;
    SpellsOption(o, l, opt);
    SynMeaningAppend(l, NO_SYN_OPTIONS, opt);
  }

  lemma SynNop(o: seq<byte>, so: SynOptions)
    requires SaysSyn(o, so)
    ensures SaysSyn(o + [NOP], so)
  {
    hide Spells;
    var l :| AllWhole(l) && Spells(o, l) && SynMeaning(l, NO_SYN_OPTIONS) == so;
    SpellsNop(o, l);
  }

  lemma SegmentOption(o: seq<byte>, so: SegmentOptions, opt: seq<byte>)
    requires SaysSegment(o, so) && WholeOption(opt)
    ensures SaysSegment(o + opt, SegmentStep(so, opt))
  {
    hide Spells, SegmentStep;
    var l :| AllWhole(l) && Spells(o, l) && SegmentMeaning(l, NO_SEGMENT_OPTIONS) == so;
    SpellsOption(o, l, opt);
    SegmentMeaningAppend(l, NO_SEGMENT_OPTIONS, opt);
  }

  lemma SegmentNop(o: seq<byte>, so: SegmentOptions)
    requires SaysSegment(o, so)
    ensures SaysSegment(o + [NOP], so)
  {
    hide Spells;
    var l :| AllWhole(l) && Spells(o, l) && SegmentMeaning(l, NO_SEGMENT_OPTIONS) == so;
    SpellsNop(o, l);
  }

  lemma NothingSaid()
    ensures SaysSyn([], NO_SYN_OPTIONS) && SaysSegment([], NO_SEGMENT_OPTIONS)
  {
    SpellsNothing();
    assert SynMeaning([], NO_SYN_OPTIONS) == NO_SYN_OPTIONS && SegmentMeaning([], NO_SEGMENT_OPTIONS) == NO_SEGMENT_OPTIONS;
  }

  /**
   The options of a SYN+ACK: at most 24 bytes in whole words, and they say what was negotiated. A scale of
   zero is not announced.
   */
  method SynAckOptions(mss: nat, scale: nat, sack: bool, ts: Option<Timestamps>) returns (opts: seq<byte>)
    requires mss <= 65535 && scale <= MAX_WND_SCALE
    ensures |opts| <= 24 && |opts| % 4 == 0
    ensures SaysSyn(opts, SynOptions(mss, if scale > 0 then scale else -1, sack, ts.Some?, if ts.Some? then ts.value.val else 0))
  {
    hide SaysSyn, Word32;
    NothingSaid();
    ghost var so := NO_SYN_OPTIONS;
    opts := MssOption(mss);
    SynOption([], so, opts);
    assert [] + opts == opts;
    so := so.(mss := mss);
    if scale > 0 {
      SynNop(opts, so);
      SynOption(opts + [NOP], so, WsOption(scale));
      opts := opts + [NOP] + WsOption(scale);
      so := so.(ws := scale);
    }
    if sack {
      SynOption(opts, so, SackPermittedOption());
      opts := opts + SackPermittedOption();
      so := so.(sackPermit := true);
    }
    if ts.Some? {
      SynNop(opts, so);
      SynNop(opts + [NOP], so);
      SynOption(opts + [NOP] + [NOP], so, TimestampOption(ts.value));
      opts := opts + [NOP] + [NOP] + TimestampOption(ts.value);
      so := so.(tsEnabled := true, tsVal := ts.value.val);
    }
    while |opts| % 4 != 0
      invariant |opts| <= 24 && SaysSyn(opts, so)
      decreases 24 - |opts|
    {
      SynNop(opts, so);
      opts := opts + [NOP];
    }
  }

  /** The options of an ACK: timestamps, then blocks, padded to whole words. */
  method AckOptions(ts: Option<Timestamps>, blocks: seq<SackBlock>) returns (opts: seq<byte>)
    ensures |opts| <= 48 && |opts| % 4 == 0
    ensures |opts| <= 40 <==> !(ts.Some? && |blocks| >= 4)
    ensures var reported := blocks[..Min(|blocks|, MAX_SACK_BLOCKS)];
            SaysSegment(opts, match ts
                              case None => SegmentOptions(reported, false, 0, 0)
                              case Some(t) => SegmentOptions(reported, true, t.val, t.ecr))
  {
    hide SaysSegment;
    NothingSaid();
    ghost var so := NO_SEGMENT_OPTIONS;
    opts := [];
    if ts.Some? {
      opts := Stamped(ts.value);
      so := so.(tsEnabled := true, tsVal := ts.value.val, tsEcr := ts.value.ecr);
    }
    if |blocks| > 0 {
      opts := WithBlocks(opts, blocks, so);
      so := so.(blocks := blocks[..Min(|blocks|, MAX_SACK_BLOCKS)]);
    }
    opts := Padded(opts, so);
  }

  /** Two fillers and the timestamps. */
  method Stamped(t: Timestamps) returns (opts: seq<byte>)
    ensures |opts| == 12 && SaysSegment(opts, NO_SEGMENT_OPTIONS.(tsEnabled := true, tsVal := t.val, tsEcr := t.ecr))
  {
    hide SaysSegment, Word32;
    NothingSaid();
    SegmentNop([], NO_SEGMENT_OPTIONS);
    SegmentNop([] + [NOP], NO_SEGMENT_OPTIONS);
    SegmentOption([] + [NOP] + [NOP], NO_SEGMENT_OPTIONS, TimestampOption(t));
    opts := [] + [NOP] + [NOP] + TimestampOption(t);
  }

  /** The blocks behind what is there already. */
  method WithBlocks(opts: seq<byte>, blocks: seq<SackBlock>, ghost so: SegmentOptions) returns (r: seq<byte>)
    requires SaysSegment(opts, so) && |opts| <= 12 && blocks != []
    ensures |r| == |opts| + 2 + 8 * Min(|blocks|, MAX_SACK_BLOCKS)
    ensures SaysSegment(r, so.(blocks := blocks[..Min(|blocks|, MAX_SACK_BLOCKS)]))
  {
    hide SaysSegment, Word32, BlocksIn;
    var opt := EncodeSackBlocks(48 - |opts|, blocks);
    SegmentOption(opts, so, opt);
    r := opts + opt;
  }

  /** The padding loop. */
  method Padded(opts: seq<byte>, ghost so: SegmentOptions) returns (r: seq<byte>)
    requires SaysSegment(opts, so)
    ensures SaysSegment(r, so) && |r| % 4 == 0 && |opts| <= |r| < |opts| + 4
  {
    hide SaysSegment;
    r := opts;
    while |r| % 4 != 0
      invariant |opts| <= |r| <= (|opts| + 3) / 4 * 4 && SaysSegment(r, so)
      decreases (|opts| + 3) / 4 * 4 - |r|
    {
      SegmentNop(r, so);
      r := r + [NOP];
    }
  }

  lemma SynReadsBack(o: seq<byte>, so: SynOptions)
    requires SaysSyn(o, so)
    ensures AllWhole(Listed(o)) && SynMeaning(Listed(o), NO_SYN_OPTIONS) == so
  {
    hide Spells, Listed;
    var l :| AllWhole(l) && Spells(o, l) && SynMeaning(l, NO_SYN_OPTIONS) == so;
    SpellsAll(o, l);
  }

  lemma SegmentReadsBack(o: seq<byte>, so: SegmentOptions)
    requires SaysSegment(o, so)
    ensures AllWhole(Listed(o)) && SegmentMeaning(Listed(o), NO_SEGMENT_OPTIONS) == so
  {
    hide Spells, Listed;
    var l :| AllWhole(l) && Spells(o, l) && SegmentMeaning(l, NO_SEGMENT_OPTIONS) == so;
    SpellsAll(o, l);
  }

  /** A SYN+ACK read by its peer. */
  method SynRoundTrip(mss: nat, scale: nat, sack: bool, ts: Option<Timestamps>) returns (so: SynOptions)
    requires mss <= 65535 && scale <= MAX_WND_SCALE
    ensures so.mss == mss && so.ws == (if scale > 0 then scale else -1) && so.sackPermit == sack
    ensures so.tsEnabled == ts.Some? && (ts.Some? ==> so.tsVal == ts.value.val)
  {
    var opts := SynAckOptions(mss, scale, sack, ts);
    so := ParseSynOptions(opts);
    SynReadsBack(opts, SynOptions(mss, if scale > 0 then scale else -1, sack, ts.Some?, if ts.Some? then ts.value.val else 0));
  }

  /** An ACK read by its peer: with at most four blocks, or three beside timestamps, nothing is lost and the options fit. */
  method AckRoundTrip(ts: Option<Timestamps>, blocks: seq<SackBlock>) returns (so: SegmentOptions, optLen: nat)
    requires |blocks| <= if ts.Some? then 3 else 4
    ensures optLen <= 40 && (20 + optLen) / 4 <= 15
    ensures so.blocks == blocks && so.tsEnabled == ts.Some?
    ensures ts.Some? ==> so.tsVal == ts.value.val && so.tsEcr == ts.value.ecr
  {
    var opts := AckOptions(ts, blocks);
    so := ParseSegmentOptions(opts);
    assert blocks[..Min(|blocks|, MAX_SACK_BLOCKS)] == blocks;
    SegmentReadsBack(opts, match ts
                           case None => SegmentOptions(blocks, false, 0, 0)
                           case Some(t) => SegmentOptions(blocks, true, t.val, t.ecr));
    optLen := |opts|;
  }
}
