/**
 The sender's use of SACK blocks: marking covered queue entries and finding losses. Marking
 compares raw 32-bit numbers; this module says when that is exact.
 */
module SackMark {
  import opened Bytes
  import opened SeqNum
  import opened SendQueue

  /** The raw coverage test: a FIN counts with length zero here. */
  predicate Covers(b: SackBlock, e: Unacked) {
    e.sn >= b.start && Add(e.sn, |e.data|) <= b.end
  }

  /** A first block that ends by the cumulative acknowledgement reports a duplicate and is set aside. */
  function Regular(blocks: seq<SackBlock>, ack: u32): seq<SackBlock> {
    if blocks != [] && !SeqGreaterThan(blocks[0].end, ack) then blocks[1..] else blocks
  }

  ghost predicate CoveredBy(blocks: seq<SackBlock>, e: Unacked) {
    exists j :: 0 <= j < |blocks| && Covers(blocks[j], e)
  }

  /** Position `x` belongs to an entry that some block covers. */
  ghost predicate CoveredAt(blocks: seq<SackBlock>, q: seq<Unacked>, at: seq<int>, x: int) {
    exists i :: 0 <= i < |q| && i < |at| && at[i] <= x < at[i] + |q[i].data| && CoveredBy(blocks, q[i])
  }

  ghost function Covering(blocks: seq<SackBlock>, q: seq<Unacked>, at: seq<int>): iset<int> {
    iset x | CoveredAt(blocks, q, at, x)
  }

  lemma MarksCovering(q: seq<Unacked>, q': seq<Unacked>, at: seq<int>, m: iset<int>, blocks: seq<SackBlock>)
    requires Marks(q, at, m) && SameSegments(q, q')
    requires forall i :: 0 <= i < |q| ==> q'[i].sacked == (q[i].sacked || CoveredBy(blocks, q[i]))
    ensures Marks(q', at, m + Covering(blocks, q, at))
  {
    hide CoveredBy;
    var m' := m + Covering(blocks, q, at);
    forall i | 0 <= i < |q'| && i < |at| && q'[i].sacked
      ensures Contains(m', at[i], at[i] + |q'[i].data|)
    {
      if q[i].sacked {
        assert Contains(m, at[i], at[i] + |q[i].data|);
      }
    }
  }

  lemma CoveringNothing(q: seq<Unacked>, at: seq<int>, ack: u32)
    ensures Covering(Regular([], ack), q, at) == iset{}
  {
  }

  /** Marks every entry that some block covers, and no other. */
  method MarkSacked(q: seq<Unacked>, blocks: seq<SackBlock>) returns (q': seq<Unacked>)
    ensures SameSegments(q, q')
    ensures forall i :: 0 <= i < |q| ==> q'[i] == q[i].(sacked := q[i].sacked || CoveredBy(blocks, q[i]))
  {
    q' := q;
    for i := 0 to |q|
      invariant |q'| == |q| && q'[i..] == q[i..]
      invariant forall k :: 0 <= k < i ==> q'[k] == q[k].(sacked := q[k].sacked || CoveredBy(blocks, q[k]))
    {
      assert q'[i] == q[i];
      if !q[i].sacked {
        var hit := AnyCovers(blocks, q[i]);
        if hit {
          q' := q'[i := q[i].(sacked := true)];
        }
      }
    }
  }

  method AnyCovers(blocks: seq<SackBlock>, e: Unacked) returns (hit: bool)
    ensures hit <==> CoveredBy(blocks, e)
  {
    for j := 0 to |blocks|
      invariant forall k :: 0 <= k < j ==> !Covers(blocks[k], e)
    {
      if Covers(blocks[j], e) {
        return true;
      }
    }
    hit := false;
  }

  /** Positions `p` and `q` carry the same number of wraps. */
  ghost predicate SameWrap(p: int, q: int) {
    p / TWO_32 == q / TWO_32
  }

  /** Within half the space, the raw comparison is the true one exactly when no boundary lies between. */
  lemma RawOrderIff(p: int, q: int)
    requires p != q && -TWO_31 < p - q < TWO_31
    ensures (Wrap(p) <= Wrap(q) <==> p <= q) <==> SameWrap(p, q)
  {
  }

  /**
   What the raw test computes, for numbers within half the space: each of its two comparisons is
   right exactly when no 2^32 boundary lies between the numbers compared, and wrong otherwise.
   */
  lemma CoversMeans(e: Unacked, a: int, n: int, lo: int, hi: int)
    requires e.sn == Wrap(a) && |e.data| == n
    requires -TWO_31 < a - lo < TWO_31 && -TWO_31 < a + n - hi < TWO_31
    ensures Covers(SackBlock(Wrap(lo), Wrap(hi)), e) <==>
            (lo <= a <==> SameWrap(lo, a)) && (a + n <= hi <==> SameWrap(a + n, hi))
  {
    hide Add, SameWrap;
    WrapDistributes(a, n);
    if a != lo {
      RawOrderIff(lo, a);
    } else {
      assert SameWrap(lo, a) by { RawOrderReflexive(a); }
    }
    if a + n != hi {
      RawOrderIff(a + n, hi);
    } else {
      assert SameWrap(a + n, hi) by { RawOrderReflexive(hi); }
    }
  }

  lemma RawOrderReflexive(p: int)
    ensures SameWrap(p, p)
  {
  }

  /** So one test is containment exactly when its comparisons are right, or when a wrong one does not change the outcome. */
  lemma ContainmentIff(e: Unacked, a: int, n: int, lo: int, hi: int)
    requires e.sn == Wrap(a) && |e.data| == n
    requires -TWO_31 < a - lo < TWO_31 && -TWO_31 < a + n - hi < TWO_31
    ensures (Covers(SackBlock(Wrap(lo), Wrap(hi)), e) <==> lo <= a && a + n <= hi) <==>
            if lo <= a && a + n <= hi then SameWrap(lo, a) && SameWrap(a + n, hi)
            else (lo <= a <==> !SameWrap(lo, a)) || (a + n <= hi <==> !SameWrap(a + n, hi))
  {
    hide Covers, SameWrap, Wrap;
    CoversMeans(e, a, n, lo, hi);
  }

  /** In particular while nothing crosses the boundary. */
  lemma CoversExact(e: Unacked, a: int, n: int, lo: int, hi: int)
    requires e.sn == Wrap(a) && |e.data| == n
    requires -TWO_31 < a - lo < TWO_31 && -TWO_31 < a + n - hi < TWO_31
    requires SameWrap(lo, a) && SameWrap(a + n, hi)
    ensures Covers(SackBlock(Wrap(lo), Wrap(hi)), e) <==> lo <= a && a + n <= hi
  {
    CoversMeans(e, a, n, lo, hi);
  }

  /** Across it, an entry can be marked although its tail is missing, or left although it is held. */
  lemma CoversFailsAcrossBoundary()
    ensures var b := SackBlock(Wrap(TWO_32 - 20), Wrap(TWO_32 - 5));
            Covers(b, Unacked(Wrap(TWO_32 - 10), seq(20, _ => 0), false, false, false))
    ensures var b := SackBlock(Wrap(TWO_32 - 5), Wrap(TWO_32 + 9));
            !Covers(b, Unacked(Wrap(TWO_32 + 3), [0], false, false, false))
  {
  }

  /** How many entries after the first `i` are marked. */
  function MarkedFrom(q: seq<Unacked>, i: nat): nat
    requires i <= |q|
    decreases |q| - i
  {
    if i == |q| then 0 else (if q[i].sacked then 1 else 0) + MarkedFrom(q, i + 1)
  }

  /** Three or more marked entries lie above an entry that is neither marked nor already resent. */
  predicate Lost(q: seq<Unacked>, i: nat)
    requires i < |q|
  {
    !q[i].sacked && !q[i].retransmitted && MarkedFrom(q, i + 1) >= 3
  }

  /** The counting loop of `sackLossDetection`. */
  method CountMarked(q: seq<Unacked>, i: nat) returns (n: nat)
    requires i <= |q|
    ensures n == MarkedFrom(q, i)
  {
    n := 0;
    for j := i to |q|
      invariant n + MarkedFrom(q, j) == MarkedFrom(q, i)
    {
      if q[j].sacked {
        n := n + 1;
      }
    }
  }

  /** Marks only count by their flags: resending entries before `k` changes nothing from `k` on. */
  lemma {:induction false} MarkedFromFlags(q: seq<Unacked>, q': seq<Unacked>, i: nat)
    requires |q| == |q'| && i <= |q| && forall k :: i <= k < |q| ==> q'[k].sacked == q[k].sacked
    ensures MarkedFrom(q', i) == MarkedFrom(q, i)
    decreases |q| - i
  {
    if i < |q| {
      MarkedFromFlags(q, q', i + 1);
    }
  }

  /** A FIN is never taken for lost: nothing lies above it. So every resent entry has data. */
  lemma LostHasData(q: seq<Unacked>, at: seq<int>, base: int, w: seq<byte>, i: nat)
    requires Tiles(q, at, base, w) && i < |q| && Lost(q, i)
    ensures !q[i].fin && q[i].data != []
  {
    if q[i].fin {
      FinIsLast(q, at, base, w, i);
    }
    assert Occupies(q[i], at[i], at[i + 1], base, w);
  }
}
