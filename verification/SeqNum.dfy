/**
 32-bit sequence-number arithmetic (section 3.4 of RFC 9293) and its agreement
 with unbounded positions.
 */
module SeqNum {
  const TWO_31: int := 0x8000_0000
  const TWO_32: int := 0x1_0000_0000

  type u32 = x: int | 0 <= x < TWO_32

  /** A SACK block `[start, end)` as it travels on the wire. */
  datatype SackBlock = SackBlock(start: u32, end: u32)

  /** The wire value of an unbounded sequence position. */
  function Wrap(p: int): u32 {
    p % TWO_32
  }

  /** `a + b` and `a - b` on uint32. */
  function Add(a: u32, b: int): u32 {
    (a + b) % TWO_32
  }

  function Sub(a: u32, b: u32): u32 {
    (a - b) % TWO_32
  }

  /** `int32(x)`. */
  function Int32(x: u32): int {
    if x < TWO_31 then x else x - TWO_32
  }

  predicate SeqGreaterThan(a: u32, b: u32) {
    Int32(Sub(a, b)) > 0
  }

  predicate SeqLessThan(a: u32, b: u32) {
    Int32(Sub(a, b)) < 0
  }

  predicate SeqWithinWindow(sn: u32, start: u32, wnd: u32) {
    !SeqLessThan(sn, start) && SeqLessThan(sn, Add(start, wnd))
  }

  lemma WrapSelf(x: u32)
    ensures Wrap(x) == x
  {
  }

  lemma ModShift(x: int, k: int)
    ensures (x + k * TWO_32) % TWO_32 == x % TWO_32
  {
    var q := x / TWO_32;
    assert x == q * TWO_32 + x % TWO_32;
    assert x + k * TWO_32 == (q + k) * TWO_32 + x % TWO_32;
  }

  /** Subtraction and addition commute with `Wrap`. */
  lemma WrapDistributes(p: int, q: int)
    ensures Sub(Wrap(p), Wrap(q)) == Wrap(p - q)
    ensures Add(Wrap(p), q) == Wrap(p + q)
  {
    var kp, kq := p / TWO_32, q / TWO_32;
    assert p == kp * TWO_32 + Wrap(p) && q == kq * TWO_32 + Wrap(q);
    assert p - q == (Wrap(p) - Wrap(q)) + (kp - kq) * TWO_32;
    ModShift(Wrap(p) - Wrap(q), kp - kq);
    assert p + q == (Wrap(p) + q) + kp * TWO_32;
    ModShift(Wrap(p) + q, kp);
  }

  /** The signed reading of a wrapped difference is the true difference while it fits in 32 bits. */
  lemma SignedDifference(p: int, q: int)
    requires -TWO_31 <= p - q < TWO_31
    ensures Int32(Sub(Wrap(p), Wrap(q))) == p - q
    ensures p >= q ==> Sub(Wrap(p), Wrap(q)) == p - q
  {
    WrapDistributes(p, q);
    if p < q {
      ModShift(p - q, 1);
      assert 0 <= p - q + TWO_32 < TWO_32;
    }
  }

  /**
   The wrapping comparisons decide the true order of positions that are less than one wrap
   apart exactly when those positions lie within half the sequence space of each other.
   */
  lemma OrderAgreesIff(p: int, q: int)
    requires -TWO_32 < p - q < TWO_32
    ensures (SeqLessThan(Wrap(p), Wrap(q)) <==> p < q) <==> -TWO_31 <= p - q < TWO_31
    ensures -TWO_31 <= p - q < TWO_31 ==> (SeqGreaterThan(Wrap(p), Wrap(q)) <==> p > q)
    ensures -TWO_31 <= p - q < TWO_31 ==> (Wrap(p) == Wrap(q) <==> p == q)
  {
    WrapDistributes(p, q);
    if -TWO_31 <= p - q < TWO_31 {
      SignedDifference(p, q);
    } else if p < q {
      ModShift(p - q, 1);
      assert 0 <= p - q + TWO_32 < TWO_31;
    }
  }

  /** The form used throughout: positions at most half the space apart. */
  lemma OrderAgrees(p: int, q: int)
    requires -TWO_31 <= p - q < TWO_31
    ensures SeqLessThan(Wrap(p), Wrap(q)) <==> p < q
    ensures SeqGreaterThan(Wrap(p), Wrap(q)) <==> p > q
    ensures Wrap(p) == Wrap(q) <==> p == q
    ensures if p >= q then Sub(Wrap(p), Wrap(q)) == p - q else Sub(Wrap(q), Wrap(p)) == q - p
  {
    OrderAgreesIff(p, q);
    SignedDifference(p, q);
    WrapDistributes(q, p);
  }

  /** Subtracting and adding back on the wire is the identity. */
  lemma AddSubInverse(a: u32, b: u32)
    ensures Wrap(a + Sub(b, a)) == b
  {
    var d := b - a;
    ModShift(b, if d < 0 then 1 else 0);
    assert Sub(b, a) == if d < 0 then d + TWO_32 else d;
  }

  lemma LessMeansAhead(a: u32, b: u32)
    requires SeqLessThan(a, b)
    ensures 0 < Sub(b, a) <= TWO_31
  {
    ModShift(a - b, if a < b then 1 else 0);
    ModShift(b - a, if b < a then 1 else 0);
  }

  /** Half the space apart, the two comparisons already contradict the true order. */
  lemma OrderFailsAtHalf()
    ensures SeqLessThan(Wrap(TWO_31), Wrap(0)) && !SeqGreaterThan(Wrap(TWO_31), Wrap(0))
  {
  }

  /** `seqWithinWindow` is membership in the window, for windows and offsets below half the space. */
  lemma WithinWindowAgrees(p: int, start: int, wnd: u32)
    requires wnd < TWO_31
    requires -TWO_31 <= p - start < TWO_31
    ensures SeqWithinWindow(Wrap(p), Wrap(start), wnd) <==> start <= p < start + wnd
  {
    OrderAgrees(p, start);
    WrapDistributes(start, wnd);
    if p >= start {
      OrderAgrees(p, start + wnd);
    }
  }
}
