/**
 Round-trip estimation (section 2 of RFC 6298) and the congestion window arithmetic
 (section 3 of RFC 5681, section 3.2 of RFC 6582) of the sender.
 */
module Congestion {
  import opened Bytes
  import opened SeqNum

  /** Smoothed round-trip time, its variation and the retransmission timeout, in clock ticks. */
  datatype Rtt = Rtt(srtt: nat, rttvar: nat, rto: int)

  function Abs(x: int): nat {
    if x < 0 then -x else x
  }

  /** Jacobson's update for one measurement. */
  function UpdateRTT(t: Rtt, measured: nat, minRTO: int, maxRTO: int): Rtt {
    var srtt := if t.srtt == 0 then measured else (7 * t.srtt + measured) / 8;
    var rttvar := if t.srtt == 0 then measured / 2 else (3 * t.rttvar + Abs(t.srtt - measured)) / 4;
    Rtt(srtt, rttvar, Min(Max(srtt + 4 * rttvar, minRTO), maxRTO))
  }

  /** The timeout after it has fired. */
  function Backoff(t: Rtt, maxRTO: int): Rtt {
    t.(rto := Min(t.rto * 2, maxRTO))
  }

  /** What happens to the estimator: a measurement, or a timeout. */
  datatype Tick = Sample(measured: nat) | Timeout

  function Run(t: Rtt, ticks: seq<Tick>, minRTO: int, maxRTO: int): Rtt
    decreases |ticks|
  {
    if ticks == [] then t
    else
      var t' := match ticks[0]
                case Sample(m) => UpdateRTT(t, m, minRTO, maxRTO)
                case Timeout => Backoff(t, maxRTO);
      Run(t', ticks[1..], minRTO, maxRTO)
  }

  /**
   Over every sequence of measurements and timeouts the timeout stays within its limits, and once
   measured the smoothed time stays between the smallest and the largest measurement.
   */
  lemma {:induction false} RunStaysInBounds(t: Rtt, ticks: seq<Tick>, minRTO: int, maxRTO: int, lo: nat, hi: nat)
    requires 0 < minRTO <= t.rto <= maxRTO
    requires lo <= hi && (t.srtt == 0 || lo <= t.srtt <= hi)
    requires forall i :: 0 <= i < |ticks| && ticks[i].Sample? ==> lo <= ticks[i].measured <= hi
    ensures var r := Run(t, ticks, minRTO, maxRTO);
            minRTO <= r.rto <= maxRTO && (r.srtt == 0 || lo <= r.srtt <= hi)
    decreases |ticks|
  {
    if ticks != [] {
      var t' := match ticks[0]
                case Sample(m) => UpdateRTT(t, m, minRTO, maxRTO)
                case Timeout => Backoff(t, maxRTO);
      assert ticks[0].Sample? ==> lo <= ticks[0].measured <= hi;
      RunStaysInBounds(t', ticks[1..], minRTO, maxRTO, lo, hi);
    }
  }

  /** The slow-start threshold after a loss. */
  function Threshold(cwnd: u32, mss: nat): nat {
    Max(cwnd / 2, 2 * mss)
  }

  /** Window growth for a new acknowledgement outside recovery, on uint32. */
  function Grown(cwnd: u32, ssthresh: u32, mss: nat, acked: nat): u32
    requires cwnd < ssthresh || cwnd > 0
  {
    if cwnd < ssthresh then Min(Add(cwnd, acked), ssthresh)
    else Add(cwnd, Max((mss * acked) % TWO_32 / cwnd, 1))
  }

  /** By how much the window grows before any wrap-around. */
  function Growth(cwnd: u32, ssthresh: u32, mss: nat, acked: nat): nat
    requires cwnd < ssthresh || cwnd > 0
  {
    if cwnd < ssthresh then acked else Max((mss * acked) % TWO_32 / cwnd, 1)
  }

  /** While the 32-bit sum does not wrap, growing never takes the window below one segment. */
  lemma GrownKeepsOneSegment(cwnd: u32, ssthresh: u32, mss: nat, acked: nat)
    requires 0 < mss <= cwnd && cwnd + Growth(cwnd, ssthresh, mss, acked) < TWO_32
    ensures cwnd <= Grown(cwnd, ssthresh, mss, acked)
  {
  }

  /** One more segment per duplicate: at least one segment remains exactly when the sum does not wrap. */
  lemma InflateKeepsOneSegmentIff(cwnd: u32, mss: nat)
    requires 0 < mss <= cwnd && mss <= 65535
    ensures Add(cwnd, mss) >= mss <==> cwnd + mss < TWO_32
  {
  }

  /** Entering recovery cannot wrap. */
  lemma RecoveryWindow(cwnd: u32, mss: nat)
    requires 0 < mss <= 65535
    ensures Threshold(cwnd, mss) + 3 * mss < TWO_32
  {
  }

  /** The window never grows by more than what was acknowledged, or by one. */
  lemma GrowthBounded(cwnd: u32, ssthresh: u32, mss: nat, acked: nat)
    requires 0 < mss <= cwnd
    ensures Growth(cwnd, ssthresh, mss, acked) <= Max(acked, 1)
  {
    var x := (mss * acked) % TWO_32;
    assert x <= mss * acked <= cwnd * acked;
    QuotientBound(x, cwnd, acked);
  }

  lemma QuotientBound(x: nat, c: nat, k: nat)
    requires c > 0 && x <= c * k
    ensures x / c <= k
  {
    assert c * (x / c) <= c * k;
    assert c * (x / c - k) <= 0;
  }
}
