/**
 The circular byte buffer behind both directions of a connection: a fixed array with a read
 index, a write index and a `full` flag, refining a bounded FIFO queue of bytes.
 */
module Bytes {
  type byte = b: int | 0 <= b < 256

  function Min(a: int, b: int): int {
    if a < b then a else b
  }

  function Max(a: int, b: int): int {
    if a < b then b else a
  }

  /** A slice of a slice. */
  lemma SubSlice(s: seq<byte>, p: int, data: seq<byte>, lo: int, hi: int)
    requires 0 <= p <= lo <= hi <= p + |data| <= |s| && data == s[p..p + |data|]
    ensures data[lo - p..hi - p] == s[lo..hi]
  {
    forall i | 0 <= i < hi - lo
      ensures data[lo - p..hi - p][i] == s[lo..hi][i]
    {
      assert data[lo - p + i] == s[p..p + |data|][lo - p + i];
    }
  }
}

module Ring {
  import opened Bytes

  /** The index `i` places after `r` in a circular buffer of `cap` slots: `(r + i) % cap`. */
  function Slot(cap: nat, r: nat, i: nat): (k: nat)
    requires r < cap && i <= cap
    ensures k < cap
  {
    if r + i < cap then r + i else r + i - cap
  }

  /** How far `w` lies ahead of `r` circularly: `(w - r + cap) % cap`. */
  function Distance(cap: nat, r: nat, w: nat): (n: nat)
    requires r < cap && w < cap
    ensures n < cap && Slot(cap, r, n) == w
  {
    if r <= w then w - r else w - r + cap
  }

  /** The two index functions are the remainders the code computes. */
  lemma IndicesAreRemainders(cap: nat, r: nat, i: nat, w: nat)
    requires r < cap && w < cap && i <= cap
    ensures Slot(cap, r, i) == (r + i) % cap
    ensures Distance(cap, r, w) == (w - r + cap) % cap
  {
    RemainderOnce(r + i, cap);
    RemainderOnce(w - r + cap, cap);
  }

  lemma RemainderOnce(x: nat, m: nat)
    requires 0 < m && x < 2 * m
    ensures x % m == if x < m then x else x - m
  {
    if x >= m {
      assert x == 1 * m + (x - m);
      assert (x - m) % m == x - m;
    }
  }

  /** The `n` bytes that follow index `r` circularly. */
  ghost function Circular(b: seq<byte>, r: nat, n: nat): (s: seq<byte>)
    requires r < |b| && n <= |b|
    ensures |s| == n
  {
    seq(n, i requires 0 <= i < n => b[Slot(|b|, r, i)])
  }

  /** `b` with `p` stored circularly from index `w` on. */
  ghost function Overwrite(b: seq<byte>, w: nat, p: seq<byte>): (b': seq<byte>)
    requires w < |b| && |p| <= |b|
    ensures |b'| == |b|
  {
    seq(|b|, j requires 0 <= j < |b| => var d := Distance(|b|, w, j); if d < |p| then p[d] else b[j])
  }

  /** Storing `p` behind `n` stored bytes appends it to the stored queue. */
  lemma CircularAppend(b: seq<byte>, r: nat, n: nat, p: seq<byte>)
    requires r < |b| && n + |p| <= |b|
    ensures Circular(Overwrite(b, Slot(|b|, r, n), p), r, n + |p|) == Circular(b, r, n) + p
  {
  }

  /** Advancing the read index by `k` drops the first `k` stored bytes. */
  lemma CircularDrop(b: seq<byte>, r: nat, n: nat, k: nat)
    requires r < |b| && k <= n <= |b|
    ensures Circular(b, Slot(|b|, r, k), n - k) == Circular(b, r, n)[k..]
    ensures Circular(b, r, k) == Circular(b, r, n)[..k]
  {
  }

  class RingBuffer {
    var buf: array<byte>
    var r: nat
    var w: nat
    var full: bool
    var closed: bool

    ghost predicate Valid()
      reads this
    {
      r < buf.Length && w < buf.Length && (full ==> r == w)
    }

    /** The queue the buffer stands for, oldest byte first. */
    ghost function Contents(): (s: seq<byte>)
      reads this, buf
      requires Valid()
      ensures |s| == Len() == Cap() - Free()
    {
      Circular(buf[..], r, Len())
    }

    function Cap(): nat
      reads this
    {
      buf.Length
    }

    function Len(): (n: nat)
      reads this
      requires Valid()
      ensures n <= buf.Length && w == Slot(buf.Length, r, n)
      ensures n == buf.Length <==> full
    {
      if full then buf.Length else Distance(buf.Length, r, w)
    }

    function Free(): nat
      reads this
      requires Valid()
    {
      buf.Length - Len()
    }

    constructor (size: nat)
      requires size > 0
      ensures Valid() && fresh(buf)
      ensures Contents() == [] && Cap() == size && !closed
    {
      buf := new byte[size](_ => 0);
      r, w, full, closed := 0, 0, false, false;
    }

    /** `copy(buf[w..], p)`, in two chunks when the write index wraps. */
    method CopyIn(p: seq<byte>)
      requires Valid() && |p| <= buf.Length
      modifies buf
      ensures buf[..] == Overwrite(old(buf[..]), w, p)
    {
      var first := Min(buf.Length - w, |p|);
      forall i | 0 <= i < first {
        buf[w + i] := p[i];
      }
      var second := |p| - first;
      forall i | 0 <= i < second {
        buf[i] := p[first + i];
      }
    }

    /** `copy(p, buf[r..])`, in two chunks when the stored bytes wrap. */
    method CopyOut(n: nat) returns (out: seq<byte>)
      requires Valid() && n <= buf.Length
      ensures out == Circular(buf[..], r, n)
    {
      var first := Min(buf.Length - r, n);
      out := buf[r..r + first];
      var second := n - first;
      if second > 0 {
        out := out + buf[..second];
      }
    }

    /**
     Copies `min(|p|, free)` bytes in behind the write index. The queue grows by exactly that
     prefix, except in the one case the code gets wrong: writing nothing into an empty buffer
     leaves `r == w` and raises `full`, so the buffer then claims `Cap()` bytes.
     */
    method WriteLocked(p: seq<byte>, free: nat) returns (n: nat)
      requires Valid() && free == Free()
      modifies this`w, this`full, buf
      ensures Valid() && n == Min(|p|, free)
      ensures n > 0 || old(Len()) > 0 ==> Contents() == old(Contents()) + p[..n]
      ensures n == 0 && old(Len()) == 0 ==> Len() == Cap()
    {
      n := Min(|p|, free);
      ghost var before, len := buf[..], Len();
      CopyIn(p[..n]);
      CircularAppend(before, r, len, p[..n]);
      w := Slot(buf.Length, w, n);
      if w == r {
        full := true;
      }
      assert n > 0 || len > 0 ==> Len() == len + n;
    }

    /**
     Copies out up to `k` bytes. The queue shrinks by exactly that prefix, except in the one
     case the code gets wrong: reading nothing from a full buffer clears `full`, which empties it.
     */
    method ReadLocked(k: nat, avail: nat) returns (out: seq<byte>)
      requires Valid() && avail == Len()
      modifies this`r, this`full
      ensures Valid() && |out| == Min(k, avail)
      ensures out == old(Contents())[..|out|]
      ensures |out| > 0 || !old(full) ==> Contents() == old(Contents())[|out|..]
      ensures |out| == 0 && old(full) ==> Contents() == []
    {
      var n := Min(k, avail);
      out := CopyOut(n);
      CircularDrop(buf[..], r, avail, n);
      r := Slot(buf.Length, r, n);
      full := false;
      assert n > 0 || !old(full) ==> Len() == avail - n;
    }

    /** Non-blocking write of a non-empty slice: appends what fits, or nothing once closed. */
    method WriteNoBlock(p: seq<byte>) returns (n: nat)
      requires Valid()
      modifies this`w, this`full, buf
      ensures n == if old(closed) then 0 else Min(|p|, old(Free()))
      ensures Valid()
      ensures Contents() == old(Contents()) + p[..n] <==> p != [] || old(closed) || old(Len()) > 0
      ensures p == [] && !old(closed) && old(Len()) == 0 ==> full
    {
      if closed {
        return 0;
      }
      var free := buf.Length - Len();
      if free == 0 {
        return 0;
      }
      n := WriteLocked(p, free);
    }

    /** Non-blocking read into a slice of `k` bytes. */
    method ReadNoBlock(k: nat) returns (out: seq<byte>)
      requires Valid()
      modifies this`r, this`full
      ensures Valid() && out == old(Contents())[..Min(k, old(Len()))]
      ensures Contents() == old(Contents())[|out|..] <==> k > 0 || !old(full)
      ensures k == 0 && old(full) ==> Contents() == []
    {
      var n := Len();
      if n == 0 {
        return [];
      }
      out := ReadLocked(k, n);
    }

    /** Reallocates to `newCap`, preserving the unread queue in every layout. */
    method Grow(newCap: nat)
      requires Valid()
      modifies this`buf, this`r, this`w, this`full
      ensures Valid() && (buf == old(buf) || fresh(buf))
      ensures Contents() == old(Contents())
      ensures Cap() == Max(old(Cap()), newCap)
    {
      var oldCap := buf.Length;
      if newCap <= oldCap {
        return;
      }
      var used := Len();
      var newBuf := new byte[newCap](_ => 0);
      if used > 0 {
        if r < w || (full && r == w) {
          if r < w {
            forall i | 0 <= i < w - r {
              newBuf[i] := buf[r + i];
            }
          } else {
            CopyWrapped(newBuf);
          }
        } else {
          CopyWrapped(newBuf);
        }
      }
      assert forall i :: 0 <= i < used ==> newBuf[i] == Contents()[i];
      buf := newBuf;
      r := 0;
      w := used;
      full := false;
    }

    /** The two-chunk copy of a wrapped or full buffer: `buf[r..]` and then `buf[..w]`. */
    method CopyWrapped(newBuf: array<byte>)
      requires Valid() && w <= r && newBuf != buf && newBuf.Length > buf.Length
      modifies newBuf
      ensures forall i :: 0 <= i < buf.Length - r + w ==> newBuf[i] == buf[Slot(buf.Length, r, i)]
    {
      var n := buf.Length - r;
      forall i | 0 <= i < n {
        newBuf[i] := buf[r + i];
      }
      forall i | 0 <= i < w {
        newBuf[n + i] := buf[i];
      }
    }

    method CloseWrite()
      requires Valid()
      modifies this`closed
      ensures closed && Valid() && Contents() == old(Contents()) && Free() == old(Free())
    {
      closed := true;
    }
  }
}
