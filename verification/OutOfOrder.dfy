/**
 The receiver's out-of-order list on unbounded stream positions: sorted, merged chunks above
 the next expected byte. The functions follow the receiver's list surgery step by step; the
 lemmas say what the list means, as a set of held positions of one peer stream.
 */
module OutOfOrder {
  import opened Bytes

  datatype Chunk = Chunk(pos: int, data: seq<byte>) {
    function End(): int {
      pos + |data|
    }
  }

  /** Position `x` is stored in some chunk of `g`. */
  ghost predicate Holds(g: seq<Chunk>, x: int) {
    exists i :: 0 <= i < |g| && g[i].pos <= x < g[i].End()
  }

  /** A real gap between any two chunks. */
  ghost predicate Separated(g: seq<Chunk>) {
    forall i, j :: 0 <= i < j < |g| ==> g[i].End() < g[j].pos
  }

  /** A non-empty piece of the stream `s`, at its place, above `lo` and ending by `hi`. */
  ghost predicate Cut(c: Chunk, s: seq<byte>, lo: int, hi: int) {
    && c.data != [] && 0 <= c.pos && c.End() <= |s| && c.data == s[c.pos..c.End()]
    && lo < c.pos && c.End() <= hi
  }

  ghost predicate AllCut(g: seq<Chunk>, s: seq<byte>, lo: int, hi: int) {
    forall i :: 0 <= i < |g| ==> Cut(g[i], s, lo, hi)
  }

  /** Extends `a` by the part of `b` beyond its end, when the two touch. */
  function Join(a: Chunk, b: Chunk): Chunk
    requires a.pos <= b.pos <= a.End()
  {
    if b.End() > a.End() then Chunk(a.pos, a.data + b.data[a.End() - b.pos..]) else a
  }

  lemma JoinCut(a: Chunk, b: Chunk, s: seq<byte>, lo: int, hi: int)
    requires a.pos <= b.pos <= a.End()
    requires Cut(a, s, lo, hi) && Cut(b, s, lo, hi)
    ensures Cut(Join(a, b), s, lo, hi)
    ensures Join(a, b).End() == Max(a.End(), b.End())
  {
  }

  /** Chunk `i` may reach into the ones after it; all other pairs are separated. */
  ghost predicate Pending(g: seq<Chunk>, i: nat) {
    && i < |g|
    && (forall j, k :: 0 <= j < k < |g| && j != i ==> g[j].End() < g[k].pos)
    && (forall k :: i < k < |g| ==> g[i].pos <= g[k].pos)
  }

  /** Swallows the chunks after `i` that chunk `i` reaches. */
  function Absorb(g: seq<Chunk>, i: nat): (r: seq<Chunk>)
    requires i < |g| && forall k :: i < k < |g| ==> g[i].pos <= g[k].pos
    decreases |g|
  {
    if i + 1 < |g| && g[i + 1].pos <= g[i].End() then
      Absorb(Swallow(g, i), i)
    else
      g
  }

  function Swallow(g: seq<Chunk>, i: nat): (r: seq<Chunk>)
    requires i + 1 < |g| && g[i].pos <= g[i + 1].pos <= g[i].End()
  {
    g[..i] + [Join(g[i], g[i + 1])] + g[i + 2..]
  }

  /** One swallowing step keeps the pending shape. */
  lemma SwallowPending(g: seq<Chunk>, i: nat)
    requires Pending(g, i) && i + 1 < |g| && g[i + 1].pos <= g[i].End()
    requires forall k :: 0 <= k < |g| ==> g[k].data != []
    ensures Pending(Swallow(g, i), i)
  {
    var r := Swallow(g, i);
    assert forall k :: 0 <= k < |r| && k != i ==> r[k] == if k < i then g[k] else g[k + 1];
    assert r[i].pos == g[i].pos;
  }

  lemma SwallowCut(g: seq<Chunk>, i: nat, s: seq<byte>, lo: int, hi: int)
    requires AllCut(g, s, lo, hi)
    requires i + 1 < |g| && g[i].pos <= g[i + 1].pos <= g[i].End()
    ensures AllCut(Swallow(g, i), s, lo, hi)
  {
    JoinCut(g[i], g[i + 1], s, lo, hi);
  }

  lemma SwallowHolds(g: seq<Chunk>, i: nat, x: int)
    requires i + 1 < |g| && g[i].pos <= g[i + 1].pos <= g[i].End()
    ensures Holds(Swallow(g, i), x) <==> Holds(g, x)
  {
    var r := Swallow(g, i);
    if Holds(g, x) {
      var k :| 0 <= k < |g| && g[k].pos <= x < g[k].End();
      if k <= i {
        assert r[k].pos <= x < r[k].End();
      } else {
        assert r[k - 1].pos <= x < r[k - 1].End();
      }
    }
    if Holds(r, x) {
      var k :| 0 <= k < |r| && r[k].pos <= x < r[k].End();
      if k < i {
        assert g[k] == r[k];
      } else if k > i {
        assert g[k + 1] == r[k];
      } else {
        assert x < g[i].End() || g[i + 1].pos <= x < g[i + 1].End();
      }
    }
  }

  lemma {:induction false} AbsorbSound(g: seq<Chunk>, i: nat, s: seq<byte>, lo: int, hi: int)
    requires Pending(g, i) && AllCut(g, s, lo, hi)
    ensures Separated(Absorb(g, i)) && AllCut(Absorb(g, i), s, lo, hi)
    decreases |g|
  {
    if i + 1 < |g| && g[i + 1].pos <= g[i].End() {
      SwallowPending(g, i);
      SwallowCut(g, i, s, lo, hi);
      AbsorbSound(Swallow(g, i), i, s, lo, hi);
    }
  }

  lemma {:induction false} AbsorbHolds(g: seq<Chunk>, i: nat, x: int)
    requires i < |g| && forall k :: i < k < |g| ==> g[i].pos <= g[k].pos
    ensures Holds(Absorb(g, i), x) <==> Holds(g, x)
    decreases |g|
  {
    if i + 1 < |g| && g[i + 1].pos <= g[i].End() {
      SwallowHolds(g, i, x);
      AbsorbHolds(Swallow(g, i), i, x);
    }
  }

  /** How many chunks start below `p`: the insertion point. */
  function Rank(g: seq<Chunk>, p: int): (i: nat)
    ensures i <= |g|
    ensures forall k :: 0 <= k < i ==> g[k].pos < p
    ensures i < |g| ==> g[i].pos >= p
  {
    if g == [] || g[0].pos >= p then 0 else
    var r := Rank(g[1..], p);
    assert forall k :: 1 <= k < r + 1 ==> g[k] == g[1..][k - 1];
    1 + r
  }

  /** `c` lies inside one stored chunk. */
  ghost predicate Covered(g: seq<Chunk>, c: Chunk) {
    exists i :: 0 <= i < |g| && g[i].pos <= c.pos && c.End() <= g[i].End()
  }

  /** Placing `c` at its insertion point, merging it into the predecessor it touches. */
  function Place(g: seq<Chunk>, c: Chunk): (r: (seq<Chunk>, nat))
    ensures r.1 < |r.0|
  {
    var i := Rank(g, c.pos);
    if i > 0 && g[i - 1].End() >= c.pos then
      (g[i - 1 := Join(g[i - 1], c)], i - 1)
    else if i < |g| && g[i].pos == c.pos then
      (g[i := c], i)
    else
      (g[..i] + [c] + g[i..], i)
  }

  lemma PlacePending(g: seq<Chunk>, c: Chunk)
    requires Separated(g) && forall k :: 0 <= k < |g| ==> g[k].data != []
    ensures Pending(Place(g, c).0, Place(g, c).1)
  {
    var i := Rank(g, c.pos);
    if i > 0 && g[i - 1].End() >= c.pos {
      ReplacePending(g, i - 1, Join(g[i - 1], c));
    } else {
      assert forall j :: 0 <= j < i - 1 ==> g[j].End() < g[i - 1].pos;
      if i < |g| && g[i].pos == c.pos {
        ReplacePending(g, i, c);
      } else {
        assert forall j :: i < j < |g| ==> g[i].End() < g[j].pos;
        InsertPending(g, i, c);
      }
    }
  }

  lemma ReplacePending(g: seq<Chunk>, i: nat, c: Chunk)
    requires Separated(g) && i < |g| && c.pos == g[i].pos
    ensures Pending(g[i := c], i)
  {
    var r := g[i := c];
    forall k | i < k < |r|
      ensures r[i].pos <= r[k].pos
    {
      assert g[i].End() < g[k].pos;
    }
  }

  lemma InsertPending(g: seq<Chunk>, i: nat, c: Chunk)
    requires Separated(g) && i <= |g|
    requires forall j :: 0 <= j < i ==> g[j].End() < c.pos
    requires forall j :: i <= j < |g| ==> c.pos <= g[j].pos
    ensures Pending(g[..i] + [c] + g[i..], i)
  {
    var r := g[..i] + [c] + g[i..];
    assert forall j :: 0 <= j < |r| && j != i ==> r[j] == if j < i then g[j] else g[j - 1];
  }

  lemma PlaceCut(g: seq<Chunk>, c: Chunk, s: seq<byte>, lo: int, hi: int)
    requires AllCut(g, s, lo, hi) && Cut(c, s, lo, hi)
    ensures AllCut(Place(g, c).0, s, lo, hi)
  {
    var i := Rank(g, c.pos);
    if i > 0 && g[i - 1].End() >= c.pos {
      JoinCut(g[i - 1], c, s, lo, hi);
    }
  }

  lemma PlaceHolds(g: seq<Chunk>, c: Chunk, x: int)
    requires Separated(g) && !Covered(g, c)
    ensures Holds(Place(g, c).0, x) <==> Holds(g, x) || c.pos <= x < c.End()
  {
    var i := Rank(g, c.pos);
    var (r, k) := Place(g, c);
    if i > 0 && g[i - 1].End() >= c.pos {
      ReplaceHolds(g, i - 1, r[i - 1], c, x);
    } else if i < |g| && g[i].pos == c.pos {
      assert c.End() > g[i].End();
      ReplaceHolds(g, i, c, c, x);
    } else {
      InsertHolds(g, i, c, x);
    }
  }

  lemma ReplaceHolds(g: seq<Chunk>, i: nat, n: Chunk, c: Chunk, x: int)
    requires i < |g|
    requires n.pos <= x < n.End() <==> g[i].pos <= x < g[i].End() || c.pos <= x < c.End()
    ensures Holds(g[i := n], x) <==> Holds(g, x) || c.pos <= x < c.End()
  {
    var r := g[i := n];
    if Holds(g, x) {
      var k :| 0 <= k < |g| && g[k].pos <= x < g[k].End();
      assert r[k].pos <= x < r[k].End();
    }
    if c.pos <= x < c.End() {
      assert r[i].pos <= x < r[i].End();
    }
    if Holds(r, x) {
      var k :| 0 <= k < |r| && r[k].pos <= x < r[k].End();
      assert k != i ==> g[k] == r[k];
    }
  }

  lemma InsertHolds(g: seq<Chunk>, i: nat, c: Chunk, x: int)
    requires i <= |g|
    ensures Holds(g[..i] + [c] + g[i..], x) <==> Holds(g, x) || c.pos <= x < c.End()
  {
    var r := g[..i] + [c] + g[i..];
    if Holds(g, x) {
      var k :| 0 <= k < |g| && g[k].pos <= x < g[k].End();
      assert r[if k < i then k else k + 1] == g[k];
    }
    if c.pos <= x < c.End() {
      assert r[i] == c;
    }
    if Holds(r, x) {
      var k :| 0 <= k < |r| && r[k].pos <= x < r[k].End();
      assert k < i ==> g[k] == r[k];
      assert k > i ==> g[k - 1] == r[k];
    }
  }

  /** The list after `insertOOO`, when the new chunk is not a duplicate. */
  function Insert(g: seq<Chunk>, c: Chunk): seq<Chunk>
    requires Pending(Place(g, c).0, Place(g, c).1)
  {
    Absorb(Place(g, c).0, Place(g, c).1)
  }

  /**
   Insertion keeps the list separated, cut from the stream and inside the window, and adds
   exactly the new chunk's positions.
   */
  lemma InsertSound(g: seq<Chunk>, c: Chunk, s: seq<byte>, lo: int, hi: int)
    requires Separated(g) && AllCut(g, s, lo, hi) && Cut(c, s, lo, hi) && !Covered(g, c)
    ensures Pending(Place(g, c).0, Place(g, c).1)
    ensures Separated(Insert(g, c)) && AllCut(Insert(g, c), s, lo, hi)
    ensures forall x :: Holds(Insert(g, c), x) <==> Holds(g, x) || c.pos <= x < c.End()
  {
    var (r, i) := Place(g, c);
    PlacePending(g, c);
    PlaceCut(g, c, s, lo, hi);
    AbsorbSound(r, i, s, lo, hi);
    forall x
      ensures Holds(Insert(g, c), x) <==> Holds(g, x) || c.pos <= x < c.End()
    {
      AbsorbHolds(r, i, x);
      PlaceHolds(g, c, x);
    }
  }

  /** A duplicate adds nothing: dropping it also adds exactly its positions. */
  lemma CoveredHolds(g: seq<Chunk>, c: Chunk, x: int)
    requires Covered(g, c)
    ensures Holds(g, x) <==> Holds(g, x) || c.pos <= x < c.End()
  {
  }

  /** The next expected position and the remaining list after `deliverOOO`. */
  function Drain(g: seq<Chunk>, nxt: int): (r: (int, seq<Chunk>))
    decreases |g|
  {
    if g == [] || g[0].pos > nxt then (nxt, g)
    else if g[0].End() <= nxt then Drain(g[1..], nxt)
    else Drain(g[1..], g[0].End())
  }

  /**
   Draining moves to the first position that is not held, keeps exactly the held positions
   above it, and leaves the list sorted, separated and strictly above the new position.
   */
  lemma {:induction false} DrainSound(g: seq<Chunk>, s: seq<byte>, lo: int, hi: int, nxt: int)
    requires Separated(g) && AllCut(g, s, lo, hi)
    ensures nxt <= Drain(g, nxt).0 <= Max(nxt, Min(hi, |s|))
    ensures Separated(Drain(g, nxt).1) && AllCut(Drain(g, nxt).1, s, Drain(g, nxt).0, hi)
    ensures forall x :: nxt <= x < Drain(g, nxt).0 ==> Holds(g, x)
    ensures !Holds(g, Drain(g, nxt).0)
    ensures forall x :: Holds(Drain(g, nxt).1, x) <==> Holds(g, x) && x > Drain(g, nxt).0
    decreases |g|
  {
    if g != [] {
      assert forall x :: Holds(g, x) <==> Holds(g[1..], x) || g[0].pos <= x < g[0].End() by {
        forall x {
          InsertHolds(g[1..], 0, g[0], x);
        }
        assert g[1..][..0] + [g[0]] + g[1..][0..] == g;
      }
      if g[0].pos > nxt {
        DrainStops(g, s, lo, hi, nxt);
      } else {
        DrainSound(g[1..], s, lo, hi, if g[0].End() <= nxt then nxt else g[0].End());
      }
    }
  }

  lemma DrainStops(g: seq<Chunk>, s: seq<byte>, lo: int, hi: int, nxt: int)
    requires Separated(g) && AllCut(g, s, lo, hi)
    requires g != [] && g[0].pos > nxt
    ensures AllCut(g, s, nxt, hi)
    ensures forall x :: Holds(g, x) ==> x > nxt
  {
    forall i | 0 <= i < |g|
      ensures g[i].pos > nxt
    {
      assert i > 0 ==> g[0].End() < g[i].pos;
    }
  }
}
