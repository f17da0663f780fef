/** Window scaling (section 2 of RFC 7323): the shift count and the window put on the wire. */
module Window {
  import opened Bytes

  const MAX_WND_SCALE: nat := 14
  const MAX_WND: nat := 0xFFFF

  function Pow2(n: nat): (p: nat)
    ensures p > 0
  {
    if n == 0 then 1 else 2 * Pow2(n - 1)
  }

  /** `x >> n` for a non-negative `x`: halved `n` times. */
  function Shift(x: nat, n: nat): nat {
    if n == 0 then x else Shift(x, n - 1) / 2
  }

  /** `w << n`. */
  function Units(w: nat, n: nat): nat {
    w * Pow2(n)
  }

  lemma UnitsStep(w: nat, n: nat)
    ensures Units(0, n) == 0 && Units(1, n) == Pow2(n) && Units(w + 1, n) == Units(w, n) + Pow2(n)
  {
    hide Pow2;
  }

  lemma {:induction false} ScaledIsLarger(w: nat, n: nat)
    requires w > 0 && n > 0
    ensures Units(w, n) > w == Units(w, 0)
  {
    hide Units;
    assert Pow2(n) >= 2 && Pow2(0) == 1;
    UnitsStep(w - 1, n);
    UnitsStep(w - 1, 0);
    if w > 1 {
      ScaledIsLarger(w - 1, n);
    }
  }

  lemma {:induction false} UnitsOrder(a: nat, b: nat, n: nat)
    requires a <= b
    ensures Units(a, n) <= Units(b, n)
    decreases b
  {
    hide Units, Pow2;
    if a < b {
      UnitsOrder(a, b - 1, n);
      UnitsStep(b - 1, n);
    }
  }

  lemma DoubleUnits(w: nat, n: nat)
    ensures Units(w, n + 1) == Units(2 * w, n)
  {
    assert Pow2(n + 1) == 2 * Pow2(n);
  }

  /** Shifting down and up again loses less than one unit. */
  lemma {:induction false} ShiftBounds(x: nat, n: nat)
    ensures Units(Shift(x, n), n) <= x < Units(Shift(x, n) + 1, n)
  {
    if n > 0 {
      hide Units, Pow2;
      var half := Shift(x, n - 1);
      ShiftBounds(x, n - 1);
      DoubleUnits(half / 2, n - 1);
      DoubleUnits(half / 2 + 1, n - 1);
      UnitsOrder(2 * (half / 2), half, n - 1);
      UnitsOrder(half + 1, 2 * (half / 2 + 1), n - 1);
    }
  }

  /** A value shifts to at most `w` exactly when it lies below `w + 1` units. */
  lemma ShiftAtMost(x: nat, n: nat, w: nat)
    ensures Shift(x, n) <= w <==> x < Units(w + 1, n)
  {
    hide Units, Shift, Pow2;
    var q := Shift(x, n);
    ShiftBounds(x, n);
    if q <= w {
      UnitsOrder(q + 1, w + 1, n);
    } else {
      UnitsOrder(w + 1, q, n);
    }
  }

  lemma {:induction false} Pow2Grows(a: nat, b: nat)
    requires a <= b
    ensures Pow2(a) <= Pow2(b)
    decreases b
  {
    if a < b {
      Pow2Grows(a, b - 1);
    }
  }

  lemma {:induction false} Pow2AtLeast(n: nat)
    ensures Pow2(n) > n
  {
    if n > 0 {
      Pow2AtLeast(n - 1);
    }
  }

  lemma {:induction false} SixteenMore(n: nat)
    ensures Pow2(16 + n) == 65536 * Pow2(n)
  {
    if n == 0 {
      assert Pow2(8) == 256;
    } else {
      SixteenMore(n - 1);
    }
  }

  lemma FourteenBits()
    ensures Pow2(14) == 16384 && Pow2(0) == 1
  {
    assert Pow2(7) == 128;
  }

  /** A buffer of `size` bytes shifts out of a 16-bit window by `s` exactly while it is no smaller than 2^16 units. */
  lemma ShiftedOut(size: nat, s: nat)
    ensures Shift(size, 16 + s) > 0 <==> size >= 65536 * Pow2(s)
  {
    hide Units, Shift;
    ShiftAtMost(size, 16 + s, 0);
    UnitsStep(0, 16 + s);
    SixteenMore(s);
  }

  /** The smallest shift that brings a buffer of that size under 2^16 units, if one of at most 14 does. */
  method CalculateWindowScale(bufSize: int) returns (scale: nat)
    ensures scale <= MAX_WND_SCALE
    ensures bufSize < 65536 * Pow2(scale) <==> bufSize < 65536 * 16384
    ensures scale < MAX_WND_SCALE ==> bufSize < 65536 * Pow2(scale)
    ensures forall s :: 0 <= s < scale ==> bufSize >= 65536 * Pow2(s)
  {
    hide Shift, Pow2;
    FourteenBits();
    if bufSize <= MAX_WND {
      return 0;
    }
    scale := 0;
    while Shift(bufSize, 16 + scale) > 0
      invariant forall s :: 0 <= s < scale ==> bufSize >= 65536 * Pow2(s)
      decreases bufSize - scale
    {
      ShiftedOut(bufSize, scale);
      Pow2AtLeast(scale);
      scale := scale + 1;
    }
    ShiftedOut(bufSize, scale);
    if scale > MAX_WND_SCALE {
      scale := MAX_WND_SCALE;
    } else {
      Pow2Grows(scale, MAX_WND_SCALE);
    }
  }

  /** The window on the wire: nothing below the silly-window threshold, else the free space in units, saturated. */
  function Wnd(free: nat, cap: nat, mss: nat, scale: nat): (w: nat)
    ensures w <= MAX_WND
  {
    if free < Min(mss, cap / 2) then 0
    else if Shift(free, scale) > MAX_WND then MAX_WND
    else Shift(free, scale)
  }

  /** No amount of free space up to `limit` saturates the window exactly when `limit` is below 2^16 units. */
  lemma NeverSaturatedIff(limit: nat, scale: nat)
    ensures (forall free :: 0 <= free <= limit ==> Shift(free, scale) <= MAX_WND) <==> limit < 65536 * Pow2(scale)
  {
    hide Shift, Pow2;
    UnitsOf(65536, scale);
    ShiftAtMost(limit, scale, MAX_WND);
    forall free | 0 <= free <= limit
      ensures free < 65536 * Pow2(scale) ==> Shift(free, scale) <= MAX_WND
    {
      ShiftAtMost(free, scale, MAX_WND);
    }
  }

  lemma UnitsOf(w: nat, n: nat)
    ensures Units(w, n) == w * Pow2(n)
  {
  }

  /**
   The advertised window never promises more than the free space. Unless it is suppressed, it falls short by less
   than one unit exactly when the free space is below 2^16 units.
   */
  lemma NeverOverPromises(free: nat, cap: nat, mss: nat, scale: nat)
    ensures var promised := Units(Wnd(free, cap, mss, scale), scale);
            && promised <= free
            && (free >= Min(mss, cap / 2) ==> (free < promised + Pow2(scale) <==> free < Units(65536, scale)))
  {
    hide Shift, Pow2, Units;
    var q := Shift(free, scale);
    ShiftBounds(free, scale);
    ShiftAtMost(free, scale, MAX_WND);
    UnitsStep(q, scale);
    UnitsStep(MAX_WND, scale);
  }
}
