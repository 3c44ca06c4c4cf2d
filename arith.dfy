/** Integer facts the coding arithmetic leans on, stated once with the
 *  divisor as a parameter so that the solver does not meet the place-value
 *  definitions while proving them. */
module Arith {
  lemma MulMonotone(a: int, b: int, c: int)
    requires a >= 0 && b <= c
    ensures a * b <= a * c
  {}

  /** Appending the digit k - 1 to a number p - 1 of all-(k-1) digits. */
  lemma TopDigitStep(k: int, p: int, v: int, w: int)
    requires v == p - 1 && w == v * k + (k - 1)
    ensures w == k * p - 1
  {}

  /** Floor division pins down the quotient: q is n / d exactly when
   *  q*d <= n < q*d + d. */
  lemma FloorIs(n: int, d: int, q: int)
    requires d > 0
    ensures n / d == q <==> q * d <= n < q * d + d
    ensures q * d <= n < q * d + d ==> n % d == n - q * d
  {
    var r := n / d;
    assert r * d <= n < r * d + d;
    if q * d <= n < q * d + d {
      if q < r {
        MulMonotone(d, q + 1, r);
        assert false;
      } else if q > r {
        MulMonotone(d, r + 1, q);
        assert false;
      }
    }
  }

  /** The remainder of n by d is the offset from the block q*d that holds n. */
  lemma NextMultiple(x: int, m: int)
    ensures (x + 1) * m == x * m + m
  {}

  /** One more low digit keeps a number below the next power. */
  lemma DigitBelow(k: int, v: int, t: int, x: int)
    requires 0 <= v < t && 0 <= x < k
    ensures 0 <= v * k + x < k * t
  {
    MulMonotone(k, v, t - 1);
    MulMonotone(k, 0, v);
  }

  /** Floor division keeps order. */
  lemma QuotientOrder(lo: int, hi: int, p: int)
    requires p > 0 && lo <= hi
    ensures lo / p <= hi / p
  {
    var l, h := lo / p, hi / p;
    FloorIs(lo, p, l);
    FloorIs(hi, p, h);
    if h < l {
      MulMonotone(p, h + 1, l);
    }
  }

  lemma ModIs(n: int, d: int, q: int)
    requires d > 0 && q * d <= n < q * d + d
    ensures n % d == n - q * d
  {
    FloorIs(n, d, q);
  }

  lemma DivBounds(x: int, d: int)
    requires x >= 0 && d > 0
    ensures 0 <= x / d <= x && 0 <= x % d < d
  {
    var q := x / d;
    FloorIs(x, d, q);
    if q < 0 {
      MulMonotone(d, q, -1);
      assert false;
    }
    MulMonotone(q, 1, d);
  }

  /** `Math.ceil(y / 256) <= o` exactly when y <= 256*o. */
  lemma CeilDivAtMost(y: int, o: int)
    requires y >= 0
    ensures (y + 255) / 256 <= o <==> y <= 256 * o
  {}

  /** Cancelling a positive factor from a strict inequality. */
  lemma LessByFactor(u: int, v: int, p: int)
    requires p > 0 && u * p < v * p
    ensures u < v
  {
    if u >= v {
      MulMonotone(p, v, u);
      assert false;
    }
  }

  /** A point of block a at or above d*p has a >= d. */
  lemma BlockAtLeast(p: int, d: int, a: int, x: int)
    requires p > 0 && d * p <= x < a * p + p
    ensures d <= a
  {
    assert a * p + p == (a + 1) * p;
    LessByFactor(d, a + 1, p);
  }

  /** Within one block [a*p, a*p + p) the remainder is the offset from the
   *  block start, so dropping the block digit and scaling by k is affine. */
  lemma ShiftArith(k: int, p: int, x: int, a: int)
    requires p > 0 && a * p <= x < a * p + p
    ensures x / p == a && x % p == x - a * p
    ensures (x % p) * k == k * x - a * (k * p)
  {
    FloorIs(x, p, a);
  }

  /** The same for the top end of a window, which gets a low digit k - 1. */
  lemma ShiftUpperArith(k: int, p: int, x: int, a: int)
    requires p > 0 && a * p <= x < a * p + p
    ensures (x % p) * k + (k - 1) + 1 == k * (x + 1) - a * (k * p)
  {
    ShiftArith(k, p, x, a);
  }

  /** Removing the second digit of a point of an interval [lo, hi] whose
   *  leading digits are a and a + 1 and whose two-digit prefixes differ by
   *  one is the affine map x -> k*x - (a + 1)*(k - 1)*p1. */
  lemma FoldArith(k: int, p1: int, p2: int, lo: int, hi: int, x: int, a: int, l2: int)
    requires k >= 2 && p2 > 0 && p1 == k * p2
    requires lo <= x <= hi
    requires a * p1 <= lo < a * p1 + p1 && (a + 1) * p1 <= hi < (a + 1) * p1 + p1
    requires l2 * p2 <= lo < l2 * p2 + p2 && (l2 + 1) * p2 <= hi < (l2 + 1) * p2 + p2
    ensures l2 == a * k + k - 1
    ensures x - x % p1 + (x % p2) * k == k * x - (a + 1) * (k - 1) * p1
  {
    FoldSecondPrefix(k, p1, p2, lo, hi, a, l2);
    if x < (a + 1) * p1 {
      FoldLowerPoint(k, p1, p2, x, a, l2);
    } else {
      FoldUpperPoint(k, p1, p2, x, a, l2);
    }
  }

  /** A point in the lower leading-digit block a. */
  lemma FoldLowerPoint(k: int, p1: int, p2: int, x: int, a: int, l2: int)
    requires k >= 2 && p2 > 0 && p1 == k * p2 && l2 == a * k + k - 1
    requires a * p1 <= x < (a + 1) * p1 && l2 * p2 <= x < l2 * p2 + p2
    ensures x - x % p1 + (x % p2) * k == k * x - (a + 1) * (k - 1) * p1
  {
    ShiftArith(k, p1, x, a);
    ShiftArith(k, p2, x, l2);
    FoldLowerPart(k, p1, p2, x, a);
  }

  /** A point in the upper leading-digit block a + 1. */
  lemma FoldUpperPoint(k: int, p1: int, p2: int, x: int, a: int, l2: int)
    requires k >= 2 && p2 > 0 && p1 == k * p2 && l2 == a * k + k - 1
    requires (a + 1) * p1 <= x < (a + 1) * p1 + p1 && (l2 + 1) * p2 <= x < (l2 + 1) * p2 + p2
    ensures x - x % p1 + (x % p2) * k == k * x - (a + 1) * (k - 1) * p1
  {
    ShiftArith(k, p1, x, a + 1);
    assert (l2 + 1) * p2 == (a + 1) * p1 by {
      assert l2 + 1 == (a + 1) * k;
    }
    ShiftArith(k, p2, x, l2 + 1);
    FoldUpperPart(k, p1, p2, x, a);
  }

  lemma FoldSecondPrefix(k: int, p1: int, p2: int, lo: int, hi: int, a: int, l2: int)
    requires k >= 2 && p2 > 0 && p1 == k * p2
    requires a * p1 <= lo && (a + 1) * p1 <= hi
    requires l2 * p2 <= lo < l2 * p2 + p2 && hi < (l2 + 1) * p2 + p2
    requires lo < (a + 1) * p1
    ensures l2 == a * k + k - 1
  {
    var c := a * k + k;
    assert (a + 1) * p1 == c * p2;
    LessByFactor(l2, c, p2);
    assert c * p2 < (l2 + 2) * p2;
    LessByFactor(c, l2 + 2, p2);
  }

  lemma FoldLowerPart(k: int, p1: int, p2: int, x: int, a: int)
    requires p1 == k * p2
    ensures a * p1 + (k * x - (a * k + k - 1) * (k * p2)) == k * x - (a + 1) * (k - 1) * p1
  {
    assert (a * k + k - 1) * (k * p2) == (a * k + k - 1) * p1;
  }

  lemma FoldUpperPart(k: int, p1: int, p2: int, x: int, a: int)
    requires p1 == k * p2
    ensures (a + 1) * p1 + (k * x - ((a + 1) * k) * (k * p2)) == k * x - (a + 1) * (k - 1) * p1
  {
    assert ((a + 1) * k) * (k * p2) == ((a + 1) * k) * p1;
  }

  /** A remainder scaled by k stays in [0, k*p - k]; with a low digit k - 1
   *  appended it stays in [k - 1, k*p - 1]. */
  lemma ShiftPointRange(k: int, p: int, x: int)
    requires k >= 1 && p > 0
    ensures 0 <= (x % p) * k <= k * p - k
    ensures k - 1 <= (x % p) * k + (k - 1) <= k * p - 1
  {
    MulMonotone(k, x % p, p - 1);
  }

  /** Dropping the common leading digit a of an interval and scaling by k
   *  scales its width by k. */
  lemma ShiftBlock(k: int, p: int, a: int, lo: int, hi: int)
    requires k >= 1 && p > 0
    requires a * p <= lo < a * p + p && a * p <= hi < a * p + p
    ensures lo / p == a && hi / p == a
    ensures ((hi % p) * k + (k - 1)) + 1 - (lo % p) * k == k * (hi + 1 - lo)
  {
    ShiftArith(k, p, lo, a);
    ShiftArith(k, p, hi, a);
  }

  /** A multiple of t inside block a of size t*u stays, after dropping the
   *  block digit and scaling by k, a multiple of k*t. */
  lemma AlignedLow(k: int, t: int, u: int, a: int, x: int)
    requires k >= 1 && t > 0 && u > 0
    requires x % t == 0 && a * (t * u) <= x < a * (t * u) + t * u
    ensures ((x % (t * u)) * k) % (k * t) == 0
  {
    var q := x / t;
    FloorIs(x, t, q);
    ShiftArith(k, t * u, x, a);
    var y := (x % (t * u)) * k;
    assert y == (q - a * u) * (k * t) by {
      assert x % (t * u) == (q - a * u) * t;
    }
    FloorIs(y, k * t, q - a * u);
  }

  /** One below a multiple of t stays, after the same step with low digit
   *  k - 1, one below a multiple of k*t. */
  lemma AlignedHigh(k: int, t: int, u: int, a: int, x: int)
    requires k >= 1 && t > 0 && u > 0
    requires x % t == t - 1 && a * (t * u) <= x < a * (t * u) + t * u
    ensures ((x % (t * u)) * k + (k - 1)) % (k * t) == k * t - 1
  {
    var q := x / t;
    FloorIs(x, t, q);
    ShiftArith(k, t * u, x, a);
    var y := (x % (t * u)) * k + (k - 1);
    assert y == (q - a * u) * (k * t) + (k * t - 1) by {
      assert x % (t * u) == (q - a * u) * t + (t - 1);
    }
    FloorIs(y, k * t, q - a * u);
  }

  /** Ends aligned to the full window size m are 0 or m below and m - 1 above. */
  lemma FullyAligned(m: int, lo: int, hi: int)
    requires m > 0 && 0 <= lo <= m && 0 <= hi < m
    requires lo % m == 0 && hi % m == m - 1
    ensures hi == m - 1 && (lo == 0 || lo == m)
  {
    FloorIs(hi, m, 0);
    if lo < m {
      FloorIs(lo, m, 0);
    }
  }

  /** Neither [0, m - 1] nor (m, m - 1) lies within one block of size p when
   *  m = k*p. */
  lemma FullWindowSpansBlocks(k: int, p: int, a: int, lo: int)
    requires k >= 2 && p > 0
    requires lo == 0 || lo == k * p
    ensures !(a * p <= lo < a * p + p && a * p <= k * p - 1 < a * p + p)
  {
    if a * p <= lo < a * p + p && a * p <= k * p - 1 < a * p + p {
      if lo == 0 {
        LessByFactor(0, a + 1, p);
        MulMonotone(p, 1, a);
        assert false;
      } else {
        LessByFactor(a, k, p);
        LessByFactor(k, a + 1, p);
        assert false;
      }
    }
  }

  /** Shifting the empty interval (k*p, k*p - 1) gives the full window. */
  lemma TopShift(k: int, p: int)
    requires k >= 1 && p > 0
    ensures ((k * p) % p) * k == 0
    ensures ((k * p - 1) % p) * k + (k - 1) == k * p - 1
  {
    FloorIs(k * p, p, k);
    FloorIs(k * p - 1, p, k - 1);
  }

  /** A fold keeps the interval inside the blocks a and a + 1 and scales its
   *  width by k. */
  lemma FoldBlock(k: int, p1: int, p2: int, a: int, l2: int, lo: int, hi: int)
    requires k >= 2 && p2 > 0 && p1 == k * p2 && 0 <= lo <= hi < k * p1
    requires a * p1 <= lo < a * p1 + p1 && (a + 1) * p1 <= hi < (a + 1) * p1 + p1
    requires l2 * p2 <= lo < l2 * p2 + p2 && (l2 + 1) * p2 <= hi < (l2 + 1) * p2 + p2
    ensures 0 <= a * p1 <= lo - lo % p1 + (lo % p2) * k < a * p1 + p1
    ensures (a + 1) * p1 <= hi - hi % p1 + (hi % p2) * k + (k - 1) < (a + 2) * p1 <= k * p1
    ensures (hi - hi % p1 + (hi % p2) * k + (k - 1)) + 1 - (lo - lo % p1 + (lo % p2) * k) == k * (hi + 1 - lo)
    ensures k * (hi + 1 - lo) >= 2
  {
    FoldLowEnd(k, p1, p2, a, lo);
    FoldHighEnd(k, p1, p2, a, hi);
    FoldWidth(k, p1, p2, a, l2, lo, hi);
  }

  lemma FoldLowEnd(k: int, p1: int, p2: int, a: int, lo: int)
    requires k >= 2 && p2 > 0 && p1 == k * p2 && 0 <= lo
    requires a * p1 <= lo < a * p1 + p1
    ensures 0 <= a * p1 <= lo - lo % p1 + (lo % p2) * k < a * p1 + p1
  {
    ShiftArith(k, p1, lo, a);
    ShiftPointRange(k, p2, lo);
    LessByFactor(0, a + 1, p1);
    MulMonotone(p1, 0, a);
  }

  lemma FoldHighEnd(k: int, p1: int, p2: int, a: int, hi: int)
    requires k >= 2 && p2 > 0 && p1 == k * p2 && hi < k * p1
    requires (a + 1) * p1 <= hi < (a + 1) * p1 + p1
    ensures (a + 1) * p1 <= hi - hi % p1 + (hi % p2) * k + (k - 1) < (a + 2) * p1 <= k * p1
  {
    ModIs(hi, p1, a + 1);
    ShiftPointRange(k, p2, hi);
    NextBlock(a + 1, p1);
    LessByFactor(a + 1, k, p1);
    MulMonotone(p1, a + 2, k);
  }

  lemma FoldWidth(k: int, p1: int, p2: int, a: int, l2: int, lo: int, hi: int)
    requires k >= 2 && p2 > 0 && p1 == k * p2 && lo <= hi
    requires a * p1 <= lo < a * p1 + p1 && (a + 1) * p1 <= hi < (a + 1) * p1 + p1
    requires l2 * p2 <= lo < l2 * p2 + p2 && (l2 + 1) * p2 <= hi < (l2 + 1) * p2 + p2
    ensures (hi - hi % p1 + (hi % p2) * k + (k - 1)) + 1 - (lo - lo % p1 + (lo % p2) * k) == k * (hi + 1 - lo)
    ensures k * (hi + 1 - lo) >= 2
  {
    FoldArith(k, p1, p2, lo, hi, lo, a, l2);
    FoldArith(k, p1, p2, lo, hi, hi, a, l2);
    ScaleWidth(k, lo, hi);
  }

  /** A width scaled by k, written out. */
  lemma ScaleWidth(k: int, lo: int, hi: int)
    requires k >= 2 && lo <= hi
    ensures k * (hi + 1 - lo) == k * hi + k - k * lo
    ensures k * (hi + 1 - lo) >= 2
  {
    MulMonotone(k, 1, hi + 1 - lo);
  }

  /** The block after block a starts p later. */
  lemma NextBlock(a: int, p: int)
    ensures a * p + p == (a + 1) * p
  {}

  /** The identity behind an emission: the emitted digit a, followed by the
   *  deferred digits resolved to the value vr, accounts exactly for the
   *  part of the window that the shift drops. */
  lemma EmitAlgebra(k: int, v: int, t: int, p1: int, a: int, d: int, vr: int, x: int)
    requires a == d ==> vr == t - 1
    requires a != d ==> vr == 0
    requires a == d || a == d + 1 || t == 1
    ensures ((v * k + a) * t + vr) * (k * p1) + (k * x - a * (k * p1))
         == k * (v * t * (k * p1) + (d + 1) * (t - 1) * p1 + x)
  {
    if t == 1 {
      assert vr == 0;
    } else if a == d {
      calc {
        ((v * k + a) * t + vr) * (k * p1) + (k * x - a * (k * p1));
        ((v * k + a) * t + t - 1) * (k * p1) + k * x - a * (k * p1);
        k * (v * t * (k * p1)) + k * ((a + 1) * (t - 1) * p1) + k * x;
      }
    } else {
      calc {
        ((v * k + a) * t + vr) * (k * p1) + (k * x - a * (k * p1));
        (v * k * t + a * t) * (k * p1) + k * x - a * (k * p1);
        k * (v * t * (k * p1)) + k * (a * (t - 1) * p1) + k * x;
      }
    }
  }

  /** The identity behind a fold: one more deferred position below the
   *  candidate digit d + 1 accounts for the part the fold removes. */
  lemma FoldAlgebra(k: int, v: int, t: int, p1: int, a: int, d: int, x: int)
    requires a == d || t == 1
    ensures v * (k * t) * (k * p1) + (a + 1) * (k * t - 1) * p1 + (k * x - (a + 1) * (k - 1) * p1)
         == k * (v * t * (k * p1) + (d + 1) * (t - 1) * p1 + x)
  {
    if t == 1 {
      calc {
        v * (k * t) * (k * p1) + (a + 1) * (k * t - 1) * p1 + (k * x - (a + 1) * (k - 1) * p1);
        v * k * (k * p1) + k * x;
      }
    } else {
      calc {
        v * (k * t) * (k * p1) + (a + 1) * (k * t - 1) * p1 + (k * x - (a + 1) * (k - 1) * p1);
        k * (v * t * (k * p1)) + (a + 1) * (k * t - k) * p1 + k * x;
        k * (v * t * (k * p1)) + k * ((a + 1) * (t - 1) * p1) + k * x;
      }
    }
  }

  /** One step of the finalisation argument: if the later digits (value v,
   *  t = k^m of them) pin a block inside the shifted window [xp, yp), then
   *  with the leading digit h in front they pin one inside [x, y). */
  lemma FinalAlgebra(t: int, m: int, h: int, x: int, y: int, xp: int, yp: int, v: int)
    requires t >= 1 && m > 0
    requires t * xp <= v * m && (v + 1) * m <= t * yp
    requires x <= xp + h * m && y == yp + h * m
    ensures t * x <= (h * t + v) * m
    ensures (h * t + v + 1) * m <= t * y
  {
    MulMonotone(t, x, xp + h * m);
    var e := t * (h * m);
    assert e == (h * t) * m;
    assert t * (xp + h * m) == t * xp + e;
    assert t * y == t * yp + e;
    assert (h * t + v) * m == (h * t) * m + v * m;
    assert (h * t + v + 1) * m == (h * t) * m + (v + 1) * m;
  }

  /** Prepending the digits emitted before the finalisation keeps the block
   *  inside the window, at the larger scale. */
  lemma PrefixAlgebra(t: int, m: int, u: int, lo: int, hi1: int, v: int)
    requires t * lo <= v * m && (v + 1) * m <= t * hi1
    ensures t * (u * m + lo) <= (u * t + v) * m
    ensures (u * t + v + 1) * m <= t * (u * m + hi1)
  {}

  /** A finalisation shift of a non-empty window [lo, hi] whose leading
   *  digits lp and hp differ by at most one. */
  lemma FinalShiftArith(k: int, p: int, lp: int, hp: int, lo: int, hi: int)
    requires k >= 1 && p > 0 && lo <= hi && hp - lp <= 1
    requires lp * p <= lo < lp * p + p && hp * p <= hi < hp * p + p
    ensures lp == hp || lp + 1 == hp
    ensures var lo' := if lp < hp then 0 else (lo % p) * k;
      var hi' := (hi % p) * k + (k - 1);
      lo' <= hi' && k * lo <= lo' + hp * (k * p) && k * (hi + 1) == hi' + 1 + hp * (k * p)
  {
    BlockAtLeast(p, lp, hp, hi);
    ShiftArith(k, p, hi, hp);
    ShiftPointRange(k, p, hi);
    if lp < hp {
      MulMonotone(k, lo, hp * p);
    } else {
      ShiftArith(k, p, lo, lp);
      MulMonotone(k, lo, hi);
    }
  }

  /** The block of the digit lp + 1 lies inside [lo, hi] when hi's leading
   *  digit is at least lp + 2. */
  lemma InnerBlockArith(k: int, p: int, lp: int, hp: int, lo: int, hi: int)
    requires k >= 1 && p > 0 && lp + 2 <= hp
    requires lp * p <= lo < lp * p + p && hp * p <= hi
    ensures k * lo <= (lp + 1) * (k * p)
    ensures (lp + 2) * (k * p) <= k * (hi + 1)
  {
    MulMonotone(k, lo, (lp + 1) * p);
    MulMonotone(p, lp + 2, hp);
    MulMonotone(k, (lp + 2) * p, hi + 1);
  }

  /** EmitAlgebra for one end of the window: an origin b0 and end x before,
   *  an origin b1 and end xs after. */
  lemma EmitWindow(k: int, v: int, t: int, p1: int, a: int, d: int, vr: int, x: int, b0: int, b1: int, xs: int)
    requires a == d ==> vr == t - 1
    requires a != d ==> vr == 0
    requires a == d || a == d + 1 || t == 1
    requires b0 == v * t * (k * p1) + (d + 1) * (t - 1) * p1
    requires b1 == ((v * k + a) * t + vr) * (k * p1)
    requires xs == k * x - a * (k * p1)
    ensures b1 + xs == k * (b0 + x)
  {
    EmitAlgebra(k, v, t, p1, a, d, vr, x);
  }

  /** FoldAlgebra for one end of the window. */
  lemma FoldWindow(k: int, v: int, t: int, p1: int, a: int, d: int, x: int, b0: int, b1: int, xs: int)
    requires a == d || t == 1
    requires b0 == v * t * (k * p1) + (d + 1) * (t - 1) * p1
    requires b1 == v * (k * t) * (k * p1) + (a + 1) * (k * t - 1) * p1
    requires xs == k * x - (a + 1) * (k - 1) * p1
    ensures b1 + xs == k * (b0 + x)
  {
    FoldAlgebra(k, v, t, p1, a, d, x);
  }

  /** The flush emits the upper candidate d + 1 and zeros: the top end of
   *  the window scales exactly, the bottom end rises by k*p1. */
  lemma FlushWindow(k: int, v: int, t: int, p1: int, d: int, lo: int, hi1: int, b0: int, b1: int, los: int, hi1s: int)
    requires b0 == v * t * (k * p1) + (d + 1) * (t - 1) * p1
    requires b1 == (v * k + (d + 1)) * t * (k * p1)
    requires los == k * lo - d * (k * p1)
    requires hi1s == k * hi1 - (d + 1) * (k * p1)
    ensures b1 + hi1s == k * (b0 + hi1)
    ensures b1 + los == k * (b0 + lo) + k * p1
  {
    var q := k * p1;
    FlushOrigin(k, v, t, p1, d, q, b0, b1);
    assert (d + 1) * q == d * q + q;
  }

  /** The origin after the flush is k times the one before plus the block
   *  of the digit d + 1. */
  lemma FlushOrigin(k: int, v: int, t: int, p1: int, d: int, q: int, b0: int, b1: int)
    requires q == k * p1
    requires b0 == v * t * q + (d + 1) * (t - 1) * p1
    requires b1 == (v * k + (d + 1)) * t * q
    ensures b1 == k * b0 + (d + 1) * q
  {
    assert b1 == k * (v * t * q) + (d + 1) * t * q;
    assert k * ((d + 1) * (t - 1) * p1) == (d + 1) * t * q - (d + 1) * q;
  }

  /** A multiple of q times m is a multiple of q. */
  lemma MultipleOfFactor(x: int, q: int, m: int)
    requires q > 0 && m > 0 && x % (q * m) == 0
    ensures x % q == 0
  {
    var c := x / (q * m);
    FloorIs(x, q * m, c);
    assert x == (c * m) * q;
    FloorIs(x, q, c * m);
  }

  /** c*q is a multiple of q. */
  lemma MultipleOfProduct(c: int, q: int)
    requires q > 0
    ensures (c * q) % q == 0
  {
    FloorIs(c * q, q, c);
  }

  /** Sums and differences of multiples of q are multiples of q. */
  lemma MultipleSum(x: int, y: int, q: int)
    requires q > 0 && x % q == 0 && y % q == 0
    ensures (x + y) % q == 0 && (x - y) % q == 0
  {
    var a, b := x / q, y / q;
    FloorIs(x, q, a);
    FloorIs(y, q, b);
    assert x + y == (a + b) * q;
    assert x - y == (a - b) * q;
    FloorIs(x + y, q, a + b);
    FloorIs(x - y, q, a - b);
  }

  /** k times a multiple of q is a multiple of k*q. */
  lemma ScaledMultiple(k: int, x: int, q: int)
    requires k > 0 && q > 0 && x % q == 0
    ensures (k * x) % (k * q) == 0
  {
    var c := x / q;
    FloorIs(x, q, c);
    assert k * x == c * (k * q);
    MultipleOfProduct(c, k * q);
  }

  /** u blocks of t*q are a multiple of q. */
  lemma MultipleOfBlock(u: int, t: int, q: int)
    requires q > 0
    ensures (u * (t * q)) % q == 0
  {
    assert u * (t * q) == (u * t) * q;
    MultipleOfProduct(u * t, q);
  }

  /** Digit x of a block of size q1*k aligned to its size picks a
   *  sub-block of size q1, aligned to q1, inside it. */
  lemma SubBlock(k: int, q1: int, acc: int, x: int)
    requires k >= 1 && q1 >= 1 && 0 <= x < k && acc % (q1 * k) == 0
    ensures 0 <= q1 * x && q1 * x + q1 <= q1 * k
    ensures (acc + q1 * x) % q1 == 0
  {
    MulMonotone(q1, 0, x);
    MulMonotone(q1, x + 1, k);
    MultipleOfFactor(acc, q1, k);
    MultipleOfProduct(x, q1);
    assert x * q1 == q1 * x;
    MultipleSum(acc, q1 * x, q1);
  }

  /** A block of size q, a multiple of p1 = k*p2, inside an interval that
   *  spans only two p2-blocks lies in one p1-block with both ends. */
  lemma WideBlockInOneBlock(k: int, p1: int, p2: int, q: int, acc: int, lo: int, hi: int, l2: int)
    requires k >= 2 && p2 >= 1 && p1 == k * p2 && q >= p1 && q % p1 == 0 && acc % q == 0
    requires lo <= acc && acc + q - 1 <= hi && l2 * p2 <= lo && hi < (l2 + 1) * p2 + p2
    ensures lo / p1 == hi / p1
  {
    MulMonotone(p2, 2, k);
    assert (l2 + 1) * p2 + p2 == l2 * p2 + 2 * p2;
    assert q == p1 && acc == lo && hi == acc + p1 - 1;
    MultipleOfFactor(acc, p1, 1);
    var c := acc / p1;
    FloorIs(acc, p1, c);
    FloorIs(hi, p1, c);
  }
}
