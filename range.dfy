/** The interval arithmetic that `encode` and `decode` share
 *  (lib/main.ts:203-244, repeated at 383-427): narrowing to one of 256
 *  slices, reading the leading base-k digit (the prefix), shifting a digit
 *  out, and folding an interval that straddles a digit boundary. */
module Range {
  import opened PlaceValues
  import opened Arith

  /** The closed integer interval [lo, hi]; it is empty when lo = hi + 1. */
  datatype Interval = Interval(lo: int, hi: int)

  /** `rangeDiff = hi + 1 - lo`. */
  function Width(r: Interval): int
  {
    r.hi + 1 - r.lo
  }

  /** `Math.ceil(x / 256)` for x >= 0. */
  function CeilDiv256(x: int): int
    requires x >= 0
  {
    (x + 255) / 256
  }

  /** Narrowing by byte b (lib/main.ts:203-206 and 383-385): the b-th of the
   *  256 slices of r. Both bounds are computed from the old `lo`. */
  function Narrow(r: Interval, b: int): (s: Interval)
    requires 0 <= b < 256 && Width(r) >= 0
    ensures r.lo <= s.lo && s.hi <= r.hi
    ensures s.lo <= s.hi + 1
    ensures Width(r) >= 256 ==> s.lo <= s.hi
    ensures Width(r) >= 1 ==> r.lo <= s.hi
    ensures Width(s) <= Width(r)
    ensures Width(r) >= 2 ==> Width(s) < Width(r)
  {
    var w := Width(r);
    var d := b * w;
    SliceBounds(w, b);
    Interval(r.lo + CeilDiv256(d), r.lo + CeilDiv256(d + w) - 1)
  }

  lemma SliceBounds(w: int, b: int)
    requires 0 <= b < 256 && w >= 0
    ensures 0 <= b * w && 0 <= CeilDiv256(b * w) <= CeilDiv256(b * w + w) <= w
    ensures CeilDiv256(b * w + w) - CeilDiv256(b * w) <= CeilDiv256(w)
    ensures w >= 256 ==> CeilDiv256(b * w) < CeilDiv256(b * w + w)
    ensures w >= 2 ==> CeilDiv256(w) < w
    ensures w >= 1 ==> CeilDiv256(b * w + w) >= 1
  {
    assert b * w + w == (b + 1) * w;
    assert (b + 1) * w <= 256 * w;
  }

  /** Narrowing commutes with moving the interval: only the width and the
   *  offsets from lo enter it. */
  lemma NarrowMoves(r: Interval, c: int, b: int)
    requires 0 <= b < 256 && Width(r) >= 0
    ensures Narrow(Interval(r.lo + c, r.hi + c), b) == Interval(Narrow(r, b).lo + c, Narrow(r, b).hi + c)
  {
    assert Width(Interval(r.lo + c, r.hi + c)) == Width(r);
  }

  /** Consecutive slices meet, the first starts at lo and the last ends at
   *  hi: the 256 slices partition r. */
  lemma SlicesPartition(r: Interval, b: int)
    requires 0 <= b < 255 && Width(r) >= 0
    ensures Narrow(r, b).hi + 1 == Narrow(r, b + 1).lo
    ensures Narrow(r, 0).lo == r.lo && Narrow(r, 255).hi == r.hi
  {
    var w := Width(r);
    assert (b + 1) * w == b * w + w;
    assert 255 * w + w == 256 * w;
  }

  /** The decoder's byte inference (lib/main.ts:366-368): the slice index of
   *  a point x of r, `floor((x - lo) * 256 / rangeDiff)`. */
  function SliceIndex(r: Interval, x: int): int
    requires r.lo <= x && Width(r) >= 1
  {
    ((x - r.lo) * 256) / Width(r)
  }

  /** The slice index of x is b exactly when narrowing by b keeps x: the
   *  decoder's inference inverts the encoder's narrowing. */
  lemma SliceIndexInverts(r: Interval, x: int, b: int)
    requires r.lo <= x <= r.hi && 0 <= b < 256
    ensures 0 <= SliceIndex(r, x) < 256
    ensures SliceIndex(r, x) == b <==> Narrow(r, b).lo <= x <= Narrow(r, b).hi
  {
    var w := Width(r);
    var o := x - r.lo;
    var q := (o * 256) / w;
    FloorIs(o * 256, w, q);
    assert 0 <= q < 256 by {
      if q < 0 {
        MulMonotone(w, q + 1, 0);
      } else if q >= 256 {
        MulMonotone(w, 256, q);
      }
    }
    FloorIs(o * 256, w, b);
    assert (b + 1) * w == b * w + w;
    CeilDivAtMost(b * w, o);
    CeilDivAtMost(b * w + w, o);
  }

  /** The leading base-k digit of x within [0, M): `Math.floor(x / prefixDivisor)`. */
  function Prefix(k: int, x: int): int
    requires ValidBase(k)
  {
    x / PrefixDivisor(k)
  }

  /** The two leading digits: `Math.floor(x / secondPrefixDivisor)`. */
  function SecondPrefix(k: int, x: int): int
    requires ValidBase(k)
  {
    x / SecondPrefixDivisor(k)
  }

  /** The renormalisation loop emits when both ends agree on the leading digit. */
  predicate Agrees(k: int, r: Interval)
    requires ValidBase(k)
  {
    Prefix(k, r.lo) == Prefix(k, r.hi)
  }

  /** The fold condition (lib/main.ts:212-222): the leading digits differ by
   *  one and so do the two-digit prefixes, so the interval straddles a digit
   *  boundary by less than one unit of the second digit on each side. */
  predicate Straddles(k: int, r: Interval)
    requires ValidBase(k)
  {
    Prefix(k, r.hi) - Prefix(k, r.lo) == 1 && SecondPrefix(k, r.hi) - SecondPrefix(k, r.lo) == 1
  }

  /** Dropping the leading digit of a point and appending a new low digit 0
   *  (lib/main.ts:243, 420, 423). */
  function ShiftPoint(k: int, x: int): int
    requires ValidBase(k)
  {
    (x % PrefixDivisor(k)) * k
  }

  /** lib/main.ts:243-244 and 420-421. */
  function Shift(k: int, r: Interval): Interval
    requires ValidBase(k)
  {
    Interval(ShiftPoint(k, r.lo), ShiftPoint(k, r.hi) + (k - 1))
  }

  /** Removing the second digit of a point (lib/main.ts:409-412); for the
   *  ends of the interval the source writes the same value as
   *  `prefix * prefixDivisor + (x % secondPrefixDivisor) * base`. */
  function FoldPoint(k: int, x: int): int
    requires ValidBase(k)
  {
    x - x % PrefixDivisor(k) + (x % SecondPrefixDivisor(k)) * k
  }

  /** lib/main.ts:224-228 and 403-407. */
  function Fold(k: int, r: Interval): Interval
    requires ValidBase(k)
  {
    Interval(FoldPoint(k, r.lo), FoldPoint(k, r.hi) + (k - 1))
  }

  /** The source's spelling of the folded bounds is the same number. */
  lemma FoldPointSpelling(k: int, x: int)
    requires ValidBase(k) && x >= 0
    ensures FoldPoint(k, x) == Prefix(k, x) * PrefixDivisor(k) + (x % SecondPrefixDivisor(k)) * k
  {
    var p1 := PrefixDivisor(k);
    FloorIs(x, p1, x / p1);
  }

  /** Inside an interval whose ends agree on the leading digit a, every point
   *  has leading digit a and a shift is the affine map x -> k*x - a*M. */
  lemma ShiftIsAffine(k: int, r: Interval, x: int)
    requires ValidBase(k) && 0 <= r.lo <= x <= r.hi && Agrees(k, r)
    ensures Prefix(k, x) == Prefix(k, r.lo)
    ensures ShiftPoint(k, x) == k * x - Prefix(k, r.lo) * Top(k)
  {
    var p1 := PrefixDivisor(k);
    var a := Prefix(k, r.lo);
    FloorIs(r.lo, p1, a);
    FloorIs(r.hi, p1, a);
    ShiftArith(k, p1, x, a);
  }

  /** Inside a straddling interval with leading digits a and a + 1, a fold
   *  is the affine map x -> k*x - (a + 1)*(k - 1)*P1. */
  lemma FoldIsAffine(k: int, r: Interval, x: int)
    requires ValidBase(k) && 0 <= r.lo <= x <= r.hi && Straddles(k, r)
    ensures FoldPoint(k, x) == k * x - (Prefix(k, r.lo) + 1) * (k - 1) * PrefixDivisor(k)
    ensures SecondPrefix(k, r.lo) == Prefix(k, r.lo) * k + k - 1
  {
    var p1, p2 := PrefixDivisor(k), SecondPrefixDivisor(k);
    var a, l2 := Prefix(k, r.lo), SecondPrefix(k, r.lo);
    FloorIs(r.lo, p1, a);
    FloorIs(r.hi, p1, a + 1);
    FloorIs(r.lo, p2, l2);
    FloorIs(r.hi, p2, l2 + 1);
    FoldArith(k, p1, p2, r.lo, r.hi, x, a, l2);
  }
}
