/** `decode` (lib/main.ts:312-434) as written: digits are read one at a
 *  time into an accumulator, and a byte is emitted whenever every reading
 *  the remaining digits could give falls into the same one of the 256
 *  slices of the decoder's interval, after which the decoder repeats the
 *  encoder's narrowing, shifts and fold. The functions here are the
 *  specification; `Decode` is the imperative method. */
module Decoder {
  import opened Common
  import opened Arith
  import opened PlaceValues
  import opened Range
  import opened Encoder

  /** The decoder's loop variables (lib/main.ts:331-336): the interval
   *  (`lo`, `hi`), `encodedDigits`, `multIndex`, and the bytes emitted. */
  datatype DState = DState(r: Interval, acc: int, mi: nat, out: seq<byte>)

  /** `placeValues[i]` = k^(n - i). */
  function Place(k: int, i: nat): (p: int)
    requires ValidBase(k) && i <= Digits(k)
    ensures p >= 1
  {
    PowPositive(k, Digits(k) - i);
    Pow(k, Digits(k) - i)
  }

  /** The decoder's invariant, which holds for every digit string: the block
   *  [acc, acc + placeValues[mi] - 1] of all readings the digits still to
   *  come could give is aligned to its size and lies inside the interval. */
  predicate Tracks(k: int, d: DState)
    requires ValidBase(k)
  {
    d.mi <= Digits(k)
    && 0 <= d.r.lo <= d.acc && d.acc + Place(k, d.mi) - 1 <= d.r.hi < Top(k)
    && d.acc % Place(k, d.mi) == 0
  }

  /** lib/main.ts:331-336. */
  function DStart(k: int): (d: DState)
    requires ValidBase(k)
    ensures Tracks(k, d) && d.mi < Digits(k)
  {
    DivisorPowers(k);
    DigitsAtLeastTwo(k);
    FloorIs(0, Top(k), 0);
    DState(Interval(0, Top(k) - 1), 0, 0, [])
  }

  lemma PlacePositive(k: int, i: nat)
    requires ValidBase(k) && i <= Digits(k)
    ensures Place(k, i) >= 1
    ensures i >= 1 ==> Place(k, i - 1) == k * Place(k, i)
  {
    PowPositive(k, Digits(k) - i);
    if i >= 1 {
      assert Digits(k) - (i - 1) == (Digits(k) - i) + 1;
    }
  }

  /** `multIndex` is at least 1 wherever the decoder shifts: with
   *  `multIndex` 0 the block is the whole window, whose ends disagree. */
  lemma ShiftNeedsPlace(k: int, d: DState)
    requires ValidBase(k) && Tracks(k, d) && Agrees(k, d.r)
    ensures d.mi >= 1
  {
    if d.mi == 0 {
      var m, p1 := Top(k), PrefixDivisor(k);
      DivisorPowers(k);
      FloorIs(d.acc, m, 0);
      FloorIs(m - 1, p1, k - 1);
      FloorIs(0, p1, 0);
      assert false;
    }
  }

  /** `multIndex` is at least 2 wherever the decoder folds, so that it is
   *  at least 1 after the fold (lib/main.ts:414-416): a block of a whole
   *  leading-digit block or more cannot straddle a digit boundary. */
  lemma FoldNeedsPlaces(k: int, d: DState)
    requires ValidBase(k) && Tracks(k, d) && Straddles(k, d.r)
    ensures d.mi >= 2
  {
    if d.mi < 2 {
      var p1, p2 := PrefixDivisor(k), SecondPrefixDivisor(k);
      var lo, hi, acc := d.r.lo, d.r.hi, d.acc;
      var q := Place(k, d.mi);
      WidePlace(k, d.mi);
      var l2 := lo / p2;
      assert hi / p2 == l2 + 1;
      FloorIs(lo, p2, l2);
      FloorIs(hi, p2, l2 + 1);
      WideBlockInOneBlock(k, p1, p2, q, acc, lo, hi, l2);
      assert false;
    }
  }

  /** The two widest blocks, placeValues[0] and placeValues[1], are whole
   *  multiples of the prefix divisor. */
  lemma WidePlace(k: int, i: nat)
    requires ValidBase(k) && i < 2
    ensures i <= Digits(k)
    ensures Place(k, i) >= PrefixDivisor(k) && Place(k, i) % PrefixDivisor(k) == 0
  {
    var p1 := PrefixDivisor(k);
    DivisorPowers(k);
    DigitsAtLeastTwo(k);
    if i == 0 {
      assert Place(k, i) == k * p1;
      MulMonotone(p1, 1, k);
      MultipleOfProduct(k, p1);
    } else {
      assert Place(k, i) == p1;
      MultipleOfProduct(1, p1);
    }
  }

  /** The affine maps x -> k*x - c of a shift or a fold keep the block
   *  inside the interval and aligned, one place up. */
  lemma ScaleKeepsTracks(k: int, d: DState, c: int, e: DState)
    requires ValidBase(k) && Tracks(k, d) && d.mi >= 1
    requires c % Place(k, d.mi - 1) == 0
    requires e.r == Interval(k * d.r.lo - c, k * d.r.hi - c + (k - 1)) && e.acc == k * d.acc - c && e.mi == d.mi - 1
    requires 0 <= e.r.lo && e.r.hi < Top(k)
    ensures Tracks(k, e)
  {
    PlacePositive(k, d.mi);
    ScaleBlock(k, d.r.lo, d.r.hi, d.acc, Place(k, d.mi), c);
  }

  /** ScaleKeepsTracks on plain integers: a block [acc, acc + q - 1]
   *  aligned to q inside [lo, hi] maps to a block aligned to k*q. */
  lemma ScaleBlock(k: int, lo: int, hi: int, acc: int, q: int, c: int)
    requires k >= 2 && q >= 1 && lo <= acc && acc + q - 1 <= hi && acc % q == 0 && c % (k * q) == 0
    ensures k * lo - c <= k * acc - c
    ensures k * acc - c + k * q - 1 <= k * hi - c + (k - 1)
    ensures (k * acc - c) % (k * q) == 0
  {
    MulMonotone(k, lo, acc);
    MulMonotone(k, acc + q - 1, hi);
    ScaledMultiple(k, acc, q);
    MultipleSum(k * acc, c, k * q);
  }

  /** The decoder's shift (lib/main.ts:420-425). */
  function DShift(k: int, d: DState): DState
    requires ValidBase(k)
  {
    DState(Shift(k, d.r), ShiftPoint(k, d.acc), if d.mi >= 1 then d.mi - 1 else 0, d.out)
  }

  /** The decoder's fold (lib/main.ts:403-413). */
  function DFold(k: int, d: DState): DState
    requires ValidBase(k)
  {
    DState(Fold(k, d.r), FoldPoint(k, d.acc), if d.mi >= 1 then d.mi - 1 else 0, d.out)
  }

  lemma DShiftTracks(k: int, d: DState)
    requires ValidBase(k) && Tracks(k, d) && Agrees(k, d.r)
    ensures d.mi >= 1 && Tracks(k, DShift(k, d))
  {
    ShiftNeedsPlace(k, d);
    var n, m, p1 := Digits(k), Top(k), PrefixDivisor(k);
    var a := Prefix(k, d.r.lo);
    var q1, t := Place(k, d.mi - 1), Pow(k, d.mi - 1);
    ShiftIsAffine(k, d.r, d.r.lo);
    ShiftIsAffine(k, d.r, d.r.hi);
    ShiftIsAffine(k, d.r, d.acc);
    ShiftPointRange(k, p1, d.r.lo);
    ShiftPointRange(k, p1, d.r.hi);
    PlaceSplit(k, d.mi - 1);
    MultipleOfBlock(a, t, q1);
    ScaleKeepsTracks(k, d, a * m, DShift(k, d));
  }

  /** M = k^i * placeValues[i]. */
  lemma PlaceSplit(k: int, i: nat)
    requires ValidBase(k) && i <= Digits(k)
    ensures Top(k) == Pow(k, i) * Place(k, i)
    ensures i >= 1 ==> PrefixDivisor(k) == Pow(k, i - 1) * Place(k, i)
  {
    var n := Digits(k);
    DivisorPowers(k);
    PowAdd(k, i, n - i);
    if i >= 1 {
      PowAdd(k, i - 1, n - i);
    }
  }

  lemma DFoldTracks(k: int, d: DState)
    requires ValidBase(k) && Tracks(k, d) && Straddles(k, d.r)
    ensures d.mi >= 2 && Tracks(k, DFold(k, d))
  {
    FoldNeedsPlaces(k, d);
    var p1 := PrefixDivisor(k);
    var a := Prefix(k, d.r.lo);
    var q1, t := Place(k, d.mi - 1), Pow(k, d.mi - 2);
    FoldIsAffine(k, d.r, d.r.lo);
    FoldIsAffine(k, d.r, d.r.hi);
    FoldIsAffine(k, d.r, d.acc);
    FoldBounds(k, d.r);
    PlaceSplit(k, d.mi - 1);
    MultipleOfBlock((a + 1) * (k - 1), t, q1);
    ScaleKeepsTracks(k, d, (a + 1) * (k - 1) * p1, DFold(k, d));
  }

  /** The decoder's renormalisation loop (lib/main.ts:395-427): the same
   *  shifts and the same single fold as the encoder's, applied to the
   *  interval and to the accumulator, each giving back one place. */
  function DRenorm(k: int, d: DState): (t: DState)
    requires ValidBase(k) && Tracks(k, d)
    ensures Tracks(k, t) && t.out == d.out && !Agrees(k, t.r)
    ensures t.mi < d.mi || t == d
    decreases d.mi
  {
    if Agrees(k, d.r) then
      DShiftTracks(k, d);
      DRenorm(k, DShift(k, d))
    else if Straddles(k, d.r) then
      DFoldTracks(k, d);
      FoldStepGood(k, Encoder.State(d.r, 0, 0, []));
      DFold(k, d)
    else
      d
  }

  /** The readings the remaining digits can give: `encodedDigits` to
   *  `encodedHi` (lib/main.ts:360-363). */
  function Readings(k: int, d: DState): Interval
    requires ValidBase(k) && d.mi <= Digits(k)
  {
    Interval(d.acc, d.acc + Place(k, d.mi) - 1)
  }

  /** When both ends of the readings fall into slice b, the whole block
   *  lies in that slice, and narrowing to it keeps the invariant. */
  lemma NarrowKeepsTracks(k: int, d: DState, b: int)
    requires ValidBase(k) && Tracks(k, d) && 0 <= b < 256
    requires SliceIndex(d.r, d.acc) == b && SliceIndex(d.r, d.acc + Place(k, d.mi) - 1) == b
    ensures Tracks(k, d.(r := Narrow(d.r, b)))
    ensures Narrow(d.r, b).lo <= d.acc && d.acc + Place(k, d.mi) - 1 <= Narrow(d.r, b).hi
  {
    PlacePositive(k, d.mi);
    SliceIndexInverts(d.r, d.acc, b);
    SliceIndexInverts(d.r, d.acc + Place(k, d.mi) - 1, b);
  }

  /** A renormalisation that changed nothing leaves an interval at least 2
   *  wide, which the next narrowing makes strictly narrower. */
  lemma NarrowShrinks(k: int, d: DState, b: int)
    requires ValidBase(k) && 0 <= b < 256 && Width(d.r) >= 0
    requires Tracks(k, d.(r := Narrow(d.r, b))) && !Agrees(k, Narrow(d.r, b))
    ensures Width(Narrow(d.r, b)) < Width(d.r)
  {
    PlacePositive(k, d.mi);
  }

  /** Every reading left falls into the same slice: `byte == maxByte`
   *  (lib/main.ts:360-373). */
  predicate OneByte(k: int, d: DState)
    requires ValidBase(k) && Tracks(k, d)
  {
    SliceIndex(d.r, d.acc) == SliceIndex(d.r, d.acc + Place(k, d.mi) - 1)
  }

  /** The state after emitting the byte `b == maxByte` and narrowing the
   *  interval to its slice (lib/main.ts:375, 383-385). */
  function Narrowed(k: int, d: DState): (n: DState)
    requires ValidBase(k) && Tracks(k, d)
    requires OneByte(k, d)
    ensures 0 <= SliceIndex(d.r, d.acc) < 256
    ensures Tracks(k, n) && n.out == d.out + [SliceIndex(d.r, d.acc) as byte]
  {
    var b := SliceIndex(d.r, d.acc);
    SliceIndexInverts(d.r, d.acc, 0);
    var e := d.(out := d.out + [b as byte]);
    NarrowKeepsTracks(k, e, b);
    e.(r := Narrow(d.r, b))
  }

  /** The byte loop (lib/main.ts:359-428): while the readings fall into one
   *  slice, emit its byte, and unless this is the final digit narrow and
   *  renormalise as the encoder did. */
  function Emits(k: int, d: DState, multiple: bool): (t: DState)
    requires ValidBase(k) && Tracks(k, d)
    ensures Tracks(k, t)
    ensures |d.out| <= |t.out| && t.out[..|d.out|] == d.out
    ensures multiple ==> t.mi < Digits(k)
    ensures !multiple ==> |t.out| <= |d.out| + 1
    decreases d.mi, Width(d.r)
  {
    PlacePositive(k, d.mi);
    var b := SliceIndex(d.r, d.acc);
    if !OneByte(k, d) then
      d
    else
      SliceIndexInverts(d.r, d.acc, 0);
      if !multiple then
        d.(out := d.out + [b as byte])
      else
        var n := Narrowed(k, d);
        var t := DRenorm(k, n);
        assert t.mi < d.mi || Width(t.r) < Width(d.r) by {
          if t == n {
            NarrowShrinks(k, d.(out := n.out), b);
          }
        }
        Emits(k, t, true)
  }

  /** Otherwise it emits, narrows, renormalises and goes on, from a state
   *  of fewer places or a narrower interval. */
  lemma EmitsGoesOn(k: int, d: DState)
    requires ValidBase(k) && Tracks(k, d)
    requires OneByte(k, d)
    ensures Emits(k, d, true) == Emits(k, DRenorm(k, Narrowed(k, d)), true)
    ensures var t := DRenorm(k, Narrowed(k, d));
      t.mi < d.mi || (t.mi == d.mi && Width(t.r) < Width(d.r))
  {
    var n := Narrowed(k, d);
    if DRenorm(k, n) == n {
      NarrowShrinks(k, d.(out := n.out), SliceIndex(d.r, d.acc));
    }
  }

  /** One digit (lib/main.ts:337-358): add it at the next place; a final 0
   *  stops at once, another final digit allows one byte more. */
  function DigitStep(k: int, d: DState, x: int, last: bool): (t: DState)
    requires ValidBase(k) && Tracks(k, d) && d.mi < Digits(k) && 0 <= x < k
    ensures Tracks(k, t)
    ensures |d.out| <= |t.out| && t.out[..|d.out|] == d.out
    ensures !last ==> t.mi < Digits(k)
    ensures last ==> |t.out| <= |d.out| + 1
  {
    var e := DState(d.r, d.acc + Place(k, d.mi + 1) * x, d.mi + 1, d.out);
    DigitKeepsTracks(k, d, x);
    if last && x == 0 then e else Emits(k, e, !last)
  }

  /** `encodedDigits += placeValues[++multIndex] * digit` (lib/main.ts:345). */
  function Read(k: int, d: DState, x: int): (e: DState)
    requires ValidBase(k) && Tracks(k, d) && d.mi < Digits(k) && 0 <= x < k
    ensures Tracks(k, e)
  {
    DigitKeepsTracks(k, d, x);
    DState(d.r, d.acc + Place(k, d.mi + 1) * x, d.mi + 1, d.out)
  }

  /** Reading digit x narrows the readings to its sub-block. */
  lemma DigitKeepsTracks(k: int, d: DState, x: int)
    requires ValidBase(k) && Tracks(k, d) && d.mi < Digits(k) && 0 <= x < k
    ensures Tracks(k, DState(d.r, d.acc + Place(k, d.mi + 1) * x, d.mi + 1, d.out))
  {
    var q, q1 := Place(k, d.mi), Place(k, d.mi + 1);
    PlacePositive(k, d.mi + 1);
    assert q == q1 * k;
    SubBlock(k, q1, d.acc, x);
  }

  /** Byte b is determined: every reading the remaining digits could give
   *  lies in the b-th slice of the interval. */
  predicate Determines(k: int, d: DState, b: int)
    requires ValidBase(k) && Tracks(k, d)
  {
    0 <= b < 256 && Narrow(d.r, b).lo <= d.acc && d.acc + Place(k, d.mi) - 1 <= Narrow(d.r, b).hi
  }

  /** A byte is emitted exactly when the readings determine one
   *  (`byte == maxByte`, lib/main.ts:366-375), and it is that byte. */
  lemma EmitsDetermined(k: int, d: DState, multiple: bool)
    requires ValidBase(k) && Tracks(k, d)
    ensures var t := Emits(k, d, multiple);
      (|t.out| > |d.out| <==> exists b :: Determines(k, d, b))
      && (|t.out| > |d.out| ==> Determines(k, d, t.out[|d.out|] as int))
  {
    if OneByte(k, d) {
      EmitsFirstByte(k, d, multiple);
      OneByteDetermines(k, d);
    } else {
      NoneDetermined(k, d);
    }
  }

  /** When `byte == maxByte` the readings determine `byte`. */
  lemma OneByteDetermines(k: int, d: DState)
    requires ValidBase(k) && Tracks(k, d)
    requires OneByte(k, d)
    ensures Determines(k, d, SliceIndex(d.r, d.acc))
  {
    PlacePositive(k, d.mi);
    var hiReading := d.acc + Place(k, d.mi) - 1;
    var b := SliceIndex(d.r, d.acc);
    SliceIndexInverts(d.r, d.acc, 0);
    SliceIndexInverts(d.r, d.acc, b);
    SliceIndexInverts(d.r, hiReading, b);
  }

  /** When `byte != maxByte` no byte is determined. */
  lemma NoneDetermined(k: int, d: DState)
    requires ValidBase(k) && Tracks(k, d)
    requires !OneByte(k, d)
    ensures forall c :: !Determines(k, d, c)
  {
    PlacePositive(k, d.mi);
    var hiReading := d.acc + Place(k, d.mi) - 1;
    forall c | Determines(k, d, c)
      ensures false
    {
      SameSlice(d.r, d.acc, hiReading, c);
    }
  }

  /** Two readings inside one slice have the same slice index. */
  lemma SameSlice(r: Interval, x: int, y: int, c: int)
    requires r.lo <= x <= y <= r.hi && 0 <= c < 256
    requires Narrow(r, c).lo <= x && y <= Narrow(r, c).hi
    ensures SliceIndex(r, x) == SliceIndex(r, y)
  {
    SliceIndexInverts(r, x, c);
    SliceIndexInverts(r, y, c);
  }

  /** When `byte == maxByte` the first byte emitted is `byte`. */
  lemma EmitsFirstByte(k: int, d: DState, multiple: bool)
    requires ValidBase(k) && Tracks(k, d)
    requires OneByte(k, d)
    ensures |Emits(k, d, multiple).out| > |d.out|
    ensures Emits(k, d, multiple).out[|d.out|] as int == SliceIndex(d.r, d.acc)
  {
    var b := SliceIndex(d.r, d.acc);
    SliceIndexInverts(d.r, d.acc, 0);
    var e := d.(out := d.out + [b as byte]);
    var t := Emits(k, d, multiple);
    assert |e.out| <= |t.out| && t.out[..|e.out|] == e.out;
    assert t.out[|d.out|] == e.out[|d.out|];
  }

  /** The digit loop (lib/main.ts:337-429) over digits that are not the
   *  last one, so `emitMultiple` stays true: the decoder's state after
   *  reading ds from the start. */
  function Consumed(k: int, ds: seq<int>): (t: DState)
    requires ValidBase(k) && IsDigits(k, ds)
    ensures Tracks(k, t) && t.mi < Digits(k)
    decreases |ds|
  {
    if ds == [] then DStart(k)
    else DigitStep(k, Consumed(k, ds[..|ds| - 1]), ds[|ds| - 1], false)
  }

  /** The bytes `decode` returns for a digit string in base k: the digits
   *  before the last are consumed, the last one is final. */
  function Decoded(k: int, ds: seq<int>): (bytes: seq<byte>)
    requires ValidBase(k) && IsDigits(k, ds)
  {
    if ds == [] then []
    else DigitStep(k, Consumed(k, ds[..|ds| - 1]), ds[|ds| - 1], true).out
  }

  /** Bytes, once emitted, stay: reading more digits only appends. */
  lemma {:induction false} ConsumedGrows(k: int, ds: seq<int>, m: nat)
    requires ValidBase(k) && IsDigits(k, ds) && m <= |ds|
    ensures var before, after := Consumed(k, ds[..m]).out, Consumed(k, ds).out;
      |before| <= |after| && after[..|before|] == before
    decreases |ds|
  {
    if m < |ds| {
      var init := ds[..|ds| - 1];
      assert init[..m] == ds[..m];
      ConsumedGrows(k, init, m);
    } else {
      assert ds[..m] == ds;
    }
  }

  /** The final digit (lib/main.ts:347-358): the bytes before it are the
   *  ones the earlier digits give; a final 0 adds none and any other final
   *  digit at most one. */
  lemma FinalDigit(k: int, ds: seq<int>, x: int)
    requires ValidBase(k) && IsDigits(k, ds) && 0 <= x < k
    ensures IsDigits(k, ds + [x])
    ensures var before := Consumed(k, ds).out;
      var all := Decoded(k, ds + [x]);
      |before| <= |all| <= |before| + 1 && all[..|before|] == before
      && (x == 0 ==> all == before)
  {
    assert (ds + [x])[..|ds|] == ds;
    FinalStep(k, Consumed(k, ds), x);
  }

  lemma FinalStep(k: int, c: DState, x: int)
    requires ValidBase(k) && Tracks(k, c) && c.mi < Digits(k) && 0 <= x < k
    ensures var t := DigitStep(k, c, x, true);
      |c.out| <= |t.out| <= |c.out| + 1 && t.out[..|c.out|] == c.out && (x == 0 ==> t.out == c.out)
  {
  }
}
