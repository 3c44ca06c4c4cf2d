/** `encode` (lib/main.ts:176-302) as written: the per-byte narrowing and
 *  renormalisation with deferred digits, the flush of pending deferred
 *  digits, and the finalisation loop. The functions here are the
 *  specification; `Encode` is the imperative method. */
module Encoder {
  import opened Common
  import opened Arith
  import opened PlaceValues
  import opened Range

  /** The encoder's loop variables (lib/main.ts:195-201): the interval,
   *  `deferredCount`, `deferredLoPrefix`, and the digits emitted so far. */
  datatype State = State(r: Interval, deferredCount: nat, deferredLoPrefix: int, out: seq<int>)

  /** lib/main.ts:198-201. */
  function Start(k: int): (s: State)
    requires ValidBase(k)
    ensures Good(k, s) && Settled(k, s) && s.out == []
  {
    State(Interval(0, Top(k) - 1), 0, 0, [])
  }

  /** What the encoder keeps true of its interval between steps: both ends
   *  in [0, M] and at most one past empty. An empty interval (lo = hi + 1)
   *  is reachable once the interval has collapsed below 256 values. */
  predicate InBounds(k: int, r: Interval)
    requires ValidBase(k)
  {
    0 <= r.lo <= r.hi + 1 <= Top(k) && 0 <= r.hi
  }

  /** While digits are deferred the interval stays within the two leading
   *  digit blocks `deferredLoPrefix` and `deferredLoPrefix + 1`. */
  predicate Framed(k: int, s: State)
    requires ValidBase(k)
  {
    s.deferredCount > 0 ==>
      s.deferredLoPrefix * PrefixDivisor(k) <= s.r.lo && s.r.hi < (s.deferredLoPrefix + 2) * PrefixDivisor(k)
  }

  predicate IsDigits(k: int, ds: seq<int>)
  {
    forall i | 0 <= i < |ds| :: 0 <= ds[i] < k
  }

  predicate Good(k: int, s: State)
    requires ValidBase(k)
  {
    InBounds(k, s.r) && Framed(k, s) && IsDigits(k, s.out)
  }

  /** After j shifts without a narrowing, lo ends in j digits 0 and hi in j
   *  digits k - 1; this bounds how often the loops can shift. */
  predicate ShiftedBy(k: int, r: Interval, j: nat)
    requires ValidBase(k)
  {
    PowPositive(k, j);
    j <= Digits(k) && r.lo % Pow(k, j) == 0 && r.hi % Pow(k, j) == Pow(k, j) - 1
  }

  /** The digits that resolve the deferred positions once the leading digit
   *  `lp` is known (lib/main.ts:236-241): k - 1 each if `lp` is the lower
   *  of the two candidate digits, 0 each if it is the upper. */
  function Resolve(k: int, s: State, lp: int): seq<int>
  {
    Repeat(if lp == s.deferredLoPrefix then k - 1 else 0, s.deferredCount)
  }

  /** One emission (lib/main.ts:235-244). */
  function EmitStep(k: int, s: State): State
    requires ValidBase(k)
  {
    var lp := Prefix(k, s.r.lo);
    State(Shift(k, s.r), 0, s.deferredLoPrefix, s.out + [lp] + Resolve(k, s, lp))
  }

  /** One fold (lib/main.ts:224-231). */
  function FoldStep(k: int, s: State): State
    requires ValidBase(k)
  {
    State(Fold(k, s.r), s.deferredCount + 1, Prefix(k, s.r.lo), s.out)
  }

  lemma PrefixRange(k: int, x: int)
    requires ValidBase(k) && 0 <= x < Top(k)
    ensures 0 <= Prefix(k, x) < k
  {
    var p1 := PrefixDivisor(k);
    FloorIs(x, p1, x / p1);
    LessByFactor(0, x / p1 + 1, p1);
    LessByFactor(x / p1, k, p1);
  }

  /** The shift counter grows by one; at the full count the interval is
   *  [0, M - 1] or empty at M, and neither has agreeing ends. */
  lemma ShiftCounts(k: int, r: Interval, j: nat, a: int)
    requires ValidBase(k) && 0 <= r.lo <= Top(k) && 0 <= r.hi < Top(k) && ShiftedBy(k, r, j)
    requires a * PrefixDivisor(k) <= r.lo < a * PrefixDivisor(k) + PrefixDivisor(k)
    requires a * PrefixDivisor(k) <= r.hi < a * PrefixDivisor(k) + PrefixDivisor(k)
    ensures j < Digits(k) && ShiftedBy(k, Shift(k, r), j + 1)
  {
    BelowFullCount(k, r, j, a);
    FloorIs(r.lo, PrefixDivisor(k), a);
    FloorIs(r.hi, PrefixDivisor(k), a);
    assert FinalShift(k, r) == Shift(k, r);
    FinalShiftAligned(k, r, j);
  }

  /** An interval within one leading-digit block is not aligned to the full
   *  window. */
  lemma BelowFullCount(k: int, r: Interval, j: nat, a: int)
    requires ValidBase(k) && 0 <= r.lo <= Top(k) && 0 <= r.hi < Top(k) && ShiftedBy(k, r, j)
    requires a * PrefixDivisor(k) <= r.lo < a * PrefixDivisor(k) + PrefixDivisor(k)
    requires a * PrefixDivisor(k) <= r.hi < a * PrefixDivisor(k) + PrefixDivisor(k)
    ensures j < Digits(k)
  {
    if j == Digits(k) {
      DivisorPowers(k);
      FullyAligned(Top(k), r.lo, r.hi);
      FullWindowSpansBlocks(k, PrefixDivisor(k), a, r.lo);
      assert false;
    }
  }

  /** An emission keeps the invariants, emits digits below k and scales the
   *  interval by k. */
  lemma EmitStepGood(k: int, s: State, j: nat)
    requires ValidBase(k) && Good(k, s) && Agrees(k, s.r) && ShiftedBy(k, s.r, j)
    ensures j < Digits(k) && ShiftedBy(k, EmitStep(k, s).r, j + 1)
    ensures Good(k, EmitStep(k, s))
    ensures Width(EmitStep(k, s).r) == k * Width(s.r)
  {
    var p1 := PrefixDivisor(k);
    var a := Prefix(k, s.r.lo);
    FloorIs(s.r.lo, p1, a);
    FloorIs(s.r.hi, p1, a);
    EmitKeepsGood(k, s);
    ShiftCounts(k, s.r, j, a);
  }

  /** The same without the shift counter: an emission keeps the invariants
   *  and scales the interval by k. */
  lemma EmitKeepsGood(k: int, s: State)
    requires ValidBase(k) && Good(k, s) && Agrees(k, s.r)
    ensures Good(k, EmitStep(k, s))
    ensures Width(EmitStep(k, s).r) == k * Width(s.r)
  {
    var p1 := PrefixDivisor(k);
    var a := Prefix(k, s.r.lo);
    FloorIs(s.r.lo, p1, a);
    FloorIs(s.r.hi, p1, a);
    ShiftBlock(k, p1, a, s.r.lo, s.r.hi);
    ShiftPointRange(k, p1, s.r.lo);
    ShiftPointRange(k, p1, s.r.hi);
    PrefixRange(k, s.r.hi);
    MulMonotone(k, 0, Width(s.r));
  }

  /** A fold keeps the invariants, records the lower leading digit as the
   *  deferred one and scales the interval by k. */
  lemma FoldStepGood(k: int, s: State)
    requires ValidBase(k) && Good(k, s) && Straddles(k, s.r)
    ensures Good(k, FoldStep(k, s))
    ensures Width(FoldStep(k, s).r) == k * Width(s.r)
    ensures !Agrees(k, FoldStep(k, s).r)
  {
    var p1 := PrefixDivisor(k);
    var a := Prefix(k, s.r.lo);
    var f := Fold(k, s.r);
    PrefixOrdered(k, s.r);
    FoldBounds(k, s.r);
    FloorIs(f.lo, p1, a);
    FloorIs(f.hi, p1, a + 1);
  }

  /** Ends whose leading digits are in order are in order. */
  lemma PrefixOrdered(k: int, r: Interval)
    requires ValidBase(k) && Prefix(k, r.lo) < Prefix(k, r.hi)
    ensures r.lo < r.hi
  {
    if r.hi <= r.lo {
      QuotientOrder(r.hi, r.lo, PrefixDivisor(k));
    }
  }

  /** The folded interval lies in the blocks a and a + 1 like the original,
   *  touching both, and is k times as wide. */
  lemma FoldBounds(k: int, r: Interval)
    requires ValidBase(k) && 0 <= r.lo <= r.hi && r.hi < Top(k) && Straddles(k, r)
    ensures var p1, a, f := PrefixDivisor(k), Prefix(k, r.lo), Fold(k, r);
      0 <= a * p1 <= f.lo < a * p1 + p1
      && (a + 1) * p1 <= f.hi < (a + 2) * p1 <= Top(k)
      && Width(f) == k * Width(r) && Width(f) >= 2
  {
    var p1, p2 := PrefixDivisor(k), SecondPrefixDivisor(k);
    var a, l2 := Prefix(k, r.lo), SecondPrefix(k, r.lo);
    FloorIs(r.lo, p1, a);
    FloorIs(r.hi, p1, a + 1);
    FloorIs(r.lo, p2, l2);
    FloorIs(r.hi, p2, l2 + 1);
    FoldBlock(k, p1, p2, a, l2, r.lo, r.hi);
  }

  /** The renormalisation loop as written (lib/main.ts:208-245): emit while
   *  the ends agree on the leading digit, fold once if they straddle a digit
   *  boundary, and then stop. */
  function Renorm(k: int, s: State, ghost j: nat): (t: State)
    requires ValidBase(k) && Good(k, s) && ShiftedBy(k, s.r, j)
    ensures Good(k, t) && !Agrees(k, t.r)
    ensures |s.out| <= |t.out| && t.out[..|s.out|] == s.out
    decreases Digits(k) - j
  {
    if Agrees(k, s.r) then
      EmitStepGood(k, s, j);
      Renorm(k, EmitStep(k, s), j + 1)
    else if Straddles(k, s.r) then
      FoldStepGood(k, s);
      FoldStep(k, s)
    else
      s
  }

  /** One byte of input (lib/main.ts:202-245). */
  function Step(k: int, s: State, b: byte): (t: State)
    requires ValidBase(k) && Good(k, s)
    ensures Good(k, t) && !Agrees(k, t.r)
    ensures |s.out| <= |t.out| && t.out[..|s.out|] == s.out
  {
    var n := s.(r := Narrow(s.r, b as int));
    assert Good(k, n);
    Renorm(k, n, 0)
  }

  /** Deferred digits are pending only while the ends disagree. */
  predicate Settled(k: int, s: State)
    requires ValidBase(k)
  {
    s.deferredCount > 0 ==> !Agrees(k, s.r)
  }

  /** The state after the bytes of `data`, processed in order. */
  function Run(k: int, s: State, data: seq<byte>): (t: State)
    requires ValidBase(k) && Good(k, s) && Settled(k, s)
    ensures Good(k, t) && Settled(k, t)
    ensures |s.out| <= |t.out| && t.out[..|s.out|] == s.out
  {
    if data == [] then s else Step(k, Run(k, s, data[..|data| - 1]), data[|data| - 1])
  }

  /** The bounds the finalisation starts from: the end-of-input flush may
   *  leave lo above hi + 1. */
  predicate Loose(k: int, r: Interval)
    requires ValidBase(k)
  {
    0 <= r.lo <= Top(k) && 0 <= r.hi < Top(k)
  }

  /** The end-of-input flush (lib/main.ts:248-257): the pending deferred
   *  digits are resolved by the upper leading digit, followed by zeros. */
  function Flush(k: int, s: State): (t: State)
    requires ValidBase(k) && Good(k, s)
    ensures Loose(k, t.r) && t.deferredCount == 0 && IsDigits(k, t.out)
    ensures |s.out| <= |t.out| && t.out[..|s.out|] == s.out
  {
    if s.deferredCount > 0 then
      PrefixRange(k, s.r.hi);
      ShiftPointRange(k, PrefixDivisor(k), s.r.lo);
      ShiftPointRange(k, PrefixDivisor(k), s.r.hi);
      State(Shift(k, s.r), 0, s.deferredLoPrefix, s.out + [Prefix(k, s.r.hi)] + Repeat(0, s.deferredCount))
    else
      s
  }

  /** The interval after one finalisation digit (lib/main.ts:290-295). */
  function FinalShift(k: int, r: Interval): Interval
    requires ValidBase(k)
  {
    Interval(if Prefix(k, r.lo) < Prefix(k, r.hi) then 0 else ShiftPoint(k, r.lo), ShiftPoint(k, r.hi) + (k - 1))
  }

  function NextCount(k: int, j: nat): nat
    requires ValidBase(k)
  {
    if j < Digits(k) then j + 1 else j
  }

  lemma FinalShiftCounts(k: int, r: Interval, j: nat)
    requires ValidBase(k) && Loose(k, r) && ShiftedBy(k, r, j)
    requires !(r.lo == 0 && r.hi == Top(k) - 1)
    ensures Loose(k, FinalShift(k, r))
    ensures ShiftedBy(k, FinalShift(k, r), NextCount(k, j))
    ensures j == Digits(k) ==> FinalShift(k, r).lo < r.lo
  {
    var p1 := PrefixDivisor(k);
    ShiftPointRange(k, p1, r.lo);
    ShiftPointRange(k, p1, r.hi);
    if j == Digits(k) {
      FinalShiftAtFullCount(k, r);
    } else {
      FinalShiftAligned(k, r, j);
    }
  }

  /** At the full count only the empty interval at M is left, and it shifts
   *  to the whole window. */
  lemma FinalShiftAtFullCount(k: int, r: Interval)
    requires ValidBase(k) && Loose(k, r) && ShiftedBy(k, r, Digits(k))
    requires !(r.lo == 0 && r.hi == Top(k) - 1)
    ensures r.lo == Top(k) && FinalShift(k, r) == Interval(0, Top(k) - 1)
    ensures ShiftedBy(k, FinalShift(k, r), Digits(k))
  {
    var m, p1 := Top(k), PrefixDivisor(k);
    DivisorPowers(k);
    FullyAligned(m, r.lo, r.hi);
    TopShift(k, p1);
    FloorIs(m, p1, k);
    FloorIs(m - 1, p1, k - 1);
    FloorIs(0, m, 0);
    FloorIs(m - 1, m, 0);
  }

  lemma FinalShiftAligned(k: int, r: Interval, j: nat)
    requires ValidBase(k) && Loose(k, r) && ShiftedBy(k, r, j) && j < Digits(k)
    ensures ShiftedBy(k, FinalShift(k, r), j + 1)
  {
    var n, p1 := Digits(k), PrefixDivisor(k);
    var lp, hp := Prefix(k, r.lo), Prefix(k, r.hi);
    DivisorPowers(k);
    FloorIs(r.lo, p1, lp);
    FloorIs(r.hi, p1, hp);
    var t, u := Pow(k, j), Pow(k, n - 1 - j);
    assert j + (n - 1 - j) == n - 1;
    PowAdd(k, j, n - 1 - j);
    PowPositive(k, j);
    PowPositive(k, n - 1 - j);
    AlignedLow(k, t, u, lp, r.lo);
    AlignedHigh(k, t, u, hp, r.hi);
    assert Pow(k, j + 1) == k * t;
    FloorIs(0, k * t, 0);
  }

  /** The finalisation loop as written (lib/main.ts:261-296): a 0 if the
   *  interval is the whole window, the digit lp + 1 if a whole digit block
   *  lies strictly inside, otherwise the upper leading digit and repeat. */
  function Finalize(k: int, r: Interval, ghost j: nat): (ds: seq<int>)
    requires ValidBase(k) && Loose(k, r) && ShiftedBy(k, r, j)
    ensures |ds| >= 1 && IsDigits(k, ds)
    decreases Digits(k) - j, r.lo
  {
    if r.lo == 0 && r.hi == Top(k) - 1 then
      [0]
    else
      var lp, hp := Prefix(k, r.lo), Prefix(k, r.hi);
      PrefixRange(k, r.hi);
      if hp - lp > 1 then
        DivBounds(r.lo, PrefixDivisor(k));
        [lp + 1]
      else
        FinalShiftCounts(k, r, j);
        [hp] + Finalize(k, FinalShift(k, r), NextCount(k, j))
  }

  /** The digits `encode` produces for `data` in base k, before they are
   *  mapped to characters. */
  function Encoded(k: int, data: seq<byte>): (ds: seq<int>)
    requires ValidBase(k)
    ensures |ds| >= 1 && IsDigits(k, ds)
  {
    var s := Flush(k, Run(k, Start(k), data));
    s.out + Finalize(k, s.r, 0)
  }

  // The window in absolute terms. At scale k^Level(s) * M the digits
  // emitted so far and the deferred positions put the window's origin at
  // Base(s); a deferred position counts as the lower candidate's k - 1 when
  // measured from the upper candidate deferredLoPrefix + 1.

  function Level(s: State): nat
  {
    |s.out| + s.deferredCount
  }

  function Base(k: int, s: State): int
    requires ValidBase(k)
  {
    var t := Pow(k, s.deferredCount);
    Value(k, s.out) * t * (k * PrefixDivisor(k)) + (s.deferredLoPrefix + 1) * (t - 1) * PrefixDivisor(k)
  }

  function Low(k: int, s: State): int
    requires ValidBase(k)
  {
    Base(k, s) + s.r.lo
  }

  /** One past the top of the window. */
  function High(k: int, s: State): int
    requires ValidBase(k)
  {
    Base(k, s) + s.r.hi + 1
  }

  /** An emission, with the deferred digits it resolves, moves the window
   *  one place down in scale and nowhere else. */
  lemma EmitKeepsInterval(k: int, s: State)
    requires ValidBase(k) && Good(k, s) && Agrees(k, s.r)
    ensures Level(EmitStep(k, s)) == Level(s) + 1
    ensures Low(k, EmitStep(k, s)) == k * Low(k, s)
    ensures High(k, EmitStep(k, s)) == k * High(k, s)
  {
    var p1 := PrefixDivisor(k);
    var a, d := Prefix(k, s.r.lo), s.deferredLoPrefix;
    var t, v := Pow(k, s.deferredCount), Value(k, s.out);
    var e := EmitStep(k, s);
    EmitShape(k, s);
    var vr := if a == d then t - 1 else 0;
    var b0, b1 := Base(k, s), Base(k, e);
    assert b1 == ((v * k + a) * t + vr) * (k * p1) by {
      EmitBase(k, s, a);
    }
    assert a == d || a == d + 1 || t == 1 by {
      EmitDigitChoice(k, s);
      if s.deferredCount == 0 {
        assert t == 1;
      }
    }
    EmitWindow(k, v, t, p1, a, d, vr, s.r.lo, b0, b1, e.r.lo);
    EmitWindow(k, v, t, p1, a, d, vr, s.r.hi + 1, b0, b1, e.r.hi + 1);
  }

  /** On agreeing ends a shift is x -> k*x - a*M. */
  lemma EmitShape(k: int, s: State)
    requires ValidBase(k) && Good(k, s) && Agrees(k, s.r)
    ensures EmitStep(k, s).r.lo == k * s.r.lo - Prefix(k, s.r.lo) * (k * PrefixDivisor(k))
    ensures EmitStep(k, s).r.hi + 1 == k * (s.r.hi + 1) - Prefix(k, s.r.lo) * (k * PrefixDivisor(k))
  {
    var p1, a := PrefixDivisor(k), Prefix(k, s.r.lo);
    BlockOf(k, s.r.lo, a);
    BlockOf(k, s.r.hi, a);
    ShiftArith(k, p1, s.r.lo, a);
    ShiftUpperArith(k, p1, s.r.hi, a);
  }

  /** While digits are deferred the emitted digit is one of the two
   *  candidates. */
  lemma EmitDigitChoice(k: int, s: State)
    requires ValidBase(k) && Good(k, s) && Agrees(k, s.r)
    ensures s.deferredCount > 0 ==>
      Prefix(k, s.r.lo) == s.deferredLoPrefix || Prefix(k, s.r.lo) == s.deferredLoPrefix + 1
  {
    if s.deferredCount > 0 {
      var p1, a, d := PrefixDivisor(k), Prefix(k, s.r.lo), s.deferredLoPrefix;
      BlockOf(k, s.r.lo, a);
      BlockOf(k, s.r.hi, a);
      BlockAtLeast(p1, d, a, s.r.lo);
      LessByFactor(a, d + 2, p1);
    }
  }

  /** The digits an emission appends: a, then the resolved deferred digits. */
  lemma EmitBase(k: int, s: State, a: int)
    requires ValidBase(k) && a == Prefix(k, s.r.lo)
    ensures Base(k, EmitStep(k, s))
         == ((Value(k, s.out) * k + a) * Pow(k, s.deferredCount)
             + (if a == s.deferredLoPrefix then Pow(k, s.deferredCount) - 1 else 0)) * (k * PrefixDivisor(k))
  {
    var e := EmitStep(k, s);
    EmitValue(k, s, a);
    BaseWithoutDeferred(k, e);
  }

  lemma EmitValue(k: int, s: State, a: int)
    requires ValidBase(k) && a == Prefix(k, s.r.lo)
    ensures Value(k, EmitStep(k, s).out)
         == (Value(k, s.out) * k + a) * Pow(k, s.deferredCount)
            + (if a == s.deferredLoPrefix then Pow(k, s.deferredCount) - 1 else 0)
  {
    var rs := Resolve(k, s, a);
    ResolveValue(k, s, a);
    AppendDigit(k, s.out, a);
    ValueAppend(k, s.out + [a], rs);
  }

  /** The resolved deferred digits are worth k^c - 1 or 0. */
  lemma ResolveValue(k: int, s: State, a: int)
    ensures |Resolve(k, s, a)| == s.deferredCount
    ensures Value(k, Resolve(k, s, a)) == if a == s.deferredLoPrefix then Pow(k, s.deferredCount) - 1 else 0
  {
    if a == s.deferredLoPrefix {
      ValueRepeat(k, s.deferredCount);
    } else {
      ValueZeros(k, s.deferredCount);
    }
  }

  /** x lies in the block of its leading digit. */
  lemma BlockOf(k: int, x: int, a: int)
    requires ValidBase(k) && a == Prefix(k, x)
    ensures a * PrefixDivisor(k) <= x < a * PrefixDivisor(k) + PrefixDivisor(k)
  {
    FloorIs(x, PrefixDivisor(k), a);
  }

  lemma BaseWithoutDeferred(k: int, s: State)
    requires ValidBase(k) && s.deferredCount == 0
    ensures Base(k, s) == Value(k, s.out) * (k * PrefixDivisor(k))
  {
    assert Pow(k, 0) == 1;
  }

  /** A fold defers one more digit and moves the window one place down in
   *  scale and nowhere else. */
  lemma FoldKeepsInterval(k: int, s: State)
    requires ValidBase(k) && Good(k, s) && Straddles(k, s.r)
    ensures Level(FoldStep(k, s)) == Level(s) + 1
    ensures Low(k, FoldStep(k, s)) == k * Low(k, s)
    ensures High(k, FoldStep(k, s)) == k * High(k, s)
  {
    var p1 := PrefixDivisor(k);
    var a, d := Prefix(k, s.r.lo), s.deferredLoPrefix;
    var t, v := Pow(k, s.deferredCount), Value(k, s.out);
    var f := FoldStep(k, s);
    FoldShape(k, s);
    FoldDigitChoice(k, s);
    FoldBase(k, s);
    FoldWindow(k, v, t, p1, a, d, s.r.lo, Base(k, s), Base(k, f), f.r.lo);
    FoldWindow(k, v, t, p1, a, d, s.r.hi + 1, Base(k, s), Base(k, f), f.r.hi + 1);
  }

  lemma FoldShape(k: int, s: State)
    requires ValidBase(k) && Good(k, s) && Straddles(k, s.r)
    ensures FoldStep(k, s).r.lo == k * s.r.lo - (Prefix(k, s.r.lo) + 1) * (k - 1) * PrefixDivisor(k)
    ensures FoldStep(k, s).r.hi + 1 == k * (s.r.hi + 1) - (Prefix(k, s.r.lo) + 1) * (k - 1) * PrefixDivisor(k)
  {
    PrefixOrdered(k, s.r);
    FoldIsAffine(k, s.r, s.r.lo);
    FoldIsAffine(k, s.r, s.r.hi);
  }

  /** A fold while digits are already deferred straddles the same boundary. */
  lemma FoldDigitChoice(k: int, s: State)
    requires ValidBase(k) && Good(k, s) && Straddles(k, s.r)
    ensures s.deferredCount > 0 ==> Prefix(k, s.r.lo) == s.deferredLoPrefix
  {
    if s.deferredCount > 0 {
      var p1, a, d := PrefixDivisor(k), Prefix(k, s.r.lo), s.deferredLoPrefix;
      BlockOf(k, s.r.lo, a);
      BlockOf(k, s.r.hi, a + 1);
      BlockAtLeast(p1, d, a, s.r.lo);
      LessByFactor(a + 1, d + 2, p1);
    }
  }

  lemma FoldBase(k: int, s: State)
    requires ValidBase(k)
    ensures Base(k, FoldStep(k, s))
         == Value(k, s.out) * (k * Pow(k, s.deferredCount)) * (k * PrefixDivisor(k))
            + (Prefix(k, s.r.lo) + 1) * (k * Pow(k, s.deferredCount) - 1) * PrefixDivisor(k)
  {
    assert Pow(k, s.deferredCount + 1) == k * Pow(k, s.deferredCount);
  }

  /** Renormalisation only rescales the absolute window: both ends are
   *  multiplied by k once per emitted or deferred digit. */
  lemma {:induction false} RenormKeepsInterval(k: int, s: State, j: nat)
    requires ValidBase(k) && Good(k, s) && ShiftedBy(k, s.r, j)
    ensures Level(s) <= Level(Renorm(k, s, j))
    ensures Low(k, Renorm(k, s, j)) == Pow(k, Level(Renorm(k, s, j)) - Level(s)) * Low(k, s)
    ensures High(k, Renorm(k, s, j)) == Pow(k, Level(Renorm(k, s, j)) - Level(s)) * High(k, s)
    decreases Digits(k) - j
  {
    var t := Renorm(k, s, j);
    if Agrees(k, s.r) {
      EmitStepGood(k, s, j);
      EmitKeepsInterval(k, s);
      var s1 := EmitStep(k, s);
      RenormKeepsInterval(k, s1, j + 1);
      var e := Level(t) - Level(s1);
      assert Level(t) - Level(s) == e + 1;
      ScaleOnce(k, Pow(k, e), Low(k, s));
      ScaleOnce(k, Pow(k, e), High(k, s));
    } else if Straddles(k, s.r) {
      FoldKeepsInterval(k, s);
      assert Pow(k, 1) == k;
    } else {
      assert Pow(k, 0) == 1;
    }
  }

  lemma ScaleOnce(k: int, q: int, x: int)
    ensures q * (k * x) == (k * q) * x
  {}

  /** The absolute window after a byte: the byte's slice of the window
   *  before it, rescaled. */
  function Abs(k: int, s: State): Interval
    requires ValidBase(k)
  {
    Interval(Low(k, s), High(k, s) - 1)
  }

  /** Encoding a byte selects its slice of the absolute window; the
   *  renormalisation that follows changes only the scale. */
  lemma StepNarrows(k: int, s: State, b: byte)
    requires ValidBase(k) && Good(k, s)
    ensures Level(s) <= Level(Step(k, s, b))
    ensures Low(k, Step(k, s, b)) == Pow(k, Level(Step(k, s, b)) - Level(s)) * Narrow(Abs(k, s), b as int).lo
    ensures High(k, Step(k, s, b)) == Pow(k, Level(Step(k, s, b)) - Level(s)) * (Narrow(Abs(k, s), b as int).hi + 1)
  {
    var n := s.(r := Narrow(s.r, b as int));
    assert Good(k, n) && ShiftedBy(k, n.r, 0);
    RenormKeepsInterval(k, n, 0);
    NarrowedWindow(k, s, b);
  }

  /** Narrowing the state's interval narrows the absolute window alike. */
  lemma NarrowedWindow(k: int, s: State, b: byte)
    requires ValidBase(k) && Good(k, s)
    ensures Level(s.(r := Narrow(s.r, b as int))) == Level(s)
    ensures Low(k, s.(r := Narrow(s.r, b as int))) == Narrow(Abs(k, s), b as int).lo
    ensures High(k, s.(r := Narrow(s.r, b as int))) == Narrow(Abs(k, s), b as int).hi + 1
  {
    var n := s.(r := Narrow(s.r, b as int));
    var c := Base(k, s);
    assert Base(k, n) == c;
    assert Abs(k, s) == Interval(s.r.lo + c, s.r.hi + c);
    NarrowMoves(s.r, c, b as int);
  }

  /** The end-of-input flush commits to the upper candidate digit: the top of
   *  the window only rescales, its bottom rises to the start of that digit's
   *  block. */
  lemma FlushKeepsTop(k: int, s: State)
    requires ValidBase(k) && Good(k, s) && Settled(k, s) && s.deferredCount > 0 && s.r.lo <= s.r.hi
    ensures Level(Flush(k, s)) == Level(s) + 1
    ensures High(k, Flush(k, s)) == k * High(k, s)
    ensures Low(k, Flush(k, s)) == k * Low(k, s) + Top(k)
  {
    var p1 := PrefixDivisor(k);
    var d := s.deferredLoPrefix;
    var t, v := Pow(k, s.deferredCount), Value(k, s.out);
    var f := Flush(k, s);
    FlushShape(k, s);
    FlushBase(k, s);
    FlushWindow(k, v, t, p1, d, s.r.lo, s.r.hi + 1, Base(k, s), Base(k, f), f.r.lo, f.r.hi + 1);
  }

  /** At the flush the window straddles the boundary between the two
   *  candidate digits. */
  lemma FlushPrefixes(k: int, s: State)
    requires ValidBase(k) && Good(k, s) && Settled(k, s) && s.deferredCount > 0 && s.r.lo <= s.r.hi
    ensures Prefix(k, s.r.lo) == s.deferredLoPrefix && Prefix(k, s.r.hi) == s.deferredLoPrefix + 1
  {
    var p1, d := PrefixDivisor(k), s.deferredLoPrefix;
    var lp, hp := Prefix(k, s.r.lo), Prefix(k, s.r.hi);
    BlockOf(k, s.r.lo, lp);
    BlockOf(k, s.r.hi, hp);
    BlockAtLeast(p1, d, lp, s.r.lo);
    BlockAtLeast(p1, lp, hp, s.r.hi);
    LessByFactor(hp, d + 2, p1);
  }

  lemma FlushShape(k: int, s: State)
    requires ValidBase(k) && Good(k, s) && Settled(k, s) && s.deferredCount > 0 && s.r.lo <= s.r.hi
    ensures Prefix(k, s.r.hi) == s.deferredLoPrefix + 1
    ensures Flush(k, s).r.lo == k * s.r.lo - s.deferredLoPrefix * (k * PrefixDivisor(k))
    ensures Flush(k, s).r.hi + 1 == k * (s.r.hi + 1) - (s.deferredLoPrefix + 1) * (k * PrefixDivisor(k))
  {
    var p1, d := PrefixDivisor(k), s.deferredLoPrefix;
    FlushPrefixes(k, s);
    BlockOf(k, s.r.lo, d);
    BlockOf(k, s.r.hi, d + 1);
    ShiftArith(k, p1, s.r.lo, d);
    ShiftUpperArith(k, p1, s.r.hi, d + 1);
  }

  lemma FlushBase(k: int, s: State)
    requires ValidBase(k) && Good(k, s) && s.deferredCount > 0
    ensures Base(k, Flush(k, s))
         == (Value(k, s.out) * k + Prefix(k, s.r.hi)) * Pow(k, s.deferredCount) * (k * PrefixDivisor(k))
  {
    var hp, c := Prefix(k, s.r.hi), s.deferredCount;
    var f := Flush(k, s);
    assert f.out == s.out + [hp] + Repeat(0, c);
    var v := Value(k, s.out + [hp]);
    assert v == Value(k, s.out) * k + hp by {
      ValueAppend(k, s.out, [hp]);
      assert Value(k, [hp]) == hp && Pow(k, 1) == k;
    }
    assert Value(k, f.out) == v * Pow(k, c) by {
      ValueZeros(k, c);
      ValueAppend(k, s.out + [hp], Repeat(0, c));
    }
    BaseWithoutDeferred(k, f);
  }

  /** The digits the finalisation emits name a block that lies inside the
   *  (non-empty) window: at the scale of those digits, every number that
   *  starts with them is in [lo, hi]. */
  lemma {:induction false} FinalizeInside(k: int, r: Interval, j: nat)
    requires ValidBase(k) && Loose(k, r) && ShiftedBy(k, r, j) && r.lo <= r.hi
    ensures Inside(k, Finalize(k, r, j), 0, r.lo, r.hi + 1)
    decreases Digits(k) - j, r.lo
  {
    var ds := Finalize(k, r, j);
    var hp := Prefix(k, r.hi);
    if r.lo == 0 && r.hi == Top(k) - 1 {
      assert ds == [0];
      WholeWindowInside(k, r);
    } else if hp - Prefix(k, r.lo) > 1 {
      assert ds == [Prefix(k, r.lo) + 1];
      InnerBlockInside(k, r);
    } else {
      FinalShiftCounts(k, r, j);
      var r' := FinalShift(k, r);
      var rest := Finalize(k, r', NextCount(k, j));
      assert ds == [hp] + rest;
      FinalShiftShape(k, r);
      FinalizeInside(k, r', NextCount(k, j));
      ShiftedInside(k, r, rest);
    }
  }

  /** The whole window gives the single digit 0. */
  lemma WholeWindowInside(k: int, r: Interval)
    requires ValidBase(k) && r.lo == 0 && r.hi == Top(k) - 1
    ensures Inside(k, [0], 0, r.lo, r.hi + 1)
  {
    assert Value(k, [0]) == 0 && Pow(k, 1) == k;
    MulMonotone(Top(k), 1, k);
  }

  /** A whole digit block strictly inside gives the digit lp + 1. */
  lemma InnerBlockInside(k: int, r: Interval)
    requires ValidBase(k) && 0 <= r.lo <= r.hi < Top(k) && Prefix(k, r.hi) - Prefix(k, r.lo) > 1
    ensures Inside(k, [Prefix(k, r.lo) + 1], 0, r.lo, r.hi + 1)
  {
    var lp, hp := Prefix(k, r.lo), Prefix(k, r.hi);
    assert Value(k, [lp + 1]) == lp + 1 && Pow(k, 1) == k;
    BlockOf(k, r.lo, lp);
    BlockOf(k, r.hi, hp);
    InnerBlockArith(k, PrefixDivisor(k), lp, hp, r.lo, r.hi);
  }

  /** Otherwise the upper leading digit goes in front of the digits that
   *  land in the shifted window. */
  lemma ShiftedInside(k: int, r: Interval, rest: seq<int>)
    requires ValidBase(k) && 0 <= r.lo <= r.hi < Top(k) && Prefix(k, r.hi) - Prefix(k, r.lo) <= 1
    requires Inside(k, rest, 0, FinalShift(k, r).lo, FinalShift(k, r).hi + 1)
    ensures Inside(k, [Prefix(k, r.hi)] + rest, 0, r.lo, r.hi + 1)
  {
    var hp := Prefix(k, r.hi);
    var r' := FinalShift(k, r);
    FinalShiftShape(k, r);
    var t := Pow(k, |rest|);
    PowPositive(k, |rest|);
    var ds := [hp] + rest;
    assert Value(k, ds) == hp * t + Value(k, rest) by {
      ValueAppend(k, [hp], rest);
      assert Value(k, [hp]) == hp;
    }
    FinalAlgebra(t, Top(k), hp, k * r.lo, k * (r.hi + 1), r'.lo, r'.hi + 1, Value(k, rest));
    assert Pow(k, |ds|) == k * t;
    ScaleOnce(k, t, r.lo);
    ScaleOnce(k, t, r.hi + 1);
  }

  /** One finalisation shift on a non-empty window: the bottom moves to at
   *  most k*lo - hp*M, the top to exactly k*(hi + 1) - hp*M, and the window
   *  stays non-empty. */
  lemma FinalShiftShape(k: int, r: Interval)
    requires ValidBase(k) && 0 <= r.lo <= r.hi < Top(k)
    requires Prefix(k, r.hi) - Prefix(k, r.lo) <= 1
    ensures FinalShift(k, r).lo <= FinalShift(k, r).hi
    ensures k * r.lo <= FinalShift(k, r).lo + Prefix(k, r.hi) * Top(k)
    ensures k * (r.hi + 1) == FinalShift(k, r).hi + 1 + Prefix(k, r.hi) * Top(k)
  {
    var lp, hp := Prefix(k, r.lo), Prefix(k, r.hi);
    BlockOf(k, r.lo, lp);
    BlockOf(k, r.hi, hp);
    FinalShiftArith(k, PrefixDivisor(k), lp, hp, r.lo, r.hi);
  }

  /** The digit string ds, read as one number at scale k^|ds| * M, names a
   *  block that lies inside the absolute window [lo, hi1) of level L. */
  predicate Inside(k: int, ds: seq<int>, L: nat, lo: int, hi1: int)
    requires ValidBase(k)
  {
    L <= |ds|
    && Pow(k, |ds| - L) * lo <= Value(k, ds) * Top(k)
    && (Value(k, ds) + 1) * Top(k) <= Pow(k, |ds| - L) * hi1
  }

  /** The whole output: the digits of `encode`, read as one number at the
   *  final scale, name a block inside the absolute window left after the
   *  last byte and the flush, provided that window is not empty. */
  lemma EncodedInside(k: int, data: seq<byte>)
    requires ValidBase(k)
    ensures var f := Flush(k, Run(k, Start(k), data));
      f.r.lo <= f.r.hi ==> Inside(k, Encoded(k, data), Level(f), Low(k, f), High(k, f))
  {
    var f := Flush(k, Run(k, Start(k), data));
    var ds := Encoded(k, data);
    if f.r.lo <= f.r.hi {
      FinishInside(k, f, ds);
    }
  }

  /** The same for any flushed state: its digits followed by the
   *  finalisation's. */
  lemma FinishInside(k: int, f: State, ds: seq<int>)
    requires ValidBase(k) && f.deferredCount == 0 && Loose(k, f.r) && f.r.lo <= f.r.hi
    requires ds == f.out + Finalize(k, f.r, 0)
    ensures Inside(k, ds, Level(f), Low(k, f), High(k, f))
  {
    var tail := Finalize(k, f.r, 0);
    assert |ds| - |f.out| == |tail|;
    FinalizeFromStart(k, f.r);
    FlushedWindow(k, f, tail);
    PrefixAlgebra(Pow(k, |tail|), Top(k), Value(k, f.out), f.r.lo, f.r.hi + 1, Value(k, tail));
  }

  lemma FinalizeFromStart(k: int, r: Interval)
    requires ValidBase(k) && Loose(k, r) && r.lo <= r.hi
    ensures ShiftedBy(k, r, 0)
    ensures Inside(k, Finalize(k, r, 0), 0, r.lo, r.hi + 1)
  {
    assert Pow(k, 0) == 1;
    FinalizeInside(k, r, 0);
  }

  lemma FlushedWindow(k: int, f: State, tail: seq<int>)
    requires ValidBase(k) && f.deferredCount == 0
    ensures Value(k, f.out + tail) == Value(k, f.out) * Pow(k, |tail|) + Value(k, tail)
    ensures Low(k, f) == Value(k, f.out) * Top(k) + f.r.lo
    ensures High(k, f) == Value(k, f.out) * Top(k) + (f.r.hi + 1)
  {
    ValueAppend(k, f.out, tail);
    BaseWithoutDeferred(k, f);
  }
}
