/** Decoding what `encode` produced (lib/main.ts:176-302 read back by
 *  lib/main.ts:312-435). The decoder replays the encoder's narrowings in
 *  lockstep, so every byte it infers is the byte that was encoded at that
 *  position. Which bytes it infers at the end is a separate matter: the
 *  full round trip fails for some inputs (see the Findings module). */
module RoundTrip {
  import opened Common
  import opened Arith
  import opened PlaceValues
  import opened Range
  import opened Encoder
  import opened Decoder

  // ---------------------------------------------------------------------
  // The encoder's windows, in absolute terms, all hold the output.

  /** The encoder's state after the whole input. */
  function Last(k: int, data: seq<byte>): State
    requires ValidBase(k)
  {
    Run(k, Start(k), data)
  }

  /** The output lies in the window the encoder is left with, provided that
   *  window is not empty. */
  predicate Lands(k: int, data: seq<byte>, ds: seq<int>)
    requires ValidBase(k)
  {
    WindowHolds(k, ds, Last(k, data))
  }

  lemma {:induction false} ValueRange(k: int, ds: seq<int>)
    requires ValidBase(k) && IsDigits(k, ds)
    ensures 0 <= Value(k, ds) < Pow(k, |ds|)
    decreases |ds|
  {
    if ds != [] {
      var init := ds[..|ds| - 1];
      assert IsDigits(k, init);
      ValueRange(k, init);
      var v, t := Value(k, init), Pow(k, |init|);
      assert Value(k, ds) == v * k + ds[|ds| - 1];
      assert Pow(k, |ds|) == k * t;
      DigitBelow(k, v, t, ds[|ds| - 1]);
    }
  }

  /** The block of ds, read at scale k^|ds| * M, ends at or below hi1. */
  predicate EndsBelow(k: int, ds: seq<int>, hi1: int)
    requires ValidBase(k)
  {
    (Value(k, ds) + 1) * Top(k) <= Pow(k, |ds|) * hi1
  }

  /** The finalisation's digits never reach past the top of the interval
   *  they start from, even when the flush has left its bottom above it. */
  lemma {:induction false} FinalizeBelow(k: int, r: Interval, j: nat)
    requires ValidBase(k) && Loose(k, r) && ShiftedBy(k, r, j)
    ensures EndsBelow(k, Finalize(k, r, j), r.hi + 1)
    decreases Digits(k) - j, r.lo
  {
    var ds := Finalize(k, r, j);
    var hp := Prefix(k, r.hi);
    if r.lo == 0 && r.hi == Top(k) - 1 {
      assert ds == [0];
      WholeWindowInside(k, r);
    } else if hp - Prefix(k, r.lo) > 1 {
      assert ds == [Prefix(k, r.lo) + 1];
      PrefixOrdered(k, r);
      InnerBlockInside(k, r);
    } else {
      FinalShiftCounts(k, r, j);
      var r' := FinalShift(k, r);
      var rest := Finalize(k, r', NextCount(k, j));
      assert ds == [hp] + rest;
      FinalizeBelow(k, r', NextCount(k, j));
      ShiftedBelow(k, r, rest);
    }
  }

  /** The upper leading digit in front of digits below the shifted top
   *  stays below the top. */
  lemma ShiftedBelow(k: int, r: Interval, rest: seq<int>)
    requires ValidBase(k) && 0 <= r.hi < Top(k)
    requires EndsBelow(k, rest, FinalShift(k, r).hi + 1)
    ensures EndsBelow(k, [Prefix(k, r.hi)] + rest, r.hi + 1)
  {
    var p1, hp := PrefixDivisor(k), Prefix(k, r.hi);
    var r' := FinalShift(k, r);
    var ds := [hp] + rest;
    BlockOf(k, r.hi, hp);
    ModIs(r.hi, p1, hp);
    var t, v := Pow(k, |rest|), Value(k, rest);
    assert Value(k, ds) == hp * t + v by {
      ValueAppend(k, [hp], rest);
      assert Value(k, [hp]) == hp;
    }
    assert Pow(k, |ds|) == k * t;
    assert r'.hi == (r.hi - hp * p1) * k + (k - 1);
    TopBound(k, t, p1, hp, r.hi, r'.hi, v);
  }

  lemma TopBound(k: int, t: int, p1: int, hp: int, hi: int, hi': int, v: int)
    requires hi' == (hi - hp * p1) * k + (k - 1) && (v + 1) * (k * p1) <= t * (hi' + 1)
    ensures (hp * t + v + 1) * (k * p1) <= (k * t) * (hi + 1)
  {
    assert t * (hi' + 1) == k * t * (hi + 1) - hp * t * (k * p1);
  }

  /** The output lies in the window left after the last byte. */
  lemma FinalInside(k: int, data: seq<byte>)
    requires ValidBase(k) && Last(k, data).r.lo <= Last(k, data).r.hi
    ensures Lands(k, data, Encoded(k, data))
  {
    var s := Last(k, data);
    if s.deferredCount == 0 {
      assert Flush(k, s) == s;
      EncodedInside(k, data);
    } else {
      DeferredInside(k, s, Encoded(k, data));
    }
  }

  /** With digits still deferred at the end, the flush and the finalisation
   *  still land in the window. */
  lemma DeferredInside(k: int, s: State, ds: seq<int>)
    requires ValidBase(k) && Good(k, s) && Settled(k, s) && s.deferredCount > 0 && s.r.lo <= s.r.hi
    requires ds == Flush(k, s).out + Finalize(k, Flush(k, s).r, 0)
    ensures WindowHolds(k, ds, s)
  {
    var f := Flush(k, s);
    var tail := Finalize(k, f.r, 0);
    FlushKeepsTop(k, s);
    assert ShiftedBy(k, f.r, 0) by {
      assert Pow(k, 0) == 1;
    }
    FinalizeBelow(k, f.r, 0);
    FlushedWindow(k, f, tail);
    ValueRange(k, tail);
    var t := Pow(k, |tail|);
    assert |ds| - Level(s) == |tail| + 1;
    assert Pow(k, |tail| + 1) == k * t;
    FlushedAlgebra(k, t, Top(k), Value(k, f.out), Value(k, tail), f.r.lo, f.r.hi + 1, Low(k, s), High(k, s));
  }

  lemma FlushedAlgebra(k: int, t: int, m: int, u: int, v: int, lo: int, hi1: int, low: int, high: int)
    requires t >= 1 && m >= 1 && k >= 2 && lo <= m && 0 <= v
    requires u * m + lo == k * low + m && u * m + hi1 == k * high
    requires (v + 1) * m <= t * hi1
    ensures (k * t) * low <= (u * t + v) * m
    ensures (u * t + v + 1) * m <= (k * t) * high
  {
    MulMonotone(t, k * low, u * m);
    assert (k * t) * low == t * (k * low);
    assert (u * t + v + 1) * m == t * (u * m) + (v + 1) * m;
    assert (k * t) * high == t * (u * m) + t * hi1;
  }

  /** The output lies in encoder state s's window. */
  predicate WindowHolds(k: int, ds: seq<int>, s: State)
    requires ValidBase(k)
  {
    Inside(k, ds, Level(s), Low(k, s), High(k, s))
  }

  /** The output lies in the slice that byte b selects of s's window. */
  predicate SliceHolds(k: int, ds: seq<int>, s: State, b: byte)
    requires ValidBase(k) && Good(k, s)
  {
    var n := Narrow(Abs(k, s), b as int);
    Inside(k, ds, Level(s), n.lo, n.hi + 1)
  }

  /** A byte's step nests the windows: the window after it, rescaled, lies
   *  in the byte's slice of the window before. */
  lemma StepInside(k: int, s: State, b: byte, ds: seq<int>)
    requires ValidBase(k) && Good(k, s) && WindowHolds(k, ds, Step(k, s, b))
    ensures SliceHolds(k, ds, s, b) && WindowHolds(k, ds, s)
  {
    var t := Step(k, s, b);
    var a := Abs(k, s);
    var n := Narrow(a, b as int);
    StepNarrows(k, s, b);
    assert Low(k, s) <= n.lo && n.hi + 1 <= High(k, s);
    NestWindows(k, ds, s, t, n);
    assert SliceHolds(k, ds, s, b) by {
      assert Inside(k, ds, Level(s), n.lo, n.hi + 1);
    }
  }

  /** A window t that is slice n of s's window, rescaled by the levels in
   *  between, passes what it holds on to n and to s's window. */
  lemma NestWindows(k: int, ds: seq<int>, s: State, t: State, n: Interval)
    requires ValidBase(k) && Level(s) <= Level(t)
    requires Low(k, t) == Pow(k, Level(t) - Level(s)) * n.lo && High(k, t) == Pow(k, Level(t) - Level(s)) * (n.hi + 1)
    requires Low(k, s) <= n.lo && n.hi + 1 <= High(k, s)
    requires WindowHolds(k, ds, t)
    ensures Inside(k, ds, Level(s), n.lo, n.hi + 1) && WindowHolds(k, ds, s)
  {
    LevelPowers(k, |ds|, Level(s), Level(t));
    var x := Value(k, ds);
    NestAlgebra(Pow(k, |ds| - Level(t)), Pow(k, Level(t) - Level(s)), Pow(k, |ds| - Level(s)),
      Low(k, t), High(k, t), n.lo, n.hi + 1, Low(k, s), High(k, s), x * Top(k), (x + 1) * Top(k));
  }

  lemma LevelPowers(k: int, n: nat, ls: nat, lt: nat)
    requires ValidBase(k) && ls <= lt <= n
    ensures Pow(k, n - ls) == Pow(k, n - lt) * Pow(k, lt - ls)
    ensures Pow(k, n - lt) >= 1 && Pow(k, lt - ls) >= 1
  {
    PowAdd(k, n - lt, lt - ls);
    PowPositive(k, n - lt);
    PowPositive(k, lt - ls);
  }

  lemma NestAlgebra(f: int, g: int, h: int, lot: int, hit: int, nlo: int, nhi1: int, low: int, high: int, xm: int, xm1: int)
    requires f >= 1 && g >= 1 && h == f * g && lot == g * nlo && hit == g * nhi1
    requires f * lot <= xm && xm1 <= f * hit && low <= nlo && nhi1 <= high
    ensures h * nlo <= xm && xm1 <= h * nhi1
    ensures h * low <= xm && xm1 <= h * high
  {
    assert f * lot == h * nlo && f * hit == h * nhi1;
    MulMonotone(h, low, nlo);
    MulMonotone(h, nhi1, high);
  }

  /** The step from the state after m bytes to the state after m + 1. */
  lemma StepBack(k: int, data: seq<byte>, ds: seq<int>, m: nat, s: State, t: State)
    requires ValidBase(k) && m < |data|
    requires s == Run(k, Start(k), data[..m]) && t == Run(k, Start(k), data[..m + 1])
    requires WindowHolds(k, ds, t)
    ensures SliceHolds(k, ds, s, data[m]) && WindowHolds(k, ds, s)
  {
    RunNext(k, data, m);
    StepInside(k, s, data[m], ds);
  }

  /** Every byte's slice holds the output, given the last window does. */
  lemma {:induction false} RunInside(k: int, data: seq<byte>, ds: seq<int>, m: nat)
    requires ValidBase(k) && m <= |data| && Lands(k, data, ds)
    ensures WindowHolds(k, ds, Run(k, Start(k), data[..m]))
    ensures m < |data| ==> SliceHolds(k, ds, Run(k, Start(k), data[..m]), data[m])
    decreases |data| - m
  {
    if m < |data| {
      RunInside(k, data, ds, m + 1);
      StepBack(k, data, ds, m, Run(k, Start(k), data[..m]), Run(k, Start(k), data[..m + 1]));
    } else {
      assert data[..m] == data;
    }
  }

  /** The encoder's state after m + 1 bytes is one step on from its state
   *  after m. */
  lemma RunNext(k: int, data: seq<byte>, m: nat)
    requires ValidBase(k) && m < |data|
    ensures Run(k, Start(k), data[..m + 1]) == Step(k, Run(k, Start(k), data[..m]), data[m])
  {
    var pre := data[..m + 1];
    assert pre[..m] == data[..m] && pre[m] == data[m];
  }

  /** The encoder's states along data: the i-th is the state after i bytes. */
  function Trace(k: int, data: seq<byte>): (ss: seq<State>)
    requires ValidBase(k)
    ensures |ss| == |data| + 1
  {
    seq(|data| + 1, i requires 0 <= i <= |data| => Run(k, Start(k), data[..i]))
  }

  /** ss steps through data from the start, and the output lies in the
   *  slice of every byte. */
  predicate Follows(k: int, data: seq<byte>, ds: seq<int>, ss: seq<State>)
    requires ValidBase(k)
  {
    |ss| == |data| + 1 && ss[0] == Start(k)
    && (forall i | 0 <= i <= |data| :: Good(k, ss[i]))
    && (forall i | 0 <= i < |data| :: ss[i + 1] == Step(k, ss[i], data[i]) && SliceHolds(k, ds, ss[i], data[i]))
  }

  /** The output of a run that ends in a non-empty window lies in every
   *  byte's slice along the way. */
  lemma TraceFollows(k: int, data: seq<byte>, ds: seq<int>)
    requires ValidBase(k) && Lands(k, data, ds)
    ensures Follows(k, data, ds, Trace(k, data))
  {
    var ss := Trace(k, data);
    assert data[..0] == [];
    forall i | 0 <= i < |data|
      ensures ss[i + 1] == Step(k, ss[i], data[i]) && SliceHolds(k, ds, ss[i], data[i])
    {
      RunInside(k, data, ds, i);
      RunNext(k, data, i);
    }
  }

  // ---------------------------------------------------------------------
  // The decoder keeps in step with the encoder.

  /** Decoder state d, having read the first c digits of ds, is in step with
   *  encoder state s: the same interval, as many shifts and folds as the
   *  encoder's level, and, measured in the encoder's absolute terms, the
   *  block of readings is the block those c digits name. */
  predicate Sync(k: int, s: State, d: DState, ds: seq<int>, c: nat)
    requires ValidBase(k) && d.mi <= Digits(k)
  {
    c <= |ds| && d.r == s.r && Level(s) + d.mi == c
    && Base(k, s) + d.acc == Value(k, ds[..c]) * Place(k, d.mi)
  }

  lemma EmitSync(k: int, s: State, d: DState, ds: seq<int>, c: nat)
    requires ValidBase(k) && Good(k, s) && Tracks(k, d) && Agrees(k, s.r) && Sync(k, s, d, ds, c)
    ensures Tracks(k, DShift(k, d)) && Sync(k, EmitStep(k, s), DShift(k, d), ds, c)
  {
    DShiftTracks(k, d);
    PlacePositive(k, d.mi);
    EmitKeepsInterval(k, s);
    ShiftIsAffine(k, s.r, s.r.lo);
    ShiftIsAffine(k, s.r, d.acc);
    var e := EmitStep(k, s);
    MoveAlgebra(k, Base(k, s), Base(k, e), s.r.lo, e.r.lo, d.acc, DShift(k, d).acc,
      Prefix(k, s.r.lo) * Top(k), Value(k, ds[..c]), Place(k, d.mi), Place(k, d.mi - 1));
  }

  lemma FoldSync(k: int, s: State, d: DState, ds: seq<int>, c: nat)
    requires ValidBase(k) && Good(k, s) && Tracks(k, d) && Straddles(k, s.r) && Sync(k, s, d, ds, c)
    ensures Tracks(k, DFold(k, d)) && Sync(k, FoldStep(k, s), DFold(k, d), ds, c)
  {
    DFoldTracks(k, d);
    PlacePositive(k, d.mi);
    FoldKeepsInterval(k, s);
    FoldIsAffine(k, s.r, s.r.lo);
    FoldIsAffine(k, s.r, d.acc);
    var f := FoldStep(k, s);
    MoveAlgebra(k, Base(k, s), Base(k, f), s.r.lo, f.r.lo, d.acc, DFold(k, d).acc,
      (Prefix(k, s.r.lo) + 1) * (k - 1) * PrefixDivisor(k), Value(k, ds[..c]), Place(k, d.mi), Place(k, d.mi - 1));
  }

  /** A shift or fold maps every point by x -> k*x - c0; the window's
   *  origin moves so that absolute positions scale by k. */
  lemma MoveAlgebra(k: int, bs: int, be: int, lo: int, lo': int, acc: int, acc': int, c0: int, v: int, p: int, p': int)
    requires be + lo' == k * (bs + lo) && lo' == k * lo - c0 && acc' == k * acc - c0
    requires bs + acc == v * p && p' == k * p
    ensures be + acc' == v * p'
  {
    assert be + acc' == k * (bs + acc);
  }

  /** Both renormalisations take the same branches on the same interval. */
  lemma {:induction false} RenormSync(k: int, s: State, j: nat, d: DState, ds: seq<int>, c: nat)
    requires ValidBase(k) && Good(k, s) && ShiftedBy(k, s.r, j) && Tracks(k, d) && Sync(k, s, d, ds, c)
    ensures Sync(k, Renorm(k, s, j), DRenorm(k, d), ds, c)
    decreases Digits(k) - j
  {
    if Agrees(k, s.r) {
      EmitStepGood(k, s, j);
      EmitSync(k, s, d, ds, c);
      RenormSync(k, EmitStep(k, s), j + 1, DShift(k, d), ds, c);
    } else if Straddles(k, s.r) {
      FoldSync(k, s, d, ds, c);
    }
  }

  /** Reading the next digit of ds keeps the decoder in step. */
  lemma DigitSync(k: int, s: State, d: DState, ds: seq<int>, c: nat)
    requires ValidBase(k) && Tracks(k, d) && d.mi < Digits(k) && Sync(k, s, d, ds, c) && c < |ds| && 0 <= ds[c] < k
    ensures Sync(k, s, Read(k, d, ds[c]), ds, c + 1)
  {
    assert ds[..c + 1] == ds[..c] + [ds[c]];
    AppendDigit(k, ds[..c], ds[c]);
    PlacePositive(k, d.mi + 1);
    DigitAlgebra(Base(k, s), d.acc, Value(k, ds[..c]), ds[c], k, Place(k, d.mi), Place(k, d.mi + 1));
  }

  lemma DigitAlgebra(base: int, acc: int, v: int, x: int, k: int, p: int, p': int)
    requires base + acc == v * p && p == k * p'
    ensures base + (acc + p' * x) == (v * k + x) * p'
  {}

  /** The byte the decoder infers in step with the encoder is the byte the
   *  encoder narrowed by: the output's block lies in that byte's slice
   *  and in the block of the digits read so far, so the slices of both
   *  bytes hold one common point. */
  lemma SyncedByte(k: int, s: State, d: DState, ds: seq<int>, c: nat, b: int, b0: byte)
    requires ValidBase(k) && Good(k, s) && Tracks(k, d) && Sync(k, s, d, ds, c) && IsDigits(k, ds)
    requires Determines(k, d, b) && SliceHolds(k, ds, s, b0)
    ensures b == b0 as int
  {
    DeterminedInside(k, s, d, ds, c, b);
    SameSliceInside(k, ds, Level(s), Abs(k, s), b, b0 as int);
  }

  /** The byte the readings determine has a slice of the absolute window
   *  that holds the output's block. */
  lemma DeterminedInside(k: int, s: State, d: DState, ds: seq<int>, c: nat, b: int)
    requires ValidBase(k) && Good(k, s) && Tracks(k, d) && Sync(k, s, d, ds, c) && IsDigits(k, ds)
    requires Determines(k, d, b)
    ensures Inside(k, ds, Level(s), Narrow(Abs(k, s), b).lo, Narrow(Abs(k, s), b).hi + 1)
  {
    var base := Base(k, s);
    assert Abs(k, s) == Interval(s.r.lo + base, s.r.hi + base);
    NarrowMoves(s.r, base, b);
    var nb := Narrow(Abs(k, s), b);
    ReadingsInside(k, s, d, ds, c, nb.lo, nb.hi + 1);
  }

  /** Two slices of w that both hold the output's block are the same. */
  lemma SameSliceInside(k: int, ds: seq<int>, L: nat, w: Interval, b: int, b0: int)
    requires ValidBase(k) && Width(w) >= 0 && 0 <= b < 256 && 0 <= b0 < 256
    requires Inside(k, ds, L, Narrow(w, b).lo, Narrow(w, b).hi + 1)
    requires Inside(k, ds, L, Narrow(w, b0).lo, Narrow(w, b0).hi + 1)
    ensures b == b0
  {
    var x, m := Value(k, ds), Top(k);
    var f := Pow(k, |ds| - L);
    PowPositive(k, |ds| - L);
    NextMultiple(x, m);
    SameSlice(w, f, x * m, (x + 1) * m, b, b0);
  }

  /** Two slices of w that both hold a block of [xm, xm1), read at f times
   *  the scale, are the same slice. */
  lemma SameSlice(w: Interval, f: int, xm: int, xm1: int, b: int, b0: int)
    requires Width(w) >= 0 && 0 <= b < 256 && 0 <= b0 < 256 && f >= 1 && xm < xm1
    requires f * Narrow(w, b).lo <= xm && xm1 <= f * (Narrow(w, b).hi + 1)
    requires f * Narrow(w, b0).lo <= xm && xm1 <= f * (Narrow(w, b0).hi + 1)
    ensures b == b0
  {
    var z := xm / f;
    PointIn(f, xm, xm1, Narrow(w, b).lo, Narrow(w, b).hi + 1);
    PointIn(f, xm, xm1, Narrow(w, b0).lo, Narrow(w, b0).hi + 1);
    SliceIndexInverts(w, z, b);
    SliceIndexInverts(w, z, b0);
  }

  /** If the block of readings lies in [lo, hi1) of the absolute window, so
   *  does the output's block, at the output's scale. */
  lemma ReadingsInside(k: int, s: State, d: DState, ds: seq<int>, c: nat, lo: int, hi1: int)
    requires ValidBase(k) && Tracks(k, d) && Sync(k, s, d, ds, c) && IsDigits(k, ds)
    requires lo <= Base(k, s) + d.acc && Base(k, s) + d.acc + Place(k, d.mi) <= hi1
    ensures Inside(k, ds, Level(s), lo, hi1)
  {
    var v, p := Value(k, ds[..c]), Place(k, d.mi);
    assert ds == ds[..c] + ds[c..];
    ValueAppend(k, ds[..c], ds[c..]);
    assert IsDigits(k, ds[c..]);
    ValueRange(k, ds[c..]);
    var e := Pow(k, |ds| - c);
    var f := Pow(k, |ds| - Level(s));
    assert |ds| - Level(s) == (|ds| - c) + d.mi;
    PowAdd(k, |ds| - c, d.mi);
    PlaceSplit(k, d.mi);
    PowPositive(k, |ds| - Level(s));
    ScaleAlgebra(f, e, Pow(k, d.mi), p, Top(k));
    ReadingsAlgebra(f, p, e, Top(k), v, Value(k, ds), Value(k, ds[c..]), lo, hi1);
  }

  lemma ScaleAlgebra(f: int, e: int, g: int, p: int, m: int)
    requires f == e * g && m == g * p
    ensures f * p == e * m
  {}

  /** The output's block lies inside the block of readings. */
  lemma ReadingsAlgebra(f: int, p: int, e: int, m: int, v: int, x: int, w: int, lo: int, hi1: int)
    requires f >= 1 && f * p == e * m && m >= 1 && x == v * e + w && 0 <= w < e
    requires lo <= v * p && v * p + p <= hi1
    ensures f * lo <= x * m && (x + 1) * m <= f * hi1
  {
    MulMonotone(f, lo, v * p);
    MulMonotone(f, v * p + p, hi1);
    assert f * (v * p) == v * (e * m);
    MulMonotone(m, v * e, x);
    MulMonotone(m, x + 1, v * e + e);
  }

  /** A block [xm, xm1) that lies in [lo, hi1) at f times the scale puts the
   *  point xm / f into [lo, hi1). */
  lemma PointIn(f: int, xm: int, xm1: int, lo: int, hi1: int)
    requires f >= 1 && xm < xm1 && f * lo <= xm && xm1 <= f * hi1
    ensures lo <= xm / f < hi1
  {
    var z := xm / f;
    FloorIs(xm, f, z);
    if z < lo {
      MulMonotone(f, z + 1, lo);
      assert false;
    }
    if z >= hi1 {
      MulMonotone(f, hi1, z);
      assert false;
    }
  }

  // ---------------------------------------------------------------------
  // The bytes the decoder emits agree with the input.

  /** a and b agree wherever both have a byte. */
  predicate AgreeOnCommon(a: seq<byte>, b: seq<byte>)
  {
    forall i | 0 <= i < |a| && i < |b| :: a[i] == b[i]
  }

  /** Every byte emitted so far is the input's; while no more than |data|
   *  bytes are out the decoder is in step with the encoder state ss holds
   *  for as many bytes. */
  predicate Agreed(k: int, data: seq<byte>, ds: seq<int>, ss: seq<State>, d: DState, c: nat)
    requires ValidBase(k) && d.mi <= Digits(k) && |ss| == |data| + 1
  {
    if |d.out| <= |data| then
      d.out == data[..|d.out|] && Sync(k, ss[|d.out|], d, ds, c)
    else
      d.out[..|data|] == data
  }

  /** The narrowing that follows an emitted byte keeps the encoder's
   *  invariants, as in `Step`. */
  lemma NarrowGood(k: int, s: State, b: int)
    requires ValidBase(k) && Good(k, s) && 0 <= b < 256
    ensures Good(k, s.(r := Narrow(s.r, b))) && ShiftedBy(k, s.(r := Narrow(s.r, b)).r, 0)
  {
    assert Pow(k, 0) == 1;
  }

  /** A byte the readings determine while the decoder is in step is the
   *  input's next byte. */
  lemma ByteAgrees(k: int, data: seq<byte>, ds: seq<int>, ss: seq<State>, d: DState, c: nat, b: int)
    requires ValidBase(k) && IsDigits(k, ds) && Tracks(k, d) && Follows(k, data, ds, ss)
    requires |d.out| < |data| && Agreed(k, data, ds, ss, d, c) && Determines(k, d, b)
    ensures b == data[|d.out|] as int
  {
    var m := |d.out|;
    SyncedByte(k, ss[m], d, ds, c, b, data[m]);
  }

  /** Narrowing both sides by a byte the readings determine keeps them in
   *  step. */
  lemma NarrowSync(k: int, s: State, d: DState, ds: seq<int>, c: nat, b: byte)
    requires ValidBase(k) && Good(k, s) && Tracks(k, d) && Sync(k, s, d, ds, c)
    requires Determines(k, d, b as int)
    ensures var n := DState(Narrow(d.r, b as int), d.acc, d.mi, d.out + [b]);
      var sn := s.(r := Narrow(s.r, b as int));
      Tracks(k, n) && Good(k, sn) && ShiftedBy(k, sn.r, 0) && Sync(k, sn, n, ds, c)
  {
    PlacePositive(k, d.mi);
    SliceIndexInverts(d.r, d.acc, b as int);
    SliceIndexInverts(d.r, d.acc + Place(k, d.mi) - 1, b as int);
    NarrowKeepsTracks(k, d.(out := d.out + [b]), b as int);
    NarrowGood(k, s, b as int);
    BaseIgnoresInterval(k, s, Narrow(s.r, b as int));
  }

  /** A byte the readings determine takes the decoder, narrowed by it and
   *  renormalised, in step to the encoder's state after that byte. */
  lemma StepSync(k: int, s: State, d: DState, ds: seq<int>, c: nat, b: byte)
    requires ValidBase(k) && Good(k, s) && Tracks(k, d) && Sync(k, s, d, ds, c)
    requires Determines(k, d, b as int)
    ensures var n := DState(Narrow(d.r, b as int), d.acc, d.mi, d.out + [b]);
      Tracks(k, n) && Sync(k, Step(k, s, b), DRenorm(k, n), ds, c)
  {
    NarrowSync(k, s, d, ds, c, b);
    RenormSync(k, s.(r := Narrow(s.r, b as int)), 0, DState(Narrow(d.r, b as int), d.acc, d.mi, d.out + [b]), ds, c);
  }

  lemma BaseIgnoresInterval(k: int, s: State, r: Interval)
    requires ValidBase(k)
    ensures Base(k, s.(r := r)) == Base(k, s)
  {
    var t := s.(r := r);
    assert t.out == s.out && t.deferredCount == s.deferredCount && t.deferredLoPrefix == s.deferredLoPrefix;
  }

  lemma PrefixExtends(data: seq<byte>, m: nat)
    requires m < |data|
    ensures data[..m] + [data[m]] == data[..m + 1]
  {}

  /** After emitting the input's next byte the decoder narrows and
   *  renormalises as the encoder did for that byte, and is in step with
   *  the encoder's next state. */
  lemma NextAgreed(k: int, data: seq<byte>, ds: seq<int>, ss: seq<State>, d: DState, c: nat)
    requires ValidBase(k) && Tracks(k, d) && Follows(k, data, ds, ss)
    requires |d.out| < |data| && Agreed(k, data, ds, ss, d, c)
    requires Determines(k, d, data[|d.out|] as int)
    ensures var b := data[|d.out|];
      var n := DState(Narrow(d.r, b as int), d.acc, d.mi, d.out + [b]);
      Tracks(k, n) && Agreed(k, data, ds, ss, DRenorm(k, n), c)
  {
    var m := |d.out|;
    StepSync(k, ss[m], d, ds, c, data[m]);
    PrefixExtends(data, m);
  }

  /** The byte loop stops at once when the readings determine no byte. */
  lemma EmitsNone(k: int, d: DState, multiple: bool)
    requires ValidBase(k) && Tracks(k, d) && !Determines(k, d, SliceIndex(d.r, d.acc))
    ensures Emits(k, d, multiple) == d
  {
    PlacePositive(k, d.mi);
    var b := SliceIndex(d.r, d.acc);
    SliceIndexInverts(d.r, d.acc, 0);
    SliceIndexInverts(d.r, d.acc, b);
    SliceIndexInverts(d.r, d.acc + Place(k, d.mi) - 1, b);
  }

  /** A byte the readings determine is emitted; the loop then narrows,
   *  renormalises and goes on, or, after the final digit, stops. */
  lemma EmitsMore(k: int, d: DState, b: int)
    requires ValidBase(k) && Tracks(k, d) && Determines(k, d, b)
    ensures SliceIndex(d.r, d.acc) == b
    ensures Emits(k, d, false).out == d.out + [b as byte]
    ensures var n := DState(Narrow(d.r, b), d.acc, d.mi, d.out + [b as byte]);
      Tracks(k, n)
      && Emits(k, d, true) == Emits(k, DRenorm(k, n), true)
      && |d.out| < |Emits(k, d, true).out|
      && (DRenorm(k, n).mi < d.mi || (DRenorm(k, n).mi == d.mi && Width(DRenorm(k, n).r) < Width(d.r)))
  {
    PlacePositive(k, d.mi);
    SliceIndexInverts(d.r, d.acc, b);
    SliceIndexInverts(d.r, d.acc + Place(k, d.mi) - 1, b);
    var e := d.(out := d.out + [b as byte]);
    NarrowKeepsTracks(k, e, b);
    var n := DState(Narrow(d.r, b), d.acc, d.mi, d.out + [b as byte]);
    var t1 := DRenorm(k, n);
    if t1 == n {
      NarrowShrinks(k, e, b);
    }
    assert |Emits(k, t1, true).out| >= |n.out|;
  }

  lemma PrefixKept(a: seq<byte>, t: seq<byte>, data: seq<byte>)
    requires |a| <= |t| && t[..|a|] == a && |data| <= |a| && a[..|data|] == data
    ensures t[..|data|] == data
  {
    assert t[..|data|] == t[..|a|][..|data|];
  }

  /** The byte loop while digits are still to come. */
  lemma {:induction false} EmitsAgreed(k: int, data: seq<byte>, ds: seq<int>, ss: seq<State>, d: DState, c: nat)
    requires ValidBase(k) && IsDigits(k, ds) && Tracks(k, d) && Follows(k, data, ds, ss)
    requires Agreed(k, data, ds, ss, d, c)
    ensures Agreed(k, data, ds, ss, Emits(k, d, true), c)
    decreases d.mi, Width(d.r)
  {
    var b := SliceIndex(d.r, d.acc);
    if !Determines(k, d, b) {
      EmitsNone(k, d, true);
    } else if |d.out| < |data| {
      ByteAgrees(k, data, ds, ss, d, c, b);
      NextAgreed(k, data, ds, ss, d, c);
      EmitsMore(k, d, b);
      EmitsAgreed(k, data, ds, ss, DRenorm(k, DState(Narrow(d.r, b), d.acc, d.mi, d.out + [b as byte])), c);
    } else {
      EmitsMore(k, d, b);
      PrefixKept(d.out, Emits(k, d, true).out, data);
    }
  }

  /** A byte string agrees with data wherever both have a byte when one is
   *  a prefix of the other. */
  lemma CommonOfPrefix(a: seq<byte>, data: seq<byte>)
    requires if |a| <= |data| then a == data[..|a|] else a[..|data|] == data
    ensures AgreeOnCommon(a, data)
  {
    forall i | 0 <= i < |a| && i < |data|
      ensures a[i] == data[i]
    {
      if |a| > |data| {
        assert a[..|data|][i] == a[i];
      }
    }
  }

  /** The byte loop after the final digit, which emits at most one byte. */
  lemma FinalAgreed(k: int, data: seq<byte>, ds: seq<int>, ss: seq<State>, d: DState, c: nat)
    requires ValidBase(k) && IsDigits(k, ds) && Tracks(k, d) && Follows(k, data, ds, ss)
    requires Agreed(k, data, ds, ss, d, c)
    ensures AgreeOnCommon(Emits(k, d, false).out, data)
  {
    var m := |d.out|;
    var b := SliceIndex(d.r, d.acc);
    if !Determines(k, d, b) {
      EmitsNone(k, d, false);
      CommonOfPrefix(d.out, data);
    } else {
      EmitsMore(k, d, b);
      if m < |data| {
        SyncedByte(k, ss[m], d, ds, c, b, data[m]);
        PrefixExtends(data, m);
      } else {
        PrefixKept(d.out, d.out + [b as byte], data);
      }
      CommonOfPrefix(d.out + [b as byte], data);
    }
  }

  /** Before any digit both sides start in step. */
  lemma StartAgreed(k: int, data: seq<byte>, ds: seq<int>, ss: seq<State>)
    requires ValidBase(k) && Follows(k, data, ds, ss)
    ensures Agreed(k, data, ds, ss, DStart(k), 0)
  {
    assert data[..0] == [] && ds[..0] == [];
    assert Pow(k, 0) == 1;
  }

  /** Reading a digit keeps the decoder agreeing with the input. */
  lemma DigitAgreed(k: int, data: seq<byte>, ds: seq<int>, ss: seq<State>, d: DState, c: nat)
    requires ValidBase(k) && IsDigits(k, ds) && Tracks(k, d) && d.mi < Digits(k) && c < |ds| && Follows(k, data, ds, ss)
    requires Agreed(k, data, ds, ss, d, c)
    ensures Agreed(k, data, ds, ss, Read(k, d, ds[c]), c + 1)
  {
    if |d.out| <= |data| {
      DigitSync(k, ss[|d.out|], d, ds, c);
    }
  }

  /** The decoder's state after c digits is one digit step on from its
   *  state after c - 1. */
  lemma ConsumedNext(k: int, ds: seq<int>, c: nat)
    requires ValidBase(k) && IsDigits(k, ds) && 0 < c <= |ds|
    ensures IsDigits(k, ds[..c - 1]) && IsDigits(k, ds[..c])
    ensures Consumed(k, ds[..c]) == DigitStep(k, Consumed(k, ds[..c - 1]), ds[c - 1], false)
  {
    var pre := ds[..c];
    assert pre[..c - 1] == ds[..c - 1] && pre[c - 1] == ds[c - 1];
  }

  /** A digit that is not the last is read, then the byte loop runs. */
  lemma ReadThenEmit(k: int, d: DState, x: int)
    requires ValidBase(k) && Tracks(k, d) && d.mi < Digits(k) && 0 <= x < k
    ensures DigitStep(k, d, x, false) == Emits(k, Read(k, d, x), true)
  {
  }

  /** A digit that is not the last, and the bytes it lets out, keep the
   *  decoder agreeing with the input. */
  lemma NextDigitAgreed(k: int, data: seq<byte>, ds: seq<int>, ss: seq<State>, d: DState, c: nat)
    requires ValidBase(k) && IsDigits(k, ds) && Tracks(k, d) && d.mi < Digits(k) && c < |ds| && Follows(k, data, ds, ss)
    requires Agreed(k, data, ds, ss, d, c)
    ensures Agreed(k, data, ds, ss, DigitStep(k, d, ds[c], false), c + 1)
  {
    ReadThenEmit(k, d, ds[c]);
    DigitAgreed(k, data, ds, ss, d, c);
    EmitsAgreed(k, data, ds, ss, Read(k, d, ds[c]), c + 1);
  }

  /** Digits that are not the last keep the decoder agreeing with the input. */
  lemma {:induction false} ConsumedAgreed(k: int, data: seq<byte>, ds: seq<int>, ss: seq<State>, c: nat)
    requires ValidBase(k) && IsDigits(k, ds) && c < |ds| && Follows(k, data, ds, ss)
    ensures IsDigits(k, ds[..c])
    ensures Tracks(k, Consumed(k, ds[..c])) && Agreed(k, data, ds, ss, Consumed(k, ds[..c]), c)
    decreases c
  {
    assert IsDigits(k, ds[..c]);
    if c == 0 {
      assert ds[..0] == [];
      StartAgreed(k, data, ds, ss);
    } else {
      ConsumedAgreed(k, data, ds, ss, c - 1);
      ConsumedNext(k, ds, c);
      NextDigitAgreed(k, data, ds, ss, Consumed(k, ds[..c - 1]), c - 1);
    }
  }

  /** The final digit is read; a 0 stops at once, another digit lets the
   *  byte loop run once. */
  lemma ReadLast(k: int, d: DState, x: int)
    requires ValidBase(k) && Tracks(k, d) && d.mi < Digits(k) && 0 <= x < k
    ensures x == 0 ==> DigitStep(k, d, x, true).out == d.out
    ensures x != 0 ==> DigitStep(k, d, x, true) == Emits(k, Read(k, d, x), false)
  {
  }

  /** The final digit, and the byte it may let out, keep the decoder
   *  agreeing with the input. */
  lemma LastDigitAgreed(k: int, data: seq<byte>, ds: seq<int>, ss: seq<State>, d: DState, c: nat)
    requires ValidBase(k) && IsDigits(k, ds) && Tracks(k, d) && d.mi < Digits(k) && c < |ds| && Follows(k, data, ds, ss)
    requires Agreed(k, data, ds, ss, d, c)
    ensures AgreeOnCommon(DigitStep(k, d, ds[c], true).out, data)
  {
    ReadLast(k, d, ds[c]);
    if ds[c] == 0 {
      CommonOfPrefix(d.out, data);
    } else {
      DigitAgreed(k, data, ds, ss, d, c);
      FinalAgreed(k, data, ds, ss, Read(k, d, ds[c]), c + 1);
    }
  }

  /** Decoding a digit string whose block lies in every byte's slice of a
   *  run over data gives bytes that agree with data. */
  lemma DecodedAgreed(k: int, data: seq<byte>, ds: seq<int>, ss: seq<State>)
    requires ValidBase(k) && IsDigits(k, ds) && |ds| >= 1 && Follows(k, data, ds, ss)
    ensures AgreeOnCommon(Decoded(k, ds), data)
  {
    var c := |ds| - 1;
    ConsumedAgreed(k, data, ds, ss, c);
    LastDigitAgreed(k, data, ds, ss, Consumed(k, ds[..c]), c);
  }

  /** Lockstep agreement (the comments at lib/main.ts:361-363, 414-416 and
   *  425-427): whatever `decode` returns for the output of `encode` agrees
   *  with the input wherever both have a byte, unless the encoder's window
   *  has collapsed to nothing. */
  lemma LockstepAgreement(k: int, data: seq<byte>)
    requires ValidBase(k) && Last(k, data).r.lo <= Last(k, data).r.hi
    ensures AgreeOnCommon(Decoded(k, Encoded(k, data)), data)
  {
    FinalInside(k, data);
    TraceFollows(k, data, Encoded(k, data));
    DecodedAgreed(k, data, Encoded(k, data), Trace(k, data));
  }
}
