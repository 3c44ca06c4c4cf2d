/** The renormalisation loop of `encode` (lib/main.ts:208-245) leaves the
 *  loop right after one fold. When the folded interval still straddles a
 *  digit boundary, nothing widens it before the next byte, and a run of such
 *  bytes narrows it below 256 values: two different bytes then select the
 *  same empty slice. Below, the collapse is exhibited in base 10, and a loop
 *  that goes on renormalising after a fold is shown to keep every interval
 *  wider than the second place value, so that no slice is ever empty and
 *  different bytes always select different slices. */
module Findings {
  import opened Common
  import opened Arith
  import opened PlaceValues
  import opened Range
  import opened Encoder
  import opened RoundTrip

  /** Base 10 has 13 digits: M = 10^13. */
  lemma Divisors10()
    ensures Digits(10) == 13 && Top(10) == 10_000_000_000_000
    ensures PrefixDivisor(10) == 1_000_000_000_000 && SecondPrefixDivisor(10) == 100_000_000_000
  {
    DivisorPowers(10);
    assert Pow(10, 13) == 10_000_000_000_000;
  }

  /** Eight bytes after which the base-10 interval has collapsed. */
  function Collapsing(): (t: seq<byte>)
    ensures |t| == 8
  {
    [104, 245, 194, 143, 92, 39, 50, 187]
  }

  /** Byte 1 (104) emits 4 and stops. */
  lemma FirstByte()
    ensures var s := State(Interval(0, 9999999999999), 0, 0, []);
      Good(10, s) && Step(10, s, 104) == State(Interval(625000000000, 1015624999999), 0, 0, [4])
  {
    Divisors10();
    var s := State(Interval(0, 9999999999999), 0, 0, []);
    var n := s.(r := Narrow(s.r, 104));
    assert n.r == Interval(4062500000000, 4101562499999);
    assert Prefix(10, n.r.lo) == 4 && Prefix(10, n.r.hi) == 4;
    var e := EmitStep(10, n);
    assert e == State(Interval(625000000000, 1015624999999), 0, 0, [4]);
    assert Prefix(10, e.r.lo) == 0 && Prefix(10, e.r.hi) == 1;
    assert SecondPrefix(10, e.r.lo) == 6 && SecondPrefix(10, e.r.hi) == 10;
    assert Renorm(10, e, 1) == e;
  }

  /** Byte 2 (245) folds once and stops. */
  lemma SecondByte()
    ensures var s := State(Interval(625000000000, 1015624999999), 0, 0, [4]);
      Good(10, s) && Step(10, s, 245) == State(Interval(988403320320, 1003662109379), 1, 0, [4])
  {
    Divisors10();
    var s := State(Interval(625000000000, 1015624999999), 0, 0, [4]);
    var n := s.(r := Narrow(s.r, 245));
    assert n.r == Interval(998840332032, 1000366210937);
    assert Prefix(10, n.r.lo) == 0 && Prefix(10, n.r.hi) == 1;
    assert SecondPrefix(10, n.r.lo) == 9 && SecondPrefix(10, n.r.hi) == 10;
  }

  /** Byte 3 (194) folds once and stops. */
  lemma ThirdByte()
    ensures var s := State(Interval(988403320320, 1003662109379), 1, 0, [4]);
      Good(10, s) && Step(10, s, 194) == State(Interval(999666214050, 1000262260499), 2, 0, [4])
  {
    Divisors10();
    var s := State(Interval(988403320320, 1003662109379), 1, 0, [4]);
    var n := s.(r := Narrow(s.r, 194));
    assert n.r == Interval(999966621405, 1000026226049);
    assert Prefix(10, n.r.lo) == 0 && Prefix(10, n.r.hi) == 1;
    assert SecondPrefix(10, n.r.lo) == 9 && SecondPrefix(10, n.r.hi) == 10;
  }

  /** Byte 4 (143) folds once and stops. */
  lemma FourthByte()
    ensures var s := State(Interval(999666214050, 1000262260499), 2, 0, [4]);
      Good(10, s) && Step(10, s, 143) == State(Interval(999991618720, 1000014901789), 3, 0, [4])
  {
    Divisors10();
    var s := State(Interval(999666214050, 1000262260499), 2, 0, [4]);
    var n := s.(r := Narrow(s.r, 143));
    assert n.r == Interval(999999161872, 1000001490178);
    assert Prefix(10, n.r.lo) == 0 && Prefix(10, n.r.hi) == 1;
    assert SecondPrefix(10, n.r.lo) == 9 && SecondPrefix(10, n.r.hi) == 10;
  }

  /** Byte 5 (92) folds once and stops. */
  lemma FifthByte()
    ensures var s := State(Interval(999991618720, 1000014901789), 3, 0, [4]);
      Good(10, s) && Step(10, s, 92) == State(Interval(999999860740, 1000000770229), 4, 0, [4])
  {
    Divisors10();
    var s := State(Interval(999991618720, 1000014901789), 3, 0, [4]);
    var n := s.(r := Narrow(s.r, 92));
    assert n.r == Interval(999999986074, 1000000077022);
    assert Prefix(10, n.r.lo) == 0 && Prefix(10, n.r.hi) == 1;
    assert SecondPrefix(10, n.r.lo) == 9 && SecondPrefix(10, n.r.hi) == 10;
  }

  /** Byte 6 (39) folds once and stops. */
  lemma SixthByte()
    ensures var s := State(Interval(999999860740, 1000000770229), 4, 0, [4]);
      Good(10, s) && Step(10, s, 39) == State(Interval(999999992960, 1000000028479), 5, 0, [4])
  {
    Divisors10();
    var s := State(Interval(999999860740, 1000000770229), 4, 0, [4]);
    var n := s.(r := Narrow(s.r, 39));
    assert n.r == Interval(999999999296, 1000000002847);
    assert Prefix(10, n.r.lo) == 0 && Prefix(10, n.r.hi) == 1;
    assert SecondPrefix(10, n.r.lo) == 9 && SecondPrefix(10, n.r.hi) == 10;
  }

  /** Byte 7 (50) folds once and stops. */
  lemma SeventhByte()
    ensures var s := State(Interval(999999992960, 1000000028479), 5, 0, [4]);
      Good(10, s) && Step(10, s, 50) == State(Interval(999999998980, 1000000000369), 6, 0, [4])
  {
    Divisors10();
    var s := State(Interval(999999992960, 1000000028479), 5, 0, [4]);
    var n := s.(r := Narrow(s.r, 50));
    assert n.r == Interval(999999999898, 1000000000036);
    assert Prefix(10, n.r.lo) == 0 && Prefix(10, n.r.hi) == 1;
    assert SecondPrefix(10, n.r.lo) == 9 && SecondPrefix(10, n.r.hi) == 10;
  }

  /** Byte 8 (187) folds once and stops. */
  lemma EighthByte()
    ensures var s := State(Interval(999999998980, 1000000000369), 6, 0, [4]);
      Good(10, s) && Step(10, s, 187) == State(Interval(999999999960, 1000000000009), 7, 0, [4])
  {
    Divisors10();
    var s := State(Interval(999999998980, 1000000000369), 6, 0, [4]);
    var n := s.(r := Narrow(s.r, 187));
    assert n.r == Interval(999999999996, 1000000000000);
    assert Prefix(10, n.r.lo) == 0 && Prefix(10, n.r.hi) == 1;
    assert SecondPrefix(10, n.r.lo) == 9 && SecondPrefix(10, n.r.hi) == 10;
  }

  /** After the eight bytes the interval holds 50 values, fewer than 256,
   *  with seven digits deferred. */
  lemma Collapsed()
    ensures Run(10, Start(10), Collapsing()) == State(Interval(999999999960, 1000000000009), 7, 0, [4])
    ensures Width(Run(10, Start(10), Collapsing()).r) == 50
    ensures !Wide(10, Run(10, Start(10), Collapsing()).r)
  {
    var t := Collapsing();
    Divisors10();
    assert t[..0] == [] && t[..8] == t;
    FirstByte();
    RunNext(10, t, 0);
    SecondByte();
    RunNext(10, t, 1);
    ThirdByte();
    RunNext(10, t, 2);
    FourthByte();
    RunNext(10, t, 3);
    FifthByte();
    RunNext(10, t, 4);
    SixthByte();
    RunNext(10, t, 5);
    SeventhByte();
    RunNext(10, t, 6);
    EighthByte();
    RunNext(10, t, 7);
  }

  /** Bytes 1 and 2 select the same empty slice of the collapsed interval,
   *  so the inputs that differ only in that last byte encode to the same
   *  digits, and one of them cannot decode back. */
  lemma CollapseCollides()
    ensures Encoded(10, Collapsing() + [1]) == Encoded(10, Collapsing() + [2])
  {
    var t := Collapsing();
    Collapsed();
    SameEmptySlice();
    RunSnoc(10, t, 1);
    RunSnoc(10, t, 2);
  }

  /** Slices 1 and 2 of the collapsed interval are the same empty one. */
  lemma SameEmptySlice()
    ensures Narrow(Interval(999999999960, 1000000000009), 1) == Interval(999999999961, 999999999960)
    ensures Narrow(Interval(999999999960, 1000000000009), 2) == Interval(999999999961, 999999999960)
  {
    var r := Interval(999999999960, 1000000000009);
    assert Narrow(r, 1) == Interval(999999999961, 999999999960);
  }

  /** One more byte is one more step. */
  lemma RunSnoc(k: int, data: seq<byte>, b: byte)
    requires ValidBase(k)
    ensures Run(k, Start(k), data + [b]) == Step(k, Run(k, Start(k), data), b)
  {
    assert (data + [b])[..|data|] == data;
  }

  /** The interval is wide: it holds more values than a block of the second
   *  digit, so each of its 256 slices is non-empty. */
  predicate Wide(k: int, r: Interval)
    requires ValidBase(k)
  {
    Width(r) >= SecondPrefixDivisor(k) + 2
  }

  /** The renormalisation loop with the fold continuing the loop instead of
   *  leaving it: it ends only when the ends neither agree nor straddle. */
  function FixedRenorm(k: int, s: State): (t: State)
    requires ValidBase(k) && Good(k, s) && s.r.lo <= s.r.hi
    ensures Good(k, t) && t.r.lo <= t.r.hi && !Agrees(k, t.r) && !Straddles(k, t.r)
    ensures Width(s.r) <= Width(t.r)
    ensures |s.out| <= |t.out| && t.out[..|s.out|] == s.out
    decreases Top(k) - Width(s.r)
  {
    MulMonotone(Width(s.r), 2, k);
    if Agrees(k, s.r) then
      EmitKeepsGood(k, s);
      FixedRenorm(k, EmitStep(k, s))
    else if Straddles(k, s.r) then
      FoldStepGood(k, s);
      FixedRenorm(k, FoldStep(k, s))
    else
      s
  }

  /** The two loops differ only where the loop as written stops on an
   *  interval that still straddles a digit boundary. */
  lemma {:induction false} FixedExtendsRenorm(k: int, s: State, j: nat)
    requires ValidBase(k) && Good(k, s) && ShiftedBy(k, s.r, j) && s.r.lo <= s.r.hi
    requires !Straddles(k, Renorm(k, s, j).r)
    ensures Renorm(k, s, j) == FixedRenorm(k, s)
    decreases Digits(k) - j
  {
    if Agrees(k, s.r) {
      EmitStepGood(k, s, j);
      MulMonotone(Width(s.r), 1, k);
      FixedExtendsRenorm(k, EmitStep(k, s), j + 1);
    } else if Straddles(k, s.r) {
      FoldStepGood(k, s);
      MulMonotone(Width(s.r), 1, k);
    }
  }

  /** One byte with the corrected loop: a wide interval stays wide. */
  function FixedStep(k: int, s: State, b: byte): (t: State)
    requires ValidBase(k) && Good(k, s) && Wide(k, s.r)
    ensures Good(k, t) && Wide(k, t.r)
    ensures |s.out| <= |t.out| && t.out[..|s.out|] == s.out
  {
    var n := s.(r := Narrow(s.r, b as int));
    var t := FixedRenorm(k, n);
    SettledIsWide(k, t.r);
    t
  }

  /** The corrected encoder's state after the bytes of `data`. */
  function FixedRun(k: int, data: seq<byte>): (t: State)
    requires ValidBase(k)
    ensures Good(k, t) && Wide(k, t.r)
  {
    if data == [] then
      var m, p1, p2 := Top(k), PrefixDivisor(k), SecondPrefixDivisor(k);
      MulMonotone(p2, 2, k);
      MulMonotone(p1, 2, k);
      Start(k)
    else
      FixedStep(k, FixedRun(k, data[..|data| - 1]), data[|data| - 1])
  }

  /** An interval whose ends neither agree nor straddle has two-digit
   *  prefixes at least 2 apart, so it contains a whole block of the second
   *  digit and one value on each side. */
  lemma SettledIsWide(k: int, r: Interval)
    requires ValidBase(k) && 0 <= r.lo <= r.hi < Top(k)
    requires !Agrees(k, r) && !Straddles(k, r)
    ensures Wide(k, r)
  {
    WideArith(k, SecondPrefixDivisor(k), r.lo, r.hi);
  }

  lemma WideArith(k: int, p2: int, lo: int, hi: int)
    requires k > 0 && p2 > 0 && 0 <= lo <= hi
    requires lo / (k * p2) != hi / (k * p2)
    requires !(hi / (k * p2) - lo / (k * p2) == 1 && hi / p2 - lo / p2 == 1)
    ensures hi + 1 - lo >= p2 + 2
  {
    PrefixOfSecond(lo, p2, k);
    PrefixOfSecond(hi, p2, k);
    QuotientOrder(lo, hi, p2);
    QuotientGap(k, lo / p2, hi / p2);
    BlockGap(lo, hi, p2);
  }

  /** Ends whose quotients are 2 apart are more than a block apart. */
  lemma BlockGap(lo: int, hi: int, p2: int)
    requires p2 > 0 && hi / p2 >= lo / p2 + 2
    ensures hi + 1 - lo >= p2 + 2
  {
    var l2, h2 := lo / p2, hi / p2;
    FloorIs(lo, p2, l2);
    FloorIs(hi, p2, h2);
    MulMonotone(p2, l2 + 2, h2);
    assert (l2 + 2) * p2 == l2 * p2 + 2 * p2;
  }

  /** Two-digit prefixes whose leading digits differ, and not by one
   *  straddle, are at least 2 apart. */
  lemma QuotientGap(k: int, l2: int, h2: int)
    requires k > 0 && l2 <= h2
    requires l2 / k != h2 / k && !(h2 / k - l2 / k == 1 && h2 - l2 == 1)
    ensures h2 >= l2 + 2
  {
    if h2 == l2 + 1 {
      NextQuotient(l2, k);
    }
  }

  /** The leading digit is the leading digit of the two-digit prefix. */
  lemma PrefixOfSecond(x: int, p2: int, k: int)
    requires x >= 0 && p2 > 0 && k > 0
    ensures x / (k * p2) == (x / p2) / k
  {
    var q2 := x / p2;
    var q := q2 / k;
    FloorIs(x, p2, q2);
    FloorIs(q2, k, q);
    MulMonotone(p2, q * k, q2);
    MulMonotone(p2, q2 + 1, q * k + k);
    assert (q * k) * p2 == q * (k * p2);
    assert (q * k + k) * p2 == q * (k * p2) + k * p2;
    FloorIs(x, k * p2, q);
  }

  /** Consecutive numbers have quotients equal or one apart. */
  lemma NextQuotient(a: int, k: int)
    requires k > 0
    ensures a / k <= (a + 1) / k <= a / k + 1
  {
    var q := a / k;
    FloorIs(a, k, q);
    if a + 1 < q * k + k {
      FloorIs(a + 1, k, q);
    } else {
      assert (q + 1) * k == q * k + k;
      FloorIs(a + 1, k, q + 1);
    }
  }

  /** With the corrected loop every byte selects a non-empty slice, and
   *  smaller bytes select lower slices, so different bytes always select
   *  different slices. */
  lemma FixedSeparates(k: int, data: seq<byte>, b: int, c: int)
    requires ValidBase(k) && 0 <= b < c < 256
    ensures var r := FixedRun(k, data).r;
      Narrow(r, b).lo <= Narrow(r, b).hi < Narrow(r, c).lo <= Narrow(r, c).hi
  {
    var r := FixedRun(k, data).r;
    var w := Width(r);
    MulMonotone(w, b + 1, c);
    assert (b + 1) * w == b * w + w;
  }
}
