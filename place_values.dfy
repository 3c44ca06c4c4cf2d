/** The place-value table (`placeValueCache`, lib/main.ts:483-496): for every
 *  base k in 2..255 the powers of k, highest first, from the largest power
 *  whose 256-fold product still fits in 2^53 down to 1. */
module PlaceValues {
  import opened Common
  import opened Arith

  /** (Number.MAX_SAFE_INTEGER + 1) / 256 = 2^53 / 2^8. */
  const Limit: int := 0x2000_0000_0000

  /** The bases for which the table is built. */
  predicate ValidBase(k: int) { 2 <= k <= 255 }

  function Pow(k: int, e: nat): int
  {
    if e == 0 then 1 else k * Pow(k, e - 1)
  }

  lemma {:induction false} PowPositive(k: int, e: nat)
    requires k >= 1
    ensures Pow(k, e) >= 1
  {
    if e > 0 {
      PowPositive(k, e - 1);
    }
  }

  lemma {:induction false} PowMonotone(k: int, e: nat, f: nat)
    requires k >= 2 && e <= f
    ensures Pow(k, e) <= Pow(k, f)
    ensures e < f ==> k * Pow(k, e) <= Pow(k, f)
    decreases f - e
  {
    if e < f {
      PowMonotone(k, e, f - 1);
      PowPositive(k, e);
    }
  }

  lemma {:induction false} PowAdd(k: int, e: nat, f: nat)
    ensures Pow(k, e + f) == Pow(k, e) * Pow(k, f)
    decreases e
  {
    if e > 0 {
      PowAdd(k, e - 1, f);
      calc {
        Pow(k, e + f);
        k * Pow(k, e - 1 + f);
        k * (Pow(k, e - 1) * Pow(k, f));
        (k * Pow(k, e - 1)) * Pow(k, f);
      }
    }
  }

  /** The number a digit string denotes in base k, most significant first. */
  function Value(k: int, ds: seq<int>): int
  {
    if ds == [] then 0 else Value(k, ds[..|ds| - 1]) * k + ds[|ds| - 1]
  }

  /** Appending digits shifts the earlier ones up by one place each. */
  lemma {:induction false} ValueAppend(k: int, a: seq<int>, b: seq<int>)
    ensures Value(k, a + b) == Value(k, a) * Pow(k, |b|) + Value(k, b)
    decreases |b|
  {
    if b != [] {
      var b', x := b[..|b| - 1], b[|b| - 1];
      assert (a + b)[..|a + b| - 1] == a + b';
      ValueAppend(k, a, b');
      calc {
        Value(k, a + b);
        Value(k, a + b') * k + x;
        (Value(k, a) * Pow(k, |b'|) + Value(k, b')) * k + x;
        Value(k, a) * (Pow(k, |b'|) * k) + (Value(k, b') * k + x);
        Value(k, a) * Pow(k, |b|) + Value(k, b);
      }
    } else {
      assert a + b == a;
    }
  }

  /** One more low digit. */
  lemma AppendDigit(k: int, a: seq<int>, x: int)
    ensures Value(k, a + [x]) == Value(k, a) * k + x
  {
    assert (a + [x])[..|a|] == a;
  }

  /** c digits k - 1 make k^c - 1. */
  lemma {:induction false} ValueRepeat(k: int, c: nat)
    ensures Value(k, Repeat(k - 1, c)) == Pow(k, c) - 1
  {
    if c > 0 {
      var init := Repeat(k - 1, c - 1);
      assert Repeat(k - 1, c) == init + [k - 1];
      ValueRepeat(k, c - 1);
      AppendDigit(k, init, k - 1);
      TopDigitStep(k, Pow(k, c - 1), Value(k, init), Value(k, init + [k - 1]));
    }
  }

  /** c zero digits make 0. */
  lemma {:induction false} ValueZeros(k: int, c: nat)
    ensures Value(k, Repeat(0, c)) == 0
  {
    if c > 0 {
      var ds := Repeat(0, c);
      assert ds[..c - 1] == Repeat(0, c - 1);
      ValueZeros(k, c - 1);
    }
  }

  /** The exponent the table-building loop stops at, searching upward from
   *  `e` while `k * placeValue <= Limit`. */
  function TopExponent(k: int, e: nat): (n: nat)
    requires k >= 2 && Pow(k, e) <= Limit
    ensures e <= n
    ensures Pow(k, n) <= Limit < k * Pow(k, n)
    decreases Limit - Pow(k, e)
  {
    PowPositive(k, e);
    var p := Pow(k, e);
    if k * p <= Limit then
      assert Pow(k, e + 1) == k * p;
      MulMonotone(p, 2, k);
      TopExponent(k, e + 1)
    else
      e
  }

  /** Only one exponent satisfies the loop's exit condition. */
  lemma ExponentUnique(k: int, e: nat, f: nat)
    requires k >= 2
    requires Pow(k, e) <= Limit < k * Pow(k, e)
    requires Pow(k, f) <= Limit < k * Pow(k, f)
    ensures e == f
  {
    if e != f {
      var lo, hi := if e < f then e else f, if e < f then f else e;
      PowMonotone(k, lo + 1, hi);
    }
  }

  /** n: the index of the last entry, so the table has n + 1 entries. */
  function Digits(k: int): nat
    requires k >= 2
  {
    TopExponent(k, 0)
  }

  /** `placeValueCache[k]`: entry i is k^(n - i). */
  function Table(k: int): seq<int>
    requires k >= 2
  {
    seq(Digits(k) + 1, i requires 0 <= i <= Digits(k) => Pow(k, Digits(k) - i))
  }

  /** `placeValues[0]`: the size M of the coding interval [0, M). */
  function Top(k: int): (m: int)
    requires ValidBase(k)
    ensures m == k * PrefixDivisor(k)
    ensures m <= Limit < k * m
  {
    TableShape(k);
    Table(k)[0]
  }

  /** `prefixDivisor` = `placeValues[1]`: the place value of the leading digit. */
  function PrefixDivisor(k: int): (p: int)
    requires ValidBase(k)
    ensures p == k * SecondPrefixDivisor(k)
  {
    TableShape(k);
    Table(k)[1]
  }

  /** `secondPrefixDivisor` = `placeValues[2]`; it exceeds 2^21, so every
   *  interval that contains a whole second-digit block is wider than 256. */
  function SecondPrefixDivisor(k: int): (p: int)
    requires ValidBase(k)
    ensures p > 0x20_0000
  {
    SecondEntryMagnitude(k);
    Table(k)[2]
  }

  lemma DigitsAtLeastTwo(k: int)
    requires ValidBase(k)
    ensures Digits(k) >= 2
  {
    var n := Digits(k);
    assert Pow(k, n) <= Limit < k * Pow(k, n);
    if n == 0 {
      assert false;
    } else if n == 1 {
      MulMonotone(k, k, 255);
      assert false;
    }
  }

  /** Entry i of the table is k^(n - i). */
  lemma TableAt(k: int, i: int)
    requires k >= 2 && 0 <= i <= Digits(k)
    ensures |Table(k)| == Digits(k) + 1 && Table(k)[i] == Pow(k, Digits(k) - i)
  {}

  /** The promises the encoder and decoder rely on: at least three entries,
   *  the last one 1, each entry `k` times the next, and the first one the
   *  largest power of k not above 2^45, so that 256 times it is a safe
   *  integer. */
  lemma TableShape(k: int)
    requires ValidBase(k)
    ensures |Table(k)| >= 3
    ensures Table(k)[|Table(k)| - 1] == 1
    ensures forall i | 0 <= i < |Table(k)| - 1 :: Table(k)[i] == k * Table(k)[i + 1]
    ensures Table(k)[0] <= Limit < k * Table(k)[0]
    ensures 256 * Table(k)[0] <= 0x20_0000_0000_0000
  {
    var n := Digits(k);
    DigitsAtLeastTwo(k);
    TableAt(k, 0);
    TableAt(k, n);
    forall i | 0 <= i < |Table(k)| - 1
      ensures Table(k)[i] == k * Table(k)[i + 1]
    {
      TableAt(k, i);
      TableAt(k, i + 1);
      assert n - i == (n - i - 1) + 1;
    }
  }

  /** M = k^2 * P2 and k^3 * P2 > 2^45 with k <= 255 give P2 > 2^21. */
  lemma SecondEntryMagnitude(k: int)
    requires ValidBase(k)
    ensures |Table(k)| >= 3 && Table(k)[2] > 0x20_0000
  {
    TableShape(k);
    var t := Table(k);
    var p2 := t[2];
    assert t[0] == k * t[1] && t[1] == k * t[2];
    var cube := k * (k * k);
    assert k * t[0] == cube * p2;
    MulMonotone(k, k, 255);
    MulMonotone(k, k * k, 255 * 255);
    assert cube <= 0x100_0000;
    TableAt(k, 2);
    PowPositive(k, Digits(k) - 2);
    MulMonotone(p2, cube, 0x100_0000);
    if p2 <= 0x20_0000 {
      MulMonotone(0x100_0000, p2, 0x20_0000);
      assert false;
    }
  }

  /** The divisors as powers of the base. */
  lemma DivisorPowers(k: int)
    requires ValidBase(k)
    ensures Top(k) == Pow(k, Digits(k))
    ensures PrefixDivisor(k) == Pow(k, Digits(k) - 1)
    ensures SecondPrefixDivisor(k) == Pow(k, Digits(k) - 2)
  {
    DigitsAtLeastTwo(k);
    TableAt(k, 0);
    TableAt(k, 1);
    TableAt(k, 2);
  }

  /** The ascending list the source builds before `reverse()`. */
  function Ascending(k: int, e: nat): (r: seq<int>)
  {
    seq(e + 1, i requires 0 <= i <= e => Pow(k, i))
  }

  /** The loop at lib/main.ts:486-492 for one base: multiply up while the
   *  next power stays within the limit, then reverse. */
  method BuildTable(k: int) returns (placeValues: seq<int>)
    requires ValidBase(k)
    ensures placeValues == Table(k)
  {
    var placeValue := 1;
    var ascending := [placeValue];
    ghost var e: nat := 0;
    while k * placeValue <= Limit
      invariant placeValue == Pow(k, e) <= Limit
      invariant ascending == Ascending(k, e)
      decreases Limit - placeValue
    {
      PowPositive(k, e);
      placeValue := placeValue * k;
      ascending := ascending + [placeValue];
      e := e + 1;
    }
    ExponentUnique(k, e, Digits(k));
    placeValues := Reversed(ascending);
  }

  /** The whole `placeValueCache`: two empty rows for bases 0 and 1, then one
   *  row per base 2..255. */
  method BuildPlaceValueCache() returns (cache: seq<seq<int>>)
    ensures |cache| == 256 && cache[0] == [] && cache[1] == []
    ensures forall k | 2 <= k < 256 :: cache[k] == Table(k)
  {
    cache := [[], []];
    var base := 2;
    while base <= 255
      invariant 2 <= base <= 256 && |cache| == base
      invariant cache[0] == [] && cache[1] == []
      invariant forall k | 2 <= k < base :: cache[k] == Table(k)
    {
      var placeValues := BuildTable(base);
      cache := cache + [placeValues];
      base := base + 1;
    }
  }
}
