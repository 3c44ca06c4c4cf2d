/** `encode` (lib/main.ts:176-302) as an imperative method over the
 *  `Uint8Array` buffer that `emit` grows, proved to produce the digits of
 *  `Encoder.Encoded`, spelled in the encoding's alphabet. */
module EncodeMethod {
  import opened Common
  import opened Arith
  import opened PlaceValues
  import opened Range
  import opened Encoder
  import opened Buffer
  import opened Alphabet
  import opened EncodingCache

  /** The first n bytes of a buffer, as digits. */
  ghost function Digs(buf: seq<byte>, n: nat): (ds: seq<int>)
    requires n <= |buf|
    ensures |ds| == n
  {
    seq(n, i requires 0 <= i < n => buf[i] as int)
  }

  /** The encoder's local variables hold the state s. */
  ghost predicate Holds(s: State, lo: int, hi: int, deferredCount: int, deferredLoPrefix: int, buf: seq<byte>, len: nat)
  {
    s.r == Interval(lo, hi) && s.deferredCount == deferredCount && s.deferredLoPrefix == deferredLoPrefix
    && len <= |buf| && s.out == Digs(buf, len)
  }

  /** `encoded = emit(encoded, d, encodedLength++)` for a digit d. */
  method EmitDigit(encoded: array<byte>, encodedLength: nat, d: int) returns (encoded': array<byte>, encodedLength': nat)
    requires 0 <= d < 256 && encodedLength <= encoded.Length && encoded.Length >= 16
    modifies encoded
    ensures encodedLength' == encodedLength + 1 && encodedLength' <= encoded'.Length && encoded'.Length >= 16
    ensures encoded' == encoded || fresh(encoded')
    ensures Digs(encoded'[..], encodedLength') == Digs(old(encoded[..]), encodedLength) + [d]
  {
    ghost var before := encoded[..];
    encoded' := Emit(encoded, d as byte, encodedLength);
    EmittedKeeps(before, d as byte, encodedLength);
    encodedLength' := encodedLength + 1;
    assert encoded'[..][..encodedLength] == before[..encodedLength];
  }

  /** One byte of input (lib/main.ts:203-245): the narrowing, then the
   *  renormalisation loop. */
  method EncodeByte(k: int, prefixDivisor: int, secondPrefixDivisor: int, b: byte,
                    encoded: array<byte>, encodedLength: nat, lo: int, hi: int, deferredCount: nat, deferredLoPrefix: int,
                    ghost s: State)
    returns (encoded': array<byte>, encodedLength': nat, lo': int, hi': int, deferredCount': nat, deferredLoPrefix': int)
    requires ValidBase(k) && prefixDivisor == PrefixDivisor(k) && secondPrefixDivisor == SecondPrefixDivisor(k)
    requires Good(k, s) && Holds(s, lo, hi, deferredCount, deferredLoPrefix, encoded[..], encodedLength) && encoded.Length >= 16
    modifies encoded
    ensures Holds(Step(k, s, b), lo', hi', deferredCount', deferredLoPrefix', encoded'[..], encodedLength')
    ensures encoded' == encoded || fresh(encoded')
    ensures encoded'.Length >= 16
  {
    var narrowLo, narrowHi := NarrowBounds(lo, hi, b);
    ghost var n := s.(r := Narrow(s.r, b as int));
    NarrowedStart(k, s, b);
    encoded', encodedLength', lo', hi', deferredCount', deferredLoPrefix' :=
      RenormLoop(k, prefixDivisor, secondPrefixDivisor, encoded, encodedLength, narrowLo, narrowHi, deferredCount, deferredLoPrefix, n);
  }

  /** The narrowing (lib/main.ts:203-206), in the source's spelling. */
  method NarrowBounds(lo: int, hi: int, b: byte) returns (lo': int, hi': int)
    requires lo <= hi + 1
    ensures Interval(lo', hi') == Narrow(Interval(lo, hi), b as int)
  {
    var rangeDiff := hi + 1 - lo;
    var delta := b as int * rangeDiff;
    MulMonotone(rangeDiff, 0, b as int);
    hi' := lo + (CeilDiv256(delta + rangeDiff) - 1);
    lo' := lo + CeilDiv256(delta);
  }

  /** The narrowed state is where the renormalisation of `Step` starts. */
  lemma NarrowedStart(k: int, s: State, b: byte)
    requires ValidBase(k) && Good(k, s)
    ensures var n := s.(r := Narrow(s.r, b as int));
      Good(k, n) && ShiftedBy(k, n.r, 0) && Renorm(k, n, 0) == Step(k, s, b)
  {
    assert Pow(k, 0) == 1;
  }

  /** The renormalisation loop (lib/main.ts:208-245): emit while the ends
   *  agree on the leading digit, fold once where they straddle a digit
   *  boundary, then stop. */
  method RenormLoop(k: int, prefixDivisor: int, secondPrefixDivisor: int,
                    encoded: array<byte>, encodedLength: nat, lo: int, hi: int, deferredCount: nat, deferredLoPrefix: int,
                    ghost s: State)
    returns (encoded': array<byte>, encodedLength': nat, lo': int, hi': int, deferredCount': nat, deferredLoPrefix': int)
    requires ValidBase(k) && prefixDivisor == PrefixDivisor(k) && secondPrefixDivisor == SecondPrefixDivisor(k)
    requires Good(k, s) && ShiftedBy(k, s.r, 0)
    requires Holds(s, lo, hi, deferredCount, deferredLoPrefix, encoded[..], encodedLength) && encoded.Length >= 16
    modifies encoded
    ensures Holds(Renorm(k, s, 0), lo', hi', deferredCount', deferredLoPrefix', encoded'[..], encodedLength')
    ensures encoded' == encoded || fresh(encoded')
    ensures encoded'.Length >= 16
  {
    encoded', encodedLength', lo', hi', deferredCount', deferredLoPrefix' := encoded, encodedLength, lo, hi, deferredCount, deferredLoPrefix;
    ghost var cur := s;
    ghost var j: nat := 0;
    while true
      invariant Good(k, cur) && ShiftedBy(k, cur.r, j)
      invariant Renorm(k, cur, j) == Renorm(k, s, 0)
      invariant Holds(cur, lo', hi', deferredCount', deferredLoPrefix', encoded'[..], encodedLength')
      invariant encoded' == encoded || fresh(encoded')
      invariant encoded'.Length >= 16
      decreases Digits(k) - j
    {
      var done;
      done, encoded', encodedLength', lo', hi', deferredCount', deferredLoPrefix', cur, j :=
        RenormOnce(k, prefixDivisor, secondPrefixDivisor, encoded', encodedLength', lo', hi', deferredCount', deferredLoPrefix', cur, j);
      if done {
        break;
      }
    }
  }

  /** One pass of the renormalisation loop (lib/main.ts:209-244): either it
   *  stops, with or without a fold, and the state is the one `Renorm`
   *  ends in, or it emits a digit and `Renorm` goes on one level lower. */
  method RenormOnce(k: int, prefixDivisor: int, secondPrefixDivisor: int,
                    encoded: array<byte>, encodedLength: nat, lo: int, hi: int, deferredCount: nat, deferredLoPrefix: int,
                    ghost s: State, ghost j: nat)
    returns (done: bool, encoded': array<byte>, encodedLength': nat, lo': int, hi': int, deferredCount': nat, deferredLoPrefix': int,
             ghost s': State, ghost j': nat)
    requires ValidBase(k) && prefixDivisor == PrefixDivisor(k) && secondPrefixDivisor == SecondPrefixDivisor(k)
    requires Good(k, s) && ShiftedBy(k, s.r, j)
    requires Holds(s, lo, hi, deferredCount, deferredLoPrefix, encoded[..], encodedLength) && encoded.Length >= 16
    modifies encoded
    ensures Holds(s', lo', hi', deferredCount', deferredLoPrefix', encoded'[..], encodedLength')
    ensures done ==> s' == Renorm(k, s, j)
    ensures !done ==> Good(k, s') && j' == j + 1 <= Digits(k) && ShiftedBy(k, s'.r, j') && Renorm(k, s', j') == Renorm(k, s, j)
    ensures encoded' == encoded || fresh(encoded')
    ensures encoded'.Length >= 16
  {
    encoded', encodedLength', lo', hi', deferredCount', deferredLoPrefix' := encoded, encodedLength, lo, hi, deferredCount, deferredLoPrefix;
    s', j' := s, j;
    var loPrefix := lo / prefixDivisor;
    var hiPrefix := hi / prefixDivisor;
    if loPrefix != hiPrefix {
      done := true;
      if hiPrefix - loPrefix != 1 {
        return;
      }
      var loSecondPrefix := lo / secondPrefixDivisor;
      var hiSecondPrefix := hi / secondPrefixDivisor;
      if hiSecondPrefix - loSecondPrefix != 1 {
        return;
      }
      RenormFolds(k, s, j);
      lo', hi' := FoldBoundsAt(k, prefixDivisor, secondPrefixDivisor, lo, hi, loPrefix, hiPrefix);
      deferredCount' := deferredCount + 1;
      deferredLoPrefix' := loPrefix;
      s' := FoldStep(k, s);
      return;
    }
    done := false;
    RenormEmits(k, s, j);
    encoded', encodedLength', lo', hi' :=
      EmitAndShift(k, prefixDivisor, encoded, encodedLength, lo, hi, deferredCount, deferredLoPrefix, s);
    deferredCount' := 0;
    s' := EmitStep(k, s);
    j' := j + 1;
  }

  /** Where `Renorm` folds, it ends with the fold. */
  lemma RenormFolds(k: int, s: State, j: nat)
    requires ValidBase(k) && Good(k, s) && ShiftedBy(k, s.r, j) && !Agrees(k, s.r) && Straddles(k, s.r)
    ensures Good(k, FoldStep(k, s)) && Renorm(k, s, j) == FoldStep(k, s)
  {
    FoldStepGood(k, s);
  }

  /** Where `Renorm` emits, it goes on from the emitted state. */
  lemma RenormEmits(k: int, s: State, j: nat)
    requires ValidBase(k) && Good(k, s) && ShiftedBy(k, s.r, j) && Agrees(k, s.r)
    ensures j < Digits(k) && Good(k, EmitStep(k, s)) && ShiftedBy(k, EmitStep(k, s).r, j + 1)
    ensures Renorm(k, s, j) == Renorm(k, EmitStep(k, s), j + 1)
    ensures 0 <= s.r.lo < Top(k)
  {
    EmitStepGood(k, s, j);
    var top, p1 := Top(k), PrefixDivisor(k);
    if s.r.lo == top {
      FloorIs(top, p1, k);
      assert false;
    }
  }

  /** The fold (lib/main.ts:224-228), in the source's spelling: the
   *  second digit of both ends is removed. */
  method FoldBoundsAt(k: int, prefixDivisor: int, secondPrefixDivisor: int, lo: int, hi: int, loPrefix: int, hiPrefix: int)
    returns (lo': int, hi': int)
    requires ValidBase(k) && prefixDivisor == PrefixDivisor(k) && secondPrefixDivisor == SecondPrefixDivisor(k)
    requires 0 <= lo && 0 <= hi && loPrefix == Prefix(k, lo) && hiPrefix == Prefix(k, hi)
    ensures Interval(lo', hi') == Fold(k, Interval(lo, hi))
  {
    FoldPointSpelling(k, lo);
    FoldPointSpelling(k, hi);
    var base := k;
    lo' := loPrefix * prefixDivisor + (lo % secondPrefixDivisor) * base;
    hi' := hiPrefix * prefixDivisor + (hi % secondPrefixDivisor) * base + (base - 1);
  }

  /** The shift after an emission (lib/main.ts:243-244): the leading digit
   *  is dropped and a low digit appended, 0 to lo and k - 1 to hi. */
  method ShiftBounds(k: int, prefixDivisor: int, lo: int, hi: int) returns (lo': int, hi': int)
    requires ValidBase(k) && prefixDivisor == PrefixDivisor(k)
    ensures Interval(lo', hi') == Shift(k, Interval(lo, hi))
  {
    var base := k;
    lo' := (lo % prefixDivisor) * base;
    hi' := (hi % prefixDivisor) * base + (base - 1);
  }

  /** One emission (lib/main.ts:235-244): the digits, then the shift. */
  method EmitAndShift(k: int, prefixDivisor: int, encoded: array<byte>, encodedLength: nat,
                      lo: int, hi: int, deferredCount: nat, deferredLoPrefix: int, ghost s: State)
    returns (encoded': array<byte>, encodedLength': nat, lo': int, hi': int)
    requires ValidBase(k) && prefixDivisor == PrefixDivisor(k) && 0 <= lo < Top(k)
    requires Holds(s, lo, hi, deferredCount, deferredLoPrefix, encoded[..], encodedLength) && encoded.Length >= 16
    modifies encoded
    ensures Holds(EmitStep(k, s), lo', hi', 0, deferredLoPrefix, encoded'[..], encodedLength')
    ensures encoded' == encoded || fresh(encoded')
    ensures encoded'.Length >= 16
  {
    encoded', encodedLength' := EmitResolved(k, prefixDivisor, encoded, encodedLength, lo, deferredCount, deferredLoPrefix);
    lo', hi' := ShiftBounds(k, prefixDivisor, lo, hi);
  }

  /** An emission (lib/main.ts:235-241): the agreed leading digit, then the
   *  deferred digits resolved against it. */
  method EmitResolved(k: int, prefixDivisor: int, encoded: array<byte>, encodedLength: nat,
                      lo: int, deferredCount: nat, deferredLoPrefix: int)
    returns (encoded': array<byte>, encodedLength': nat)
    requires ValidBase(k) && prefixDivisor == PrefixDivisor(k) && 0 <= lo < Top(k)
    requires encodedLength <= encoded.Length && encoded.Length >= 16
    modifies encoded
    ensures encodedLength' <= encoded'.Length && encoded'.Length >= 16
    ensures Digs(encoded'[..], encodedLength') == Digs(old(encoded[..]), encodedLength) + [Prefix(k, lo)]
      + Repeat(if Prefix(k, lo) == deferredLoPrefix then k - 1 else 0, deferredCount)
    ensures encoded' == encoded || fresh(encoded')
  {
    var base := k;
    var loPrefix := lo / prefixDivisor;
    PrefixRange(k, lo);
    ghost var start := Digs(encoded[..], encodedLength) + [loPrefix];
    encoded', encodedLength' := EmitDigit(encoded, encodedLength, loPrefix);
    var deferredValue := if loPrefix == deferredLoPrefix then base - 1 else 0;
    var count := deferredCount;
    while count > 0
      invariant 0 <= count <= deferredCount
      invariant encodedLength' <= encoded'.Length && encoded'.Length >= 16
      invariant encoded' == encoded || fresh(encoded')
      invariant Digs(encoded'[..], encodedLength') == start + Repeat(deferredValue, deferredCount - count)
    {
      encoded', encodedLength' := EmitDigit(encoded', encodedLength', deferredValue);
      assert Repeat(deferredValue, deferredCount - count + 1)
          == Repeat(deferredValue, deferredCount - count) + [deferredValue];
      count := count - 1;
    }
  }

  /** The end-of-input flush (lib/main.ts:248-257). The source's
   *  post-decrement leaves `deferredCount` at -1; it is not read again. */
  method FlushDeferred(k: int, prefixDivisor: int,
                       encoded: array<byte>, encodedLength: nat, lo: int, hi: int, deferredCount: nat, deferredLoPrefix: int,
                       ghost s: State)
    returns (encoded': array<byte>, encodedLength': nat, lo': int, hi': int)
    requires ValidBase(k) && prefixDivisor == PrefixDivisor(k) && Good(k, s)
    requires Holds(s, lo, hi, deferredCount, deferredLoPrefix, encoded[..], encodedLength) && encoded.Length >= 16
    modifies encoded
    ensures Flush(k, s).r == Interval(lo', hi') && encodedLength' <= encoded'.Length
    ensures Flush(k, s).out == Digs(encoded'[..], encodedLength')
    ensures encoded' == encoded || fresh(encoded')
    ensures encoded'.Length >= 16
  {
    var base := k;
    encoded', encodedLength', lo', hi' := encoded, encodedLength, lo, hi;
    if deferredCount > 0 {
      var hiPrefix := hi / prefixDivisor;
      PrefixRange(k, hi);
      encoded', encodedLength' := EmitDigit(encoded', encodedLength', hiPrefix);
      var count := deferredCount;
      while count > 0
        invariant 0 <= count <= deferredCount
        invariant encodedLength' <= encoded'.Length && encoded'.Length >= 16
        invariant encoded' == encoded || fresh(encoded')
        invariant Digs(encoded'[..], encodedLength') == s.out + [hiPrefix] + Repeat(0, deferredCount - count)
      {
        encoded', encodedLength' := EmitDigit(encoded', encodedLength', 0);
        assert Repeat(0, deferredCount - count + 1) == Repeat(0, deferredCount - count) + [0];
        count := count - 1;
      }
      lo', hi' := ShiftBounds(k, prefixDivisor, lo, hi);
    }
  }

  /** The finalisation of the whole window is the digit 0. */
  lemma FinalizeWhole(k: int, r: Interval, j: nat)
    requires ValidBase(k) && Loose(k, r) && ShiftedBy(k, r, j) && r.lo == 0 && r.hi == Top(k) - 1
    ensures Finalize(k, r, j) == [0]
  {}

  /** With a whole leading-digit block strictly inside, the finalisation is
   *  that block's digit. */
  lemma FinalizeInner(k: int, r: Interval, j: nat)
    requires ValidBase(k) && Loose(k, r) && ShiftedBy(k, r, j) && !(r.lo == 0 && r.hi == Top(k) - 1)
    requires Prefix(k, r.hi) - Prefix(k, r.lo) > 1
    ensures Finalize(k, r, j) == [Prefix(k, r.lo) + 1] && 0 <= Prefix(k, r.lo) + 1 < k
  {
    PrefixRange(k, r.hi);
    DivBounds(r.lo, PrefixDivisor(k));
  }

  /** Otherwise the finalisation emits the upper leading digit and goes on
   *  from the shifted interval, either with one more shift counted or from
   *  a lower start. */
  lemma FinalizeShifts(k: int, r: Interval, j: nat)
    requires ValidBase(k) && Loose(k, r) && ShiftedBy(k, r, j) && !(r.lo == 0 && r.hi == Top(k) - 1)
    requires Prefix(k, r.hi) - Prefix(k, r.lo) <= 1
    ensures Loose(k, FinalShift(k, r)) && ShiftedBy(k, FinalShift(k, r), NextCount(k, j))
    ensures Finalize(k, r, j) == [Prefix(k, r.hi)] + Finalize(k, FinalShift(k, r), NextCount(k, j))
    ensures 0 <= Prefix(k, r.hi) < k
    ensures j < NextCount(k, j) || FinalShift(k, r).lo < r.lo
  {
    PrefixRange(k, r.hi);
    FinalShiftCounts(k, r, j);
  }

  /** One round of the finalisation loop (lib/main.ts:262-295): either the
   *  last digit, or the upper leading digit and the shifted interval. */
  method FinishStep(k: int, top: int, prefixDivisor: int, encoded: array<byte>, encodedLength: nat,
                    lo: int, hi: int, ghost j: nat)
    returns (encoded': array<byte>, encodedLength': nat, lo': int, hi': int, done: bool, ghost j': nat)
    requires ValidBase(k) && top == Top(k) && prefixDivisor == PrefixDivisor(k)
    requires Loose(k, Interval(lo, hi)) && ShiftedBy(k, Interval(lo, hi), j)
    requires encodedLength <= encoded.Length && encoded.Length >= 16
    modifies encoded
    ensures encodedLength' <= encoded'.Length && encoded'.Length >= 16
    ensures encoded' == encoded || fresh(encoded')
    ensures done ==> Digs(encoded'[..], encodedLength') == Digs(old(encoded[..]), encodedLength) + Finalize(k, Interval(lo, hi), j)
    ensures !done ==> Loose(k, Interval(lo', hi')) && ShiftedBy(k, Interval(lo', hi'), j')
    ensures !done ==> Digs(encoded'[..], encodedLength') + Finalize(k, Interval(lo', hi'), j')
                      == Digs(old(encoded[..]), encodedLength) + Finalize(k, Interval(lo, hi), j)
    ensures !done ==> j < j' || (j' == j && lo' < lo)
  {
    ghost var r := Interval(lo, hi);
    ghost var before := Digs(encoded[..], encodedLength);
    lo', hi', j' := lo, hi, j;
    if lo == 0 && hi == top - 1 {
      FinalizeWhole(k, r, j);
      encoded', encodedLength' := EmitDigit(encoded, encodedLength, 0);
      return encoded', encodedLength', lo', hi', true, j';
    }
    var loPrefix := lo / prefixDivisor;
    var hiPrefix := hi / prefixDivisor;
    if hiPrefix - loPrefix > 1 {
      FinalizeInner(k, r, j);
      encoded', encodedLength' := EmitDigit(encoded, encodedLength, loPrefix + 1);
      return encoded', encodedLength', lo', hi', true, j';
    }
    FinalizeShifts(k, r, j);
    encoded', encodedLength' := EmitDigit(encoded, encodedLength, hiPrefix);
    var shiftedLo, shiftedHi := ShiftBounds(k, prefixDivisor, lo, hi);
    if loPrefix < hiPrefix {
      lo' := 0;
    } else {
      lo' := shiftedLo;
    }
    hi' := shiftedHi;
    assert Interval(lo', hi') == FinalShift(k, r);
    j' := NextCount(k, j);
    done := false;
  }

  /** The finalisation loop (lib/main.ts:261-296). */
  method Finish(k: int, top: int, prefixDivisor: int, encoded: array<byte>, encodedLength: nat, lo: int, hi: int)
    returns (encoded': array<byte>, encodedLength': nat)
    requires ValidBase(k) && top == Top(k) && prefixDivisor == PrefixDivisor(k) && Loose(k, Interval(lo, hi))
    requires encodedLength <= encoded.Length && encoded.Length >= 16
    modifies encoded
    ensures encodedLength' <= encoded'.Length
    ensures Digs(encoded'[..], encodedLength') == Digs(old(encoded[..]), encodedLength) + Finalize(k, Interval(lo, hi), 0)
    ensures encoded' == encoded || fresh(encoded')
  {
    encoded', encodedLength' := encoded, encodedLength;
    var lo', hi' := lo, hi;
    ghost var j: nat := 0;
    assert Pow(k, 0) == 1;
    ghost var all := Digs(encoded[..], encodedLength) + Finalize(k, Interval(lo, hi), 0);
    while true
      invariant Loose(k, Interval(lo', hi')) && ShiftedBy(k, Interval(lo', hi'), j)
      invariant encodedLength' <= encoded'.Length && encoded'.Length >= 16
      invariant encoded' == encoded || fresh(encoded')
      invariant Digs(encoded'[..], encodedLength') + Finalize(k, Interval(lo', hi'), j) == all
      decreases Digits(k) - j, lo'
    {
      var nextLo, nextHi, done;
      ghost var nextJ;
      encoded', encodedLength', nextLo, nextHi, done, nextJ :=
        FinishStep(k, top, prefixDivisor, encoded', encodedLength', lo', hi', j);
      if done {
        break;
      }
      lo', hi', j := nextLo, nextHi, nextJ;
    }
  }

  /** The first three entries of a row of `placeValueCache`. */
  lemma TableEntries(k: int)
    requires ValidBase(k)
    ensures |Table(k)| >= 3
    ensures Table(k)[0] == Top(k) && Table(k)[1] == PrefixDivisor(k) && Table(k)[2] == SecondPrefixDivisor(k)
  {
    TableShape(k);
  }

  /** The digit-producing part of `encode` (lib/main.ts:193-297): the byte
   *  loop, the flush and the finalisation leave `Encoded(k, binaryData)` in
   *  the buffer. */
  method EncodeDigits(k: int, placeValues: seq<int>, binaryData: seq<byte>, capacity: nat)
    returns (encoded: array<byte>, encodedLength: nat)
    requires ValidBase(k) && placeValues == Table(k) && capacity >= 16
    ensures fresh(encoded) && encodedLength <= encoded.Length
    ensures Digs(encoded[..], encodedLength) == Encoded(k, binaryData)
  {
    TableEntries(k);
    var top, prefixDivisor, secondPrefixDivisor := placeValues[0], placeValues[1], placeValues[2];
    encoded := new byte[capacity];
    encodedLength := 0;

    var lo, hi := 0, top - 1;
    var deferredCount, deferredLoPrefix := 0, 0;
    ghost var s := Start(k);
    assert Digs(encoded[..], 0) == [];
    var i := 0;
    while i < |binaryData|
      invariant 0 <= i <= |binaryData|
      invariant Good(k, s) && Settled(k, s) && s == Run(k, Start(k), binaryData[..i])
      invariant Holds(s, lo, hi, deferredCount, deferredLoPrefix, encoded[..], encodedLength)
      invariant encoded.Length >= 16 && fresh(encoded)
    {
      assert binaryData[..i + 1][..i] == binaryData[..i];
      encoded, encodedLength, lo, hi, deferredCount, deferredLoPrefix :=
        EncodeByte(k, prefixDivisor, secondPrefixDivisor, binaryData[i], encoded, encodedLength, lo, hi, deferredCount, deferredLoPrefix, s);
      s := Step(k, s, binaryData[i]);
      i := i + 1;
    }
    assert binaryData[..i] == binaryData;

    encoded, encodedLength, lo, hi := FlushDeferred(k, prefixDivisor, encoded, encodedLength, lo, hi, deferredCount, deferredLoPrefix, s);
    encoded, encodedLength := Finish(k, top, prefixDivisor, encoded, encodedLength, lo, hi);
  }

  /** The digits spelled in an alphabet. */
  function Spell(alphabet: string, ds: seq<int>): (text: string)
    requires forall i | 0 <= i < |ds| :: 0 <= ds[i] < |alphabet|
    ensures |text| == |ds| && forall i | 0 <= i < |ds| :: text[i] == alphabet[ds[i]]
  {
    seq(|ds|, i requires 0 <= i < |ds| => alphabet[ds[i]])
  }

  /** The mapping loop (lib/main.ts:298-300): each digit in the buffer is
   *  replaced by its character code. */
  method SpellInPlace(encoding: BasekEncoding, encoded: array<byte>, encodedLength: nat, ghost ds: seq<int>)
    requires encoding.Valid() && encodedLength <= encoded.Length && Digs(encoded[..], encodedLength) == ds
    requires IsDigits(encoding.Base(), ds)
    requires encoded != encoding.digitToCharMap && encoded != encoding.charToDigitMap
    modifies encoded
    ensures forall m | 0 <= m < encodedLength :: encoded[m] as int == encoding.alphabet[ds[m]] as int
  {
    var digitToChar := encoding.digitToCharMap;
    var j := 0;
    while j < encodedLength
      invariant 0 <= j <= encodedLength
      invariant forall m | 0 <= m < j :: encoded[m] as int == encoding.alphabet[ds[m]] as int
      invariant forall m | j <= m < encodedLength :: encoded[m] as int == ds[m]
    {
      encoded[j] := digitToChar[encoded[j]];
      j := j + 1;
    }
  }

  /** `encode(binaryData, encoding)` after `getEncoding` (lib/main.ts:186-301):
   *  the text is the digits of `Encoded` in the encoding's alphabet. The
   *  initial buffer size is any capacity of at least 16. */
  method EncodeWith(encoding: BasekEncoding, placeValueCache: seq<seq<int>>, binaryData: seq<byte>, capacity: nat)
    returns (text: string)
    requires encoding.Valid() && capacity >= 16
    requires |placeValueCache| == 256 && forall k | 2 <= k < 256 :: placeValueCache[k] == Table(k)
    ensures text == Spell(encoding.alphabet, Encoded(encoding.Base(), binaryData))
  {
    var base := encoding.Base();
    var encoded, encodedLength := EncodeDigits(base, placeValueCache[base], binaryData, capacity);
    ghost var ds := Encoded(base, binaryData);
    SpellInPlace(encoding, encoded, encodedLength, ds);
    text := seq(encodedLength, m requires 0 <= m < encodedLength reads encoded => (encoded[m] as int) as char);
  }
}
