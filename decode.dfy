/** `decode` (lib/main.ts:312-435) as an imperative method over the
 *  `Uint8Array` buffer that `emit` grows, proved to return the bytes of
 *  `Decoder.Decoded` for the digits the characters stand for, or the
 *  first character that is not in the alphabet. */
module DecodeMethod {
  import opened Common
  import opened Arith
  import opened PlaceValues
  import opened Range
  import opened Encoder
  import opened Decoder
  import opened Buffer
  import opened Alphabet
  import opened EncodeMethod

  /** Why `decode` throws (lib/main.ts:339-343): the character at `index`
   *  is not in the alphabet. */
  datatype DecodeError = MissingCharacter(index: nat, c: char)

  /** A character past the 256 slots of `charToDigit`: the lookup
   *  (lib/main.ts:338) reads `undefined`, which is not 255, so `decode` does
   *  not throw, but the accumulator becomes NaN (lib/main.ts:345). */
  predicate Wide(c: char)
  {
    c as int >= 256
  }

  /** A character `decode` throws for (lib/main.ts:339-343): its slot in
   *  `charToDigit` holds 255. */
  predicate Missing(alphabet: string, c: char)
    requires |alphabet| <= 255
  {
    !Wide(c) && DigitOf(alphabet, c as int) == 255
  }

  /** The digits `decode` adds to its accumulator, read in order. The first
   *  missing character stops the reading with an error. The digits end
   *  before the first wide character: from there on the accumulator is NaN,
   *  but later characters are still looked up, and a missing one still
   *  throws. */
  function Digitize(alphabet: string, text: string): (r: Result<seq<int>, DecodeError>)
    requires |alphabet| <= 255
    ensures r.Success? <==> forall i | 0 <= i < |text| :: !Missing(alphabet, text[i])
    ensures r.Success? ==> |r.value| <= |text| && IsDigits(|alphabet|, r.value)
    ensures r.Success? ==>
      forall i | 0 <= i < |r.value| :: !Wide(text[i]) && r.value[i] == DigitOf(alphabet, text[i] as int)
    ensures r.Success? && |r.value| < |text| ==> Wide(text[|r.value|])
    ensures r.Failure? ==>
      var i := r.error.index;
      i < |text| && r.error.c == text[i] && Missing(alphabet, text[i])
      && forall j | 0 <= j < i :: !Missing(alphabet, text[j])
    decreases |text|
  {
    if text == [] then Success([])
    else
      var init := text[..|text| - 1];
      var c := text[|text| - 1];
      assert forall j | 0 <= j < |init| :: init[j] == text[j];
      match Digitize(alphabet, init)
      case Failure(e) => Failure(e)
      case Success(ds) =>
        if Missing(alphabet, c) then Failure(MissingCharacter(|text| - 1, c))
        else if |ds| < |init| || Wide(c) then Success(ds)
        else Success(ds + [DigitOf(alphabet, c as int)])
  }

  /** What `decode` returns for `text` in an alphabet: the first missing
   *  character, or the decoded bytes. With no wide character the last digit
   *  is the final one. After a wide character `byte` and `maxByte` are NaN,
   *  so `maxByte !== byte` stops every round of the byte loop
   *  (lib/main.ts:369): the bytes are those the digits before it gave, all
   *  read as digits that are not the last. */
  function DecodeText(alphabet: string, text: string): Result<seq<byte>, DecodeError>
    requires 2 <= |alphabet| <= 255
  {
    match Digitize(alphabet, text)
    case Failure(e) => Failure(e)
    case Success(ds) =>
      if |ds| == |text| then Success(Decoded(|alphabet|, ds)) else Success(Consumed(|alphabet|, ds).out)
  }

  /** Once a prefix of the text has a missing character, so has the text,
   *  and the error names the same character. */
  lemma {:induction false} DigitizeFailsOnward(alphabet: string, text: string, m: nat)
    requires |alphabet| <= 255 && m <= |text| && Digitize(alphabet, text[..m]).Failure?
    ensures Digitize(alphabet, text) == Digitize(alphabet, text[..m])
    decreases |text| - m
  {
    if m < |text| {
      var init := text[..|text| - 1];
      assert init[..m] == text[..m];
      DigitizeFailsOnward(alphabet, init, m);
    } else {
      assert text[..m] == text;
    }
  }

  /** Once a prefix of the text holds a wide character, the characters
   *  after it add no digits. */
  lemma {:induction false} DigitizeStopsOnward(alphabet: string, text: string, m: nat)
    requires |alphabet| <= 255 && m <= |text| && Digitize(alphabet, text).Success?
    requires Digitize(alphabet, text[..m]).Success? && |Digitize(alphabet, text[..m]).value| < m
    ensures Digitize(alphabet, text) == Digitize(alphabet, text[..m])
    decreases |text| - m
  {
    if m < |text| {
      var init := text[..|text| - 1];
      assert init[..m] == text[..m];
      assert forall j | 0 <= j < |init| :: init[j] == text[j];
      DigitizeStopsOnward(alphabet, init, m);
    } else {
      assert text[..m] == text;
    }
  }

  /** Whatever follows a wide character is only searched for a missing
   *  character: when there is none, it changes nothing in the result. */
  lemma WideCuts(alphabet: string, text: string, c: char, rest: string)
    requires 2 <= |alphabet| <= 255 && Wide(c)
    requires DecodeText(alphabet, text + [c] + rest).Success?
    ensures DecodeText(alphabet, text + [c] + rest) == DecodeText(alphabet, text + [c])
  {
    var t := text + [c];
    var whole := t + rest;
    assert whole[..|t|] == t;
    assert forall j | 0 <= j < |t| :: t[j] == whole[j];
    var ds := Digitize(alphabet, t).value;
    assert t[|text|] == c;
    DigitizeStopsOnward(alphabet, whole, |t|);
  }

  /** `decode` throws exactly when some character with a slot in
   *  `charToDigit` is not in the alphabet, and then it names the first such
   *  character. */
  lemma DecodeFails(alphabet: string, text: string)
    requires 2 <= |alphabet| <= 255
    ensures DecodeText(alphabet, text).Failure? <==>
      exists i | 0 <= i < |text| :: !Wide(text[i]) && forall j | 0 <= j < |alphabet| :: alphabet[j] != text[i]
    ensures DecodeText(alphabet, text).Failure? ==>
      var e := DecodeText(alphabet, text).error;
      e.index < |text| && e.c == text[e.index] && !Wide(e.c) && (forall j | 0 <= j < |alphabet| :: alphabet[j] != e.c)
      && forall i | 0 <= i < e.index :: Wide(text[i]) || exists j | 0 <= j < |alphabet| :: alphabet[j] == text[i]
  {
    var r := Digitize(alphabet, text);
    if r.Failure? {
      var i := r.error.index;
      assert DigitOf(alphabet, text[i] as int) == 255;
      assert forall j | 0 <= j < |alphabet| :: alphabet[j] != text[i];
      forall i' | 0 <= i' < i
        ensures Wide(text[i']) || exists j | 0 <= j < |alphabet| :: alphabet[j] == text[i']
      {
        if !Wide(text[i']) {
          var d := DigitOf(alphabet, text[i'] as int);
          assert alphabet[d] == text[i'];
        }
      }
    } else {
      forall i | 0 <= i < |text| && !Wide(text[i])
        ensures exists j | 0 <= j < |alphabet| :: alphabet[j] == text[i]
      {
        var d := DigitOf(alphabet, text[i] as int);
        assert alphabet[d] == text[i];
      }
    }
  }

  /** The decoder's local variables hold the state d. */
  ghost predicate DHolds(d: DState, lo: int, hi: int, encodedDigits: int, multIndex: nat, buf: seq<byte>, length: nat)
  {
    d.r == Interval(lo, hi) && d.acc == encodedDigits && d.mi == multIndex
    && length <= |buf| && d.out == buf[..length]
  }

  /** `placeValues` is the row of `placeValueCache` for base k. */
  ghost predicate PlaceValuesOf(k: int, placeValues: seq<int>)
    requires ValidBase(k)
  {
    |placeValues| == Digits(k) + 1 && forall i | 0 <= i <= Digits(k) :: placeValues[i] == Place(k, i)
  }

  lemma TablePlaces(k: int)
    requires ValidBase(k)
    ensures PlaceValuesOf(k, Table(k))
  {}

  /** `decoded = emit(decoded, byte, length++)`. */
  method EmitByte(decoded: array<byte>, length: nat, b: byte) returns (decoded': array<byte>, length': nat)
    requires length <= decoded.Length && decoded.Length >= 16
    modifies decoded
    ensures length' == length + 1 && length' <= decoded'.Length && decoded'.Length >= 16
    ensures decoded' == decoded || fresh(decoded')
    ensures decoded'[..length'] == old(decoded[..length]) + [b]
  {
    ghost var before := decoded[..];
    decoded' := Emit(decoded, b, length);
    EmittedKeeps(before, b, length);
    length' := length + 1;
    assert decoded'[..length'] == decoded'[..][..length] + [b];
  }

  /** `encodedDigits += placeValues[++multIndex] * digit` (lib/main.ts:345). */
  method AddDigit(k: int, placeValues: seq<int>, encodedDigits: int, multIndex: nat, digit: int)
    returns (encodedDigits': int, multIndex': nat)
    requires ValidBase(k) && PlaceValuesOf(k, placeValues) && multIndex < Digits(k)
    ensures multIndex' == multIndex + 1
    ensures encodedDigits' == encodedDigits + Place(k, multIndex + 1) * digit
  {
    multIndex' := multIndex + 1;
    encodedDigits' := encodedDigits + placeValues[multIndex'] * digit;
  }

  /** The lowest and highest byte the readings could stand for
   *  (lib/main.ts:366-368). */
  method ByteRange(lo: int, hi: int, encodedDigits: int, encodedHi: int) returns (byte: int, maxByte: int)
    requires lo <= encodedDigits <= encodedHi <= hi
    ensures byte == SliceIndex(Interval(lo, hi), encodedDigits)
    ensures maxByte == SliceIndex(Interval(lo, hi), encodedHi)
  {
    var rangeDiff := hi + 1 - lo;
    byte := ((encodedDigits - lo) * 256) / rangeDiff;
    maxByte := ((encodedHi - lo) * 256) / rangeDiff;
  }

  /** The shift of the accumulator (lib/main.ts:423). */
  method ShiftedDigits(k: int, prefixDivisor: int, encodedDigits: int) returns (encodedDigits': int)
    requires ValidBase(k) && prefixDivisor == PrefixDivisor(k)
    ensures encodedDigits' == ShiftPoint(k, encodedDigits)
  {
    var base := k;
    encodedDigits' := (encodedDigits % prefixDivisor) * base;
  }

  /** The fold of the accumulator (lib/main.ts:409-412). */
  method FoldedDigits(k: int, prefixDivisor: int, secondPrefixDivisor: int, encodedDigits: int) returns (encodedDigits': int)
    requires ValidBase(k) && prefixDivisor == PrefixDivisor(k) && secondPrefixDivisor == SecondPrefixDivisor(k)
    ensures encodedDigits' == FoldPoint(k, encodedDigits)
  {
    var base := k;
    encodedDigits' := encodedDigits - (encodedDigits % prefixDivisor) + (encodedDigits % secondPrefixDivisor) * base;
  }

  /** Where `DRenorm` shifts, it goes on from the shifted state. */
  lemma DRenormShifts(k: int, d: DState)
    requires ValidBase(k) && Tracks(k, d) && Agrees(k, d.r)
    ensures d.mi >= 1 && Tracks(k, DShift(k, d)) && DRenorm(k, d) == DRenorm(k, DShift(k, d))
    ensures 0 <= d.r.lo && 0 <= d.r.hi
  {
    DShiftTracks(k, d);
  }

  /** Where `DRenorm` folds, it ends with the fold. */
  lemma DRenormFolds(k: int, d: DState)
    requires ValidBase(k) && Tracks(k, d) && !Agrees(k, d.r) && Straddles(k, d.r)
    ensures d.mi >= 2 && DRenorm(k, d) == DFold(k, d)
    ensures 0 <= d.r.lo && 0 <= d.r.hi
  {
    DFoldTracks(k, d);
  }

  /** The decoder's renormalisation loop (lib/main.ts:387-429): shift the
   *  interval and the accumulator while the ends agree, fold once where
   *  they straddle a digit boundary, then stop. */
  method RenormDigits(k: int, prefixDivisor: int, secondPrefixDivisor: int,
                      lo: int, hi: int, encodedDigits: int, multIndex: nat, ghost d: DState)
    returns (lo': int, hi': int, encodedDigits': int, multIndex': nat)
    requires ValidBase(k) && prefixDivisor == PrefixDivisor(k) && secondPrefixDivisor == SecondPrefixDivisor(k)
    requires Tracks(k, d) && d.r == Interval(lo, hi) && d.acc == encodedDigits && d.mi == multIndex
    ensures DRenorm(k, d) == DState(Interval(lo', hi'), encodedDigits', multIndex', d.out)
  {
    lo', hi', encodedDigits', multIndex' := lo, hi, encodedDigits, multIndex;
    ghost var cur := d;
    while true
      invariant Tracks(k, cur) && DRenorm(k, cur) == DRenorm(k, d)
      invariant cur == DState(Interval(lo', hi'), encodedDigits', multIndex', d.out)
      decreases cur.mi
    {
      var loPrefix := lo' / prefixDivisor;
      var hiPrefix := hi' / prefixDivisor;
      if loPrefix != hiPrefix {
        if hiPrefix - loPrefix != 1 {
          break;
        }
        var loSecondPrefix := lo' / secondPrefixDivisor;
        var hiSecondPrefix := hi' / secondPrefixDivisor;
        if hiSecondPrefix - loSecondPrefix != 1 {
          break;
        }
        DRenormFolds(k, cur);
        lo', hi' := FoldBoundsAt(k, prefixDivisor, secondPrefixDivisor, lo', hi', loPrefix, hiPrefix);
        encodedDigits' := FoldedDigits(k, prefixDivisor, secondPrefixDivisor, encodedDigits');
        multIndex' := multIndex' - 1;
        cur := DFold(k, cur);
        break;
      }
      DRenormShifts(k, cur);
      lo', hi' := ShiftBounds(k, prefixDivisor, lo', hi');
      encodedDigits' := ShiftedDigits(k, prefixDivisor, encodedDigits');
      multIndex' := multIndex' - 1;
      cur := DShift(k, cur);
    }
  }

  /** The byte loop stops where the readings span more than one byte. */
  lemma EmitsStops(k: int, d: DState, multiple: bool)
    requires ValidBase(k) && Tracks(k, d)
    requires !OneByte(k, d)
    ensures Emits(k, d, multiple) == d
  {}

  /** After the final digit the byte loop emits one byte and stops. */
  lemma EmitsOnce(k: int, d: DState)
    requires ValidBase(k) && Tracks(k, d)
    requires OneByte(k, d)
    ensures 0 <= SliceIndex(d.r, d.acc) < 256
    ensures Emits(k, d, false) == d.(out := d.out + [SliceIndex(d.r, d.acc) as byte])
  {
    SliceIndexInverts(d.r, d.acc, 0);
  }

  /** One round of the byte loop (lib/main.ts:361-428): infer the byte
   *  range, stop when it is not a single byte, emit it, stop after the
   *  final digit's byte, otherwise narrow and renormalise. */
  method ByteRound(k: int, prefixDivisor: int, secondPrefixDivisor: int, placeValues: seq<int>,
                   decoded: array<byte>, length: nat, lo: int, hi: int, encodedDigits: int, multIndex: nat,
                   emitMultiple: bool, ghost d: DState)
    returns (decoded': array<byte>, length': nat, lo': int, hi': int, encodedDigits': int, multIndex': nat,
             done: bool, ghost d': DState)
    requires ValidBase(k) && prefixDivisor == PrefixDivisor(k) && secondPrefixDivisor == SecondPrefixDivisor(k)
    requires PlaceValuesOf(k, placeValues)
    requires Tracks(k, d) && DHolds(d, lo, hi, encodedDigits, multIndex, decoded[..], length) && decoded.Length >= 16
    modifies decoded
    ensures decoded' == decoded || fresh(decoded')
    ensures decoded'.Length >= 16
    ensures done ==> DHolds(Emits(k, d, emitMultiple), lo', hi', encodedDigits', multIndex', decoded'[..], length')
    ensures !done ==> Tracks(k, d') && Emits(k, d', emitMultiple) == Emits(k, d, emitMultiple)
    ensures !done ==> DHolds(d', lo', hi', encodedDigits', multIndex', decoded'[..], length')
    ensures !done ==> d'.mi < d.mi || (d'.mi == d.mi && Width(d'.r) < Width(d.r))
  {
    decoded', length', lo', hi', encodedDigits', multIndex', d' := decoded, length, lo, hi, encodedDigits, multIndex, d;
    var encodedHi := encodedDigits + (placeValues[multIndex] - 1);
    var byte, maxByte := ByteRange(lo, hi, encodedDigits, encodedHi);
    if maxByte != byte {
      EmitsStops(k, d, emitMultiple);
      return decoded', length', lo', hi', encodedDigits', multIndex', true, d';
    }
    EmitsOnce(k, d);
    decoded', length' := EmitByte(decoded, length, byte as byte);
    if !emitMultiple {
      return decoded', length', lo', hi', encodedDigits', multIndex', true, d';
    }
    EmitsGoesOn(k, d);
    var narrowLo, narrowHi := NarrowBounds(lo, hi, byte as byte);
    ghost var n := Narrowed(k, d);
    lo', hi', encodedDigits', multIndex' :=
      RenormDigits(k, prefixDivisor, secondPrefixDivisor, narrowLo, narrowHi, encodedDigits, multIndex, n);
    d' := DRenorm(k, n);
    done := false;
  }

  /** The byte loop (lib/main.ts:360-429). */
  method EmitBytes(k: int, prefixDivisor: int, secondPrefixDivisor: int, placeValues: seq<int>,
                   decoded: array<byte>, length: nat, lo: int, hi: int, encodedDigits: int, multIndex: nat,
                   emitMultiple: bool, ghost d: DState)
    returns (decoded': array<byte>, length': nat, lo': int, hi': int, encodedDigits': int, multIndex': nat)
    requires ValidBase(k) && prefixDivisor == PrefixDivisor(k) && secondPrefixDivisor == SecondPrefixDivisor(k)
    requires PlaceValuesOf(k, placeValues)
    requires Tracks(k, d) && DHolds(d, lo, hi, encodedDigits, multIndex, decoded[..], length) && decoded.Length >= 16
    modifies decoded
    ensures decoded' == decoded || fresh(decoded')
    ensures decoded'.Length >= 16
    ensures DHolds(Emits(k, d, emitMultiple), lo', hi', encodedDigits', multIndex', decoded'[..], length')
  {
    decoded', length', lo', hi', encodedDigits', multIndex' := decoded, length, lo, hi, encodedDigits, multIndex;
    ghost var cur := d;
    while true
      invariant Tracks(k, cur) && Emits(k, cur, emitMultiple) == Emits(k, d, emitMultiple)
      invariant DHolds(cur, lo', hi', encodedDigits', multIndex', decoded'[..], length')
      invariant decoded' == decoded || fresh(decoded')
      invariant decoded'.Length >= 16
      decreases cur.mi, Width(cur.r)
    {
      var done;
      ghost var next;
      decoded', length', lo', hi', encodedDigits', multIndex', done, next :=
        ByteRound(k, prefixDivisor, secondPrefixDivisor, placeValues, decoded', length', lo', hi', encodedDigits', multIndex',
                  emitMultiple, cur);
      if done {
        break;
      }
      cur := next;
    }
  }

  /** One digit (lib/main.ts:345-429): add it to the accumulator, stop at a
   *  final 0, otherwise run the byte loop, for one byte only after the
   *  final digit. */
  method DigitRound(k: int, prefixDivisor: int, secondPrefixDivisor: int, placeValues: seq<int>,
                    decoded: array<byte>, length: nat, lo: int, hi: int, encodedDigits: int, multIndex: nat,
                    digit: int, last: bool, ghost d: DState)
    returns (decoded': array<byte>, length': nat, lo': int, hi': int, encodedDigits': int, multIndex': nat)
    requires ValidBase(k) && prefixDivisor == PrefixDivisor(k) && secondPrefixDivisor == SecondPrefixDivisor(k)
    requires PlaceValuesOf(k, placeValues) && 0 <= digit < k
    requires Tracks(k, d) && d.mi < Digits(k)
    requires DHolds(d, lo, hi, encodedDigits, multIndex, decoded[..], length) && decoded.Length >= 16
    modifies decoded
    ensures decoded' == decoded || fresh(decoded')
    ensures decoded'.Length >= 16
    ensures DHolds(DigitStep(k, d, digit, last), lo', hi', encodedDigits', multIndex', decoded'[..], length')
  {
    decoded', length', lo', hi' := decoded, length, lo, hi;
    encodedDigits', multIndex' := AddDigit(k, placeValues, encodedDigits, multIndex, digit);
    ghost var e := Read(k, d, digit);
    if last && digit == 0 {
      return;
    }
    var emitMultiple := !last;
    decoded', length', lo', hi', encodedDigits', multIndex' :=
      EmitBytes(k, prefixDivisor, secondPrefixDivisor, placeValues, decoded, length, lo, hi, encodedDigits', multIndex',
                emitMultiple, e);
  }

  /** The digit loop's state after one more non-final digit. */
  lemma ConsumedStep(k: int, ds: seq<int>, x: int)
    requires ValidBase(k) && IsDigits(k, ds) && 0 <= x < k
    ensures IsDigits(k, ds + [x])
    ensures Consumed(k, ds + [x]) == DigitStep(k, Consumed(k, ds), x, false)
    ensures Decoded(k, ds + [x]) == DigitStep(k, Consumed(k, ds), x, true).out
  {
    assert (ds + [x])[..|ds|] == ds;
  }

  /** A prefix of the text one character longer. */
  lemma DigitizeStep(alphabet: string, text: string, i: nat, ds: seq<int>)
    requires |alphabet| <= 255 && i < |text| && Digitize(alphabet, text[..i]) == Success(ds)
    ensures Digitize(alphabet, text[..i + 1]) ==
      if Missing(alphabet, text[i]) then Failure(MissingCharacter(i, text[i]))
      else if |ds| < i || Wide(text[i]) then Success(ds)
      else Success(ds + [DigitOf(alphabet, text[i] as int)])
  {
    SliceSnoc(text, i);
    DigitizeSnoc(alphabet, text[..i], text[i], ds);
  }

  /** A prefix one longer is the prefix and the next character. */
  lemma SliceSnoc(text: string, i: nat)
    requires i < |text|
    ensures text[..i + 1] == text[..i] + [text[i]]
  {
  }

  /** Reading one more character after a prefix that reads without error. */
  lemma DigitizeSnoc(alphabet: string, init: string, c: char, ds: seq<int>)
    requires |alphabet| <= 255 && Digitize(alphabet, init) == Success(ds)
    ensures Digitize(alphabet, init + [c]) ==
      if Missing(alphabet, c) then Failure(MissingCharacter(|init|, c))
      else if |ds| < |init| || Wide(c) then Success(ds)
      else Success(ds + [DigitOf(alphabet, c as int)])
  {
    var t := init + [c];
    assert t[..|t| - 1] == init;
  }

  /** One character of the digit loop (lib/main.ts:338-429): look up its
   *  digit and throw if the slot holds 255. A wide character, or any
   *  character once the accumulator is NaN (`nan`), adds nothing: every
   *  round of the byte loop then stops at once. Otherwise take the digit,
   *  as the final one if the character is the last. */
  method ReadDigit(k: int, prefixDivisor: int, secondPrefixDivisor: int, placeValues: seq<int>,
                   charToDigit: array<byte>, ghost alphabet: string, encodedString: string, i: nat,
                   decoded: array<byte>, length: nat, lo: int, hi: int, encodedDigits: int, multIndex: nat, nan: bool,
                   ghost digits: seq<int>, ghost d: DState)
    returns (missing: bool, decoded': array<byte>, length': nat, lo': int, hi': int, encodedDigits': int, multIndex': nat,
             nan': bool, ghost digits': seq<int>, ghost d': DState)
    requires ValidBase(k) && prefixDivisor == PrefixDivisor(k) && secondPrefixDivisor == SecondPrefixDivisor(k)
    requires PlaceValuesOf(k, placeValues) && |alphabet| == k
    requires charToDigit.Length == 256 && forall c | 0 <= c < 256 :: charToDigit[c] as int == DigitOf(alphabet, c)
    requires i < |encodedString|
    requires Digitize(alphabet, encodedString[..i]) == Success(digits) && d == Consumed(k, digits)
    requires nan <==> |digits| < i
    requires DHolds(d, lo, hi, encodedDigits, multIndex, decoded[..], length) && decoded.Length >= 16
    requires decoded != charToDigit
    modifies decoded
    ensures decoded' == decoded || fresh(decoded')
    ensures decoded'.Length >= 16 && length' <= decoded'.Length
    ensures missing ==> Digitize(alphabet, encodedString) == Failure(MissingCharacter(i, encodedString[i]))
    ensures !missing ==> Digitize(alphabet, encodedString[..i + 1]) == Success(digits') && (nan' <==> |digits'| < i + 1)
    ensures !missing ==> DHolds(d', lo', hi', encodedDigits', multIndex', decoded'[..], length')
    ensures !missing && (nan' || i + 1 < |encodedString|) ==> d' == Consumed(k, digits')
    ensures !missing && !nan' && i + 1 == |encodedString| ==> d'.out == Decoded(k, digits')
  {
    decoded', length', lo', hi', encodedDigits', multIndex', nan', digits', d' :=
      decoded, length, lo, hi, encodedDigits, multIndex, nan, digits, d;
    var c := encodedString[i];
    DigitizeStep(alphabet, encodedString, i, digits);
    if c as int < 256 && charToDigit[c as int] == 255 {
      DigitizeFailsOnward(alphabet, encodedString, i + 1);
      return true, decoded', length', lo', hi', encodedDigits', multIndex', nan', digits', d';
    }
    missing := false;
    if c as int >= 256 || nan {
      nan' := true;
      return;
    }
    var x := charToDigit[c as int] as int;
    ConsumedStep(k, digits, x);
    var last := i + 1 == |encodedString|;
    decoded', length', lo', hi', encodedDigits', multIndex' :=
      DigitRound(k, prefixDivisor, secondPrefixDivisor, placeValues, decoded, length, lo, hi, encodedDigits, multIndex,
                 x, last, d);
    d' := DigitStep(k, d, x, last);
    digits' := digits + [x];
  }

  /** The digit loop of `decode` (lib/main.ts:328-432): the decoded bytes
   *  are the first `length` of the buffer, unless a character at
   *  `missingIndex` is not in the alphabet. NaN in the accumulator is the
   *  flag `nan`: the model keeps the accumulator's last number, which
   *  nothing reads once the flag is set. */
  method DecodeDigits(k: int, placeValues: seq<int>, charToDigit: array<byte>, ghost alphabet: string,
                      encodedString: string, capacity: nat)
    returns (missing: bool, missingIndex: nat, decoded: array<byte>, length: nat)
    requires ValidBase(k) && placeValues == Table(k) && |alphabet| == k && capacity >= 16
    requires charToDigit.Length == 256 && forall c | 0 <= c < 256 :: charToDigit[c] as int == DigitOf(alphabet, c)
    ensures fresh(decoded) && length <= decoded.Length
    ensures missing ==> (missingIndex < |encodedString|
      && Digitize(alphabet, encodedString) == Failure(MissingCharacter(missingIndex, encodedString[missingIndex])))
    ensures !missing ==> (DecodeText(alphabet, encodedString).Success?
      && decoded[..length] == DecodeText(alphabet, encodedString).value)
  {
    TableEntries(k);
    TablePlaces(k);
    var prefixDivisor, secondPrefixDivisor := placeValues[1], placeValues[2];

    decoded := new byte[capacity];
    length := 0;

    var lo, hi := 0, placeValues[0] - 1;
    var encodedDigits: int, multIndex: nat := 0, 0;
    var nan := false;
    ghost var digits: seq<int> := [];
    ghost var d := DStart(k);
    ghost var finished := false;
    assert encodedString[..0] == [];
    var i := 0;
    while i < |encodedString|
      invariant 0 <= i <= |encodedString|
      invariant Digitize(alphabet, encodedString[..i]) == Success(digits)
      invariant nan <==> |digits| < i
      invariant finished <==> i == |encodedString| && i > 0 && !nan
      invariant !finished ==> d == Consumed(k, digits)
      invariant finished ==> d.out == Decoded(k, digits)
      invariant DHolds(d, lo, hi, encodedDigits, multIndex, decoded[..], length)
      invariant decoded.Length >= 16 && fresh(decoded)
    {
      missing, decoded, length, lo, hi, encodedDigits, multIndex, nan, digits, d :=
        ReadDigit(k, prefixDivisor, secondPrefixDivisor, placeValues, charToDigit, alphabet, encodedString, i,
                  decoded, length, lo, hi, encodedDigits, multIndex, nan, digits, d);
      if missing {
        return true, i, decoded, length;
      }
      i := i + 1;
      finished := i == |encodedString| && !nan;
    }
    assert encodedString[..i] == encodedString;
    missing, missingIndex := false, 0;
  }

  /** `decode(encodedString, encoding)` after `getEncoding`
   *  (lib/main.ts:321-435): the bytes of `DecodeText`, in a fresh array of
   *  exactly their length, or the first missing character. The initial
   *  buffer size is any capacity of at least 16. */
  method DecodeWith(encoding: BasekEncoding, placeValueCache: seq<seq<int>>, encodedString: string, capacity: nat)
    returns (r: Result<array<byte>, DecodeError>)
    requires encoding.Valid() && capacity >= 16
    requires |placeValueCache| == 256 && forall k | 2 <= k < 256 :: placeValueCache[k] == Table(k)
    ensures DecodeText(encoding.alphabet, encodedString).Failure? ==>
      r.Failure? && r.error == DecodeText(encoding.alphabet, encodedString).error
    ensures DecodeText(encoding.alphabet, encodedString).Success? ==>
      r.Success? && fresh(r.value) && r.value[..] == DecodeText(encoding.alphabet, encodedString).value
  {
    var base := encoding.Base();
    var missing, missingIndex, decoded, length :=
      DecodeDigits(base, placeValueCache[base], encoding.charToDigitMap, encoding.alphabet, encodedString, capacity);
    if missing {
      return Failure(MissingCharacter(missingIndex, encodedString[missingIndex]));
    }
    var result := CopyPrefix(decoded, length);
    r := Success(result);
  }

  /** The trimmed copy `decode` returns (lib/main.ts:432-434). */
  method CopyPrefix(decoded: array<byte>, length: nat) returns (result: array<byte>)
    requires length <= decoded.Length
    ensures fresh(result) && result[..] == decoded[..length]
  {
    result := new byte[length];
    forall j | 0 <= j < length {
      result[j] := decoded[j];
    }
  }
}
