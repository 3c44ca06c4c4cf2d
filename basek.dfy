/** `encode` and `decode` as the library exports them (lib/main.ts:176-302,
 *  312-435): the encoding argument, an encoding object or an alphabet
 *  string, goes through `getEncoding` first, whose error they pass on. */
module Basek {
  import opened Common
  import opened Alphabet
  import opened EncodingCache
  import opened PlaceValues
  import opened Encoder
  import opened EncodeMethod
  import opened DecodeMethod
  import opened RoundTrip

  /** What `decode` throws: the alphabet's error from `getEncoding`, or the
   *  first missing character. */
  datatype DecodeFailure = BadAlphabet(alphabetError: AlphabetError) | BadText(textError: DecodeError)

  /** What `encode` returns for an alphabet: its check's error, or the
   *  digits of `Encoded` spelled in it. */
  function EncodeResult(alphabet: string, binaryData: seq<byte>): Result<string, AlphabetError>
  {
    match Check(alphabet)
    case Some(e) => Failure(e)
    case None =>
      CheckAccepts(alphabet);
      AlphabetSize(alphabet);
      Success(Spell(alphabet, Encoded(|alphabet|, binaryData)))
  }

  /** What `decode` returns for an alphabet: its check's error, or what
   *  `DecodeText` gives. */
  function DecodeResult(alphabet: string, encodedString: string): Result<seq<byte>, DecodeFailure>
  {
    match Check(alphabet)
    case Some(e) => Failure(BadAlphabet(e))
    case None =>
      CheckAccepts(alphabet);
      AlphabetSize(alphabet);
      match DecodeText(alphabet, encodedString)
      case Failure(e) => Failure(BadText(e))
      case Success(bytes) => Success(bytes)
  }

  /** Each character of a valid alphabet reads back as its own position. */
  lemma DigitOfPosition(alphabet: string, d: int)
    requires ValidAlphabet(alphabet) && |alphabet| <= 255 && 0 <= d < |alphabet|
    ensures DigitOf(alphabet, alphabet[d] as int) == d
  {
    var e := DigitOf(alphabet, alphabet[d] as int);
    assert alphabet[e] == alphabet[d];
  }

  /** Spelled digits read back as the same digits: the text `encode`
   *  writes never makes `decode` throw. */
  lemma {:induction false} SpellReadsBack(alphabet: string, ds: seq<int>)
    requires ValidAlphabet(alphabet) && |alphabet| <= 255 && IsDigits(|alphabet|, ds)
    ensures Digitize(alphabet, Spell(alphabet, ds)) == Success(ds)
  {
    var text := Spell(alphabet, ds);
    if ds != [] {
      var init := ds[..|ds| - 1];
      assert text[..|text| - 1] == Spell(alphabet, init);
      SpellReadsBack(alphabet, init);
      DigitOfPosition(alphabet, ds[|ds| - 1]);
      assert init + [ds[|ds| - 1]] == ds;
    }
  }

  /** `decode(encode(data, a), a)` in a valid alphabet a does not throw,
   *  and where the last interval is non-empty its bytes agree with the
   *  input wherever both have one. */
  lemma TextLockstep(alphabet: string, data: seq<byte>)
    requires ValidAlphabet(alphabet)
    requires |alphabet| <= 128 && Last(|alphabet|, data).r.lo <= Last(|alphabet|, data).r.hi
    ensures EncodeResult(alphabet, data).Success?
    ensures DecodeResult(alphabet, EncodeResult(alphabet, data).value).Success?
    ensures AgreeOnCommon(DecodeResult(alphabet, EncodeResult(alphabet, data).value).value, data)
  {
    AlphabetSize(alphabet);
    CheckAccepts(alphabet);
    var k := |alphabet|;
    SpellReadsBack(alphabet, Encoded(k, data));
    LockstepAgreement(k, data);
  }

  /** A valid encoding object passes its alphabet's checks. */
  lemma ValidPassesCheck(encoding: BasekEncoding)
    requires encoding.Valid()
    ensures Check(encoding.alphabet).None?
  {
    CheckAccepts(encoding.alphabet);
  }

  /** `encode(binaryData, encoding)` (lib/main.ts:176-302): the result is
   *  `EncodeResult` for the argument's alphabet; the cache changes as
   *  `getEncoding` changes it. */
  method Encode(cache: Cache, encoding: EncodingArg, placeValueCache: seq<seq<int>>, binaryData: seq<byte>, capacity: nat)
    returns (r: Result<string, AlphabetError>)
    requires cache.Valid() && (encoding.Given? ==> encoding.encoding.Valid()) && capacity >= 16
    requires |placeValueCache| == 256 && forall k | 2 <= k < 256 :: placeValueCache[k] == Table(k)
    modifies cache
    ensures cache.Valid()
    ensures r == EncodeResult(ArgAlphabet(encoding), binaryData)
    ensures r.Failure? || encoding.Given? ==> cache.cachedEncoding == old(cache.cachedEncoding)
    ensures r.Success? && encoding.Named? ==> cache.cachedEncoding.alphabet == encoding.alphabet
  {
    if encoding.Given? {
      ValidPassesCheck(encoding.encoding);
    } else if encoding.alphabet == cache.cachedEncoding.alphabet {
      ValidPassesCheck(cache.cachedEncoding);
    }
    var got := cache.GetEncoding(encoding);
    if got.Failure? {
      return Failure(got.error);
    }
    var text := EncodeWith(got.value, placeValueCache, binaryData, capacity);
    r := Success(text);
  }

  /** `decode(encodedString, encoding)` (lib/main.ts:312-435): the result
   *  is `DecodeResult` for the argument's alphabet, in a fresh array; the
   *  cache changes as `getEncoding` changes it. */
  method Decode(cache: Cache, encoding: EncodingArg, placeValueCache: seq<seq<int>>, encodedString: string, capacity: nat)
    returns (r: Result<array<byte>, DecodeFailure>)
    requires cache.Valid() && (encoding.Given? ==> encoding.encoding.Valid()) && capacity >= 16
    requires |placeValueCache| == 256 && forall k | 2 <= k < 256 :: placeValueCache[k] == Table(k)
    modifies cache
    ensures cache.Valid()
    ensures r.Failure? <==> DecodeResult(ArgAlphabet(encoding), encodedString).Failure?
    ensures r.Failure? ==> r.error == DecodeResult(ArgAlphabet(encoding), encodedString).error
    ensures r.Success? ==> fresh(r.value) && r.value[..] == DecodeResult(ArgAlphabet(encoding), encodedString).value
    ensures (r.Failure? && r.error.BadAlphabet?) || encoding.Given? ==> cache.cachedEncoding == old(cache.cachedEncoding)
    ensures (r.Success? || r.error.BadText?) && encoding.Named? ==> cache.cachedEncoding.alphabet == encoding.alphabet
  {
    if encoding.Given? {
      ValidPassesCheck(encoding.encoding);
    } else if encoding.alphabet == cache.cachedEncoding.alphabet {
      ValidPassesCheck(cache.cachedEncoding);
    }
    var got := cache.GetEncoding(encoding);
    if got.Failure? {
      return Failure(BadAlphabet(got.error));
    }
    var decoded := DecodeWith(got.value, placeValueCache, encodedString, capacity);
    if decoded.Failure? {
      return Failure(BadText(decoded.error));
    }
    r := Success(decoded.value);
  }
}
