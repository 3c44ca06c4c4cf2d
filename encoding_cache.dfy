/** `getEncoding` and the module-level `cachedEncoding`
 *  (lib/main.ts:466-478, 498): a single-slot cache from an alphabet to the
 *  encoding built from it. */
module EncodingCache {
  import opened Common
  import opened Alphabet

  /** The `encoding` parameter of `encode` and `decode`: an encoding object
   *  or an alphabet string. */
  datatype EncodingArg = Given(encoding: BasekEncoding) | Named(alphabet: string)

  /** The alphabet an encoding argument stands for. */
  function ArgAlphabet(encoding: EncodingArg): string
  {
    match encoding
    case Given(e) => e.alphabet
    case Named(alphabet) => alphabet
  }

  class Cache {
    /** `cachedEncoding`. */
    var cachedEncoding: BasekEncoding

    ghost predicate Valid()
      reads this, cachedEncoding, cachedEncoding.charToDigitMap, cachedEncoding.digitToCharMap
    {
      cachedEncoding.Valid()
    }

    /** lib/main.ts:498: the cache starts with the first 85 characters of
     *  `ALPHABET_94`. */
    constructor ()
      ensures Valid() && cachedEncoding.alphabet == ALPHABET_94[..85]
    {
      PrefixesOf94Accepted(85);
      cachedEncoding := new BasekEncoding(ALPHABET_94[..85]);
    }

    /** `getEncoding` (lib/main.ts:466-478). An encoding object is returned
     *  as it is. An alphabet equal to the cached one returns the cached
     *  encoding; any other alphabet builds a new encoding, which replaces
     *  the cached one, or fails, leaving the cache as it was. */
    method GetEncoding(encoding: EncodingArg) returns (r: Result<BasekEncoding, AlphabetError>)
      requires Valid()
      requires encoding.Given? ==> encoding.encoding.Valid()
      modifies this
      ensures Valid()
      ensures r.Success? ==> r.value.Valid()
      ensures encoding.Given? ==> r == Success(encoding.encoding) && cachedEncoding == old(cachedEncoding)
      ensures encoding.Named? && encoding.alphabet == old(cachedEncoding.alphabet) ==>
        r == Success(old(cachedEncoding)) && cachedEncoding == old(cachedEncoding)
      ensures encoding.Named? && encoding.alphabet != old(cachedEncoding.alphabet) ==>
        if Check(encoding.alphabet).Some? then
          r == Failure(Check(encoding.alphabet).value) && cachedEncoding == old(cachedEncoding)
        else
          r.Success? && fresh(r.value) && cachedEncoding == r.value && r.value.alphabet == encoding.alphabet
    {
      match encoding
      case Given(e) =>
        r := Success(e);
      case Named(alphabet) =>
        if alphabet != cachedEncoding.alphabet {
          var built := NewEncoding(alphabet);
          if built.Failure? {
            return Failure(built.error);
          }
          cachedEncoding := built.value;
        }
        r := Success(cachedEncoding);
    }
  }

  /** Whatever happens, a successful lookup by alphabet yields an encoding
   *  for exactly that alphabet, and the cache then holds it. */
  method LookUpTwice(cache: Cache, alphabet: string) returns (first: Result<BasekEncoding, AlphabetError>, second: Result<BasekEncoding, AlphabetError>)
    requires cache.Valid()
    modifies cache
    ensures first.Success? ==> first.value.alphabet == alphabet
    ensures first.Success? ==> second == first
    ensures first.Failure? ==> second.Failure? && second.error == first.error
  {
    first := cache.GetEncoding(Named(alphabet));
    second := cache.GetEncoding(Named(alphabet));
  }
}
