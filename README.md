# basek, modelled in Dafny

`basek` turns bytes into text over any alphabet of 2 or more ASCII characters, and text back into bytes. The radix is the alphabet's length `k`. The codec is a range coder:
- The encoder keeps an interval `[lo, hi]` inside `[0, M - 1]`, where `M = k^n` is the largest power of `k` that is at most 2^45.
- Each byte narrows the interval to one of 256 slices.
- Leading base-`k` digits that `lo` and `hi` share are emitted and shifted out.
- An interval that straddles a digit boundary by one unit is folded around the boundary, and the digit is deferred.
- At the end, a few digits are chosen that land inside the final interval.
- The decoder replays the same interval steps. It follows an accumulator of the digits read so far and emits a byte once every possible continuation of the digits falls into one slice.

This project models `lib/main.ts`: the reference alphabet, the `BasekEncoding` class, the single-slot encoding cache, the place-value tables, `encode`, `decode` and `emit`. Each part takes the form the code has:
- The encoding, the cache and the output buffer are classes and arrays that the methods update.
- `encode` and `decode` are methods with loops.
- Each method is proved against a specification function on values. The properties are proved as lemmas about those functions.

Files, one module each:
- `common.dfy` (Common): bytes, `Option`/`Result`, small sequence helpers.
- `arith.dfy` (Arith): plain integer facts used by the proofs.
- `alphabet.dfy` (Alphabet): `ALPHABET_94`, the alphabet checks, the `BasekEncoding` class.
- `encoding_cache.dfy` (EncodingCache): `getEncoding` with `cachedEncoding`.
- `emit.dfy` (Buffer): `emit` on a growing byte array.
- `place_values.dfy` (PlaceValues): the place-value tables and `placeValueCache`.
- `range.dfy` (Range): narrowing to a byte's slice, and the shift and fold maps.
- `encoder.dfy` (Encoder): the encoder as functions on a state value.
- `encode.dfy` (EncodeMethod): the body of `encode` after `getEncoding`, proved against `Encoder.Encoded`.
- `decoder.dfy` (Decoder): the decoder as functions on a state value.
- `decode.dfy` (DecodeMethod): the body of `decode` after `getEncoding`, proved against `DecodeMethod.DecodeText`.
- `roundtrip.dfy` (RoundTrip): how far decoding agrees with the encoded bytes.
- `concrete.dfy` (Concrete): the empty input, inputs that do not survive the round trip, and characters past code 255 in `decode`.
- `findings.dfy` (Findings): a collision caused by the fold, and a corrected renormalisation loop.
- `basek.dfy` (Basek): `encode` and `decode` as exported, with `getEncoding` in front, and the round trip through text.

## Model

| member | source | states |
|---|---|---|
| Alphabet.CheckFrom | lib/main.ts:62-85 | The first character that fails (whitespace, then above code 127, then repeated) is reported with its index. Every character before it passes. `TooShort` is reported only when every character passes and there are fewer than 2. |
| Alphabet.CheckAccepts | lib/main.ts:56-85 | The constructor's checks pass exactly when the alphabet has at least 2 characters, all non-whitespace ASCII, none repeated. Both directions are proved. |
| Alphabet.RejectedAlphabets | lib/main.ts:62-85 | `"a b"` fails on whitespace at index 1. `"aa"` fails on a repetition at index 1. `"aé"` fails as non-ASCII at index 1. `""` and `"a"` are too short. |
| Alphabet.Ordinals94 | lib/main.ts:22-26 | `ALPHABET_94` has 94 characters in a fixed order: the digits, the capitals, the small letters, then 32 punctuation marks. Each character's position is its value. |
| Alphabet.PrefixesOf94Accepted | lib/main.ts:22-26 | Every prefix of `ALPHABET_94` of length 2 to 94 is a valid alphabet. |
| Alphabet.AlphabetSize | lib/main.ts:62-85 | A valid alphabet has 2 to 128 characters, so its base is below 256. |
| Alphabet.DigitOf | lib/main.ts:87-97 | The `charToDigit` entry for a code is 255 exactly when no character of the alphabet has that code. Otherwise it is a position whose character has that code. |
| Alphabet.BasekEncoding.constructor | lib/main.ts:87-101 | The constructor builds fresh tables: `charToDigitMap` has 256 entries, each equal to `DigitOf`. `digitToCharMap[d]` is the code of character `d`. The alphabet is kept. |
| Alphabet.BasekEncoding.Base | lib/main.ts:132-134 | The base is the alphabet's length. |
| Alphabet.BasekEncoding.DigitsInvert | lib/main.ts:87-97 | For every digit `d` below the base, `charToDigitMap[digitToCharMap[d]] == d`. |
| Alphabet.BasekEncoding.AbsentIs255 | lib/main.ts:106-111 | For each code, `charToDigitMap` holds 255 exactly when the code is not in the alphabet. Otherwise it holds a digit whose character has that code. |
| Alphabet.NewEncoding | lib/main.ts:56-102 | `new BasekEncoding(alphabet)` fails exactly when a check fails, and with that check's error. Otherwise it returns a fresh valid encoding of that alphabet. |
| EncodingCache.Cache.constructor | lib/main.ts:498 | The cache starts with a valid encoding of the first 85 characters of `ALPHABET_94`. |
| EncodingCache.Cache.GetEncoding | lib/main.ts:466-478 | An encoding object is returned unchanged and leaves the cache alone. The cached alphabet returns the cached object without a rebuild. Any other alphabet either fails with its check's error, leaving the cache as it was, or is built fresh and replaces the cache entry. |
| EncodingCache.LookUpTwice | lib/main.ts:466-472 | Looking up the same alphabet twice gives the same object both times, or the same error both times. |
| Buffer.EmittedKeeps | lib/main.ts:447-457 | After `emit`, the bytes below the index are unchanged and the array never shrinks. The byte lands at the index unless an array of length 0 or 1 had to grow. |
| Buffer.Emit | lib/main.ts:447-457 | The array's contents become `Emitted(old contents, b, index)`. It is the same array when the index is below its length. At the length, a fresh array of 1.5 times the length holds the old contents. |
| PlaceValues.BuildTable | lib/main.ts:485-494 | The loop for one base returns `Table(k)`: the powers `k^n, ..., k, 1`, with `n` the largest exponent such that `k^n <= 2^45`. |
| PlaceValues.BuildPlaceValueCache | lib/main.ts:483-496 | `placeValueCache` has 256 rows. Rows 0 and 1 are empty and row `k` is `Table(k)` for `k` from 2 to 255. |
| PlaceValues.TableShape | lib/main.ts:486-492 | A table has at least 3 entries and ends in 1. Each entry is `k` times the next. The first entry is at most 2^45, but `k` times it exceeds 2^45. `256 * M` stays within 2^53. |
| PlaceValues.SecondEntryMagnitude | lib/main.ts:486-492 | The third entry `P2` of every table exceeds 2^21. |
| PlaceValues.DivisorPowers | lib/main.ts:186-192 | `M`, `P1` and `P2` are `k^n`, `k^(n-1)` and `k^(n-2)`. |
| PlaceValues.TopExponent | lib/main.ts:488 | The loop bound picks one exponent `n`, with `k^n <= 2^45 < k^(n+1)`. |
| PlaceValues.ExponentUnique | lib/main.ts:488 | Only one exponent meets that bound. |
| Range.Narrow | lib/main.ts:202-206 | The slice for a byte lies inside the interval and is no wider. It is strictly narrower when the width is at least 2. It is non-empty when the width is at least 256. |
| Range.SlicesPartition | lib/main.ts:202-206 | The 256 slices tile the interval: each slice ends just before the next begins, slice 0 starts at `lo`, and slice 255 ends at `hi`. |
| Range.SliceIndexInverts | lib/main.ts:366-373 | The byte index the decoder computes for a value is `b` exactly when the value lies in slice `b`. |
| Range.ShiftIsAffine | lib/main.ts:233-244 | When `lo` and `hi` share a leading digit, the shift maps every point `x` between them to `k*x - prefix*M`. |
| Range.FoldIsAffine | lib/main.ts:224-231 | When the interval straddles a boundary, the fold maps every point `x` to `k*x - (a+1)(k-1)*P1`, with `a` the leading digit of `lo`. The second digit of `lo` is `a*k + k - 1`. |
| Encoder.Start | lib/main.ts:198-201 | The initial state, the whole range `[0, M - 1]` with nothing deferred and no output, is well formed and settled. |
| Encoder.EmitKeepsInterval | lib/main.ts:233-244 | Emitting a digit (with its deferred digits) keeps the absolute interval the state stands for: both ends scale by `k` at one more digit of depth. |
| Encoder.FoldKeepsInterval | lib/main.ts:224-231 | Folding keeps the absolute interval: both ends scale by `k` at one more digit of depth. |
| Encoder.EmitStepGood | lib/main.ts:233-244 | An emit step keeps the state well formed (interval in bounds and framed, output all digits) and multiplies the width by `k`. |
| Encoder.FoldStepGood | lib/main.ts:224-231 | A fold keeps the state well formed and multiplies the width by `k`. Afterwards the leading digits of `lo` and `hi` differ. |
| Encoder.Renorm | lib/main.ts:208-245 | The loop as written (emit while the leading digits agree, at most one fold, then stop) ends in a well-formed state whose leading digits differ. Output only grows. |
| Encoder.RenormKeepsInterval | lib/main.ts:208-245 | The loop keeps the absolute interval, scaled by `k` to the power of the digits it added. |
| Encoder.Step | lib/main.ts:202-245 | One byte keeps the state well formed, leaves leading digits that differ, and only appends to the output. |
| Encoder.StepNarrows | lib/main.ts:202-245 | After one byte the absolute interval is exactly that byte's slice of the old absolute interval, scaled by `k` to the power of the digits the step added. |
| Encoder.Run | lib/main.ts:202-246 | Over any byte sequence the state stays well formed and settled, and the output only grows. |
| Encoder.Flush | lib/main.ts:248-257 | The end of the input leaves no deferred digits, a loose interval and digits below `k`. Output only grows. |
| Encoder.FlushKeepsTop | lib/main.ts:248-257 | Resolving the deferred digits at the end keeps the upper end of the absolute interval and moves the lower end up by `M`. |
| Encoder.Finalize | lib/main.ts:259-296 | Finalisation ends. It yields at least one digit, all below `k`. |
| Encoder.FinalizeInside | lib/main.ts:259-296 | The final digits, read as a fraction of `M`, pick a block that lies inside the final interval. |
| Encoder.Encoded | lib/main.ts:186-297 | `encode` yields at least one digit, each below `k`. |
| Encoder.EncodedInside | lib/main.ts:246-297 | When the flushed interval is non-empty, the whole digit string stands for a block inside it. |
| EncodeMethod.NarrowBounds | lib/main.ts:203-206 | The method's new bounds are `Narrow` of the old ones. |
| EncodeMethod.RenormLoop | lib/main.ts:208-245 | The loop leaves bounds, deferred counter, deferred digit and buffer as `Renorm` describes. |
| EncodeMethod.RenormOnce | lib/main.ts:209-244 | One pass of the loop either stops in the state `Renorm` ends in, with or without a fold, or emits one digit, after which `Renorm` goes on one level lower to the same end. |
| EncodeMethod.EncodeByte | lib/main.ts:202-245 | One pass of the byte loop leaves the variables and buffer as `Step` describes. |
| EncodeMethod.EmitResolved | lib/main.ts:233-241 | The buffer gains the leading digit of `lo`, then the deferred count of copies of `k - 1` if that digit equals the deferred digit, otherwise that many 0s. |
| EncodeMethod.FlushDeferred | lib/main.ts:248-257 | The bounds and buffer after the end-of-input flush are those of `Flush`. |
| EncodeMethod.FinishStep | lib/main.ts:259-296 | One pass of the finalisation loop either appends the rest of `Finalize` and stops, or appends one digit and shrinks the measure that makes the loop end. |
| EncodeMethod.Finish | lib/main.ts:259-296 | The finalisation loop appends exactly `Finalize(lo, hi)`. |
| EncodeMethod.EncodeDigits | lib/main.ts:186-297 | The digit buffer holds exactly `Encoded(k, binaryData)`. |
| EncodeMethod.SpellInPlace | lib/main.ts:298-300 | Each digit in the buffer is replaced by its character's code. |
| EncodeMethod.EncodeWith | lib/main.ts:187-302 | Given the encoding object, the text is `Encoded(base, binaryData)` spelled in the alphabet. |
| Decoder.DRenorm | lib/main.ts:387-428 | The decoder's renormalisation keeps the tracking invariant, the output and the accumulator's block inside the interval. It ends with leading digits that differ. |
| Decoder.ShiftNeedsPlace | lib/main.ts:420-427 | Whenever the decoder shifts, its place index is at least 1, so it never goes below 0. |
| Decoder.FoldNeedsPlaces | lib/main.ts:403-417 | Whenever the decoder folds, its place index is at least 2, so it stays at least 1 afterwards. |
| Decoder.Emits | lib/main.ts:360-429 | The byte loop keeps the tracking invariant and only appends. In multiple mode it leaves a place index below `n`. In single mode it adds at most one byte. |
| Decoder.EmitsGoesOn | lib/main.ts:366-429 | In multiple mode, after emitting a byte, narrowing and renormalising, the byte loop goes on from a state with fewer places left, or with as many places and a narrower interval, so the loop ends. |
| Decoder.EmitsDetermined | lib/main.ts:366-379 | A byte is emitted exactly when every reading the digits still to come could give lies in one slice, and the emitted byte is that slice. |
| Decoder.DigitStep | lib/main.ts:337-358 | Reading one digit keeps the tracking invariant and only appends to the output. A final digit adds at most one byte. |
| Decoder.Consumed | lib/main.ts:337-429 | After any digit string the decoder state tracks the readings, with a place index below `n`. |
| Decoder.ConsumedGrows | lib/main.ts:337-429 | Bytes already emitted stay: reading more digits only appends. |
| Decoder.FinalDigit | lib/main.ts:347-358 | A final digit adds at most one byte to what the earlier digits gave. A final 0 adds none. |
| DecodeMethod.Digitize | lib/main.ts:337-345 | The text is read without error exactly when no character with a code below 256 is missing from the alphabet. Otherwise the error names the first such character and its index. The digits are the `charToDigit` entries of the characters before the first one with a code of 256 or more, and stop exactly there. |
| DecodeMethod.DecodeFails | lib/main.ts:337-344 | `decode` fails exactly when some character with a code below 256 is not in the alphabet. The error names the first such character. Every character before it is in the alphabet or has a code of 256 or more. |
| DecodeMethod.WideCuts | lib/main.ts:338-369 | After a character with a code of 256 or more, the accumulator is NaN and no more bytes come. When nothing later is missing from the alphabet, the characters after it change nothing in the result. |
| DecodeMethod.ReadDigit | lib/main.ts:337-429 | One pass of the character loop either reports the missing character, or reads a digit and leaves the decoder as `Consumed` or `Decoded` says. Once a code of 256 or more has been read, the accumulator counts as NaN and the pass changes nothing. |
| DecodeMethod.ByteRange | lib/main.ts:366-373 | `byte` and `maxByte` are the slice indices of the least and the greatest reading. |
| DecodeMethod.RenormDigits | lib/main.ts:387-428 | The decoder's renormalisation loop leaves the variables as `DRenorm` describes. |
| DecodeMethod.EmitBytes | lib/main.ts:360-429 | The byte loop leaves the variables and buffer as `Emits` describes. |
| DecodeMethod.DecodeDigits | lib/main.ts:328-432 | The method either reports the first missing character, or the buffer holds exactly `DecodeText`'s bytes. |
| DecodeMethod.DecodeWith | lib/main.ts:321-435 | Given the encoding object, `decode` fails with `DecodeText`'s error, or returns a fresh array holding exactly `DecodeText`'s bytes. |
| RoundTrip.FinalInside | lib/main.ts:176-302 | When the last interval is non-empty, the encoded digits land in that interval. |
| RoundTrip.RunInside | lib/main.ts:202-246 | Digits landing in the final interval land, before each byte, in the interval of that point, inside the slice of the byte that follows. |
| RoundTrip.TraceFollows | lib/main.ts:202-246 | The encoder's states after each prefix of the input are linked by `Step`, and the digits lie in each byte's slice. |
| RoundTrip.RenormSync | lib/main.ts:387-428 | The decoder's renormalisation mirrors the encoder's, so the two stay in step. |
| RoundTrip.StepSync | lib/main.ts:383-428 | After a byte the decoder can determine, narrowing and renormalising keep it in step with the encoder's `Step`. |
| RoundTrip.SyncedByte | lib/main.ts:366-379 | A byte the decoder determines while in step with the encoder is the byte the encoder consumed. |
| RoundTrip.EmitsAgreed | lib/main.ts:360-429 | The byte loop emits only bytes of the input, in order. |
| RoundTrip.ConsumedAgreed | lib/main.ts:337-429 | Reading the encoded digits keeps the decoded bytes a prefix of the input. |
| RoundTrip.DecodedAgreed | lib/main.ts:312-435 | Decoding digits that land in each byte's slice yields bytes that agree with the input wherever both exist. |
| RoundTrip.LockstepAgreement | lib/main.ts:176-435 | When the final interval is non-empty, `decode(encode(data))` agrees with `data` on every position both have. |
| Concrete.EncodeEmpty | lib/main.ts:259-267 | In every base the empty input encodes to the single digit 0. |
| Concrete.EncodeEmptyBinary | lib/main.ts:259-267 | In alphabet `"01"` the empty input encodes to `"0"`. |
| Concrete.DecodeZero | lib/main.ts:347-358 | In every base the digit string `[0]` decodes to no bytes. |
| Concrete.DecodeZeroBinary | lib/main.ts:312-435 | In alphabet `"01"`, `"0"` decodes to no bytes. |
| Concrete.EmptyRoundTrip | lib/main.ts:176-435 | In every base the empty input survives the round trip. |
| Concrete.DecodeWideBinary | lib/main.ts:337-369 | In alphabet `"01"`, the one-character text U+0100 decodes to no bytes and does not throw. |
| Concrete.DecodeMissingAfterWide | lib/main.ts:337-344 | In alphabet `"01"`, the text U+0100 followed by `2` throws for the `2` at index 1. |
| Concrete.EncodeLoses | lib/main.ts:176-302 | In base 255 the bytes `[1, 0]` encode to the digits `[0, 254, 1]`. |
| Concrete.DecodeLoses | lib/main.ts:312-435 | In base 255 the digits `[0, 254, 1]` decode to `[1]`. |
| Concrete.RoundTripFails | lib/main.ts:176-435 | In base 255, `decode(encode([1, 0]))` is `[1]`. The final 0 byte is lost. |
| Concrete.FinalCollision | lib/main.ts:259-296 | In base 255, `[253]` and `[253, 255]` both encode to the digits `[253, 1, 1]`. |
| Findings.Collapsed | lib/main.ts:224-232 | In base 10, eight chosen bytes fold without widening and leave an interval of width 50. That is below 256 and not wider than `P2 + 1`. |
| Findings.CollapseCollides | lib/main.ts:224-232 | In base 10, the eight chosen bytes followed by 1, and the same bytes followed by 2, encode to the same digits. |
| Findings.FixedRenorm | lib/main.ts:208-245 | A renormalisation that goes on after a fold ends with leading digits that neither agree nor straddle. The interval never gets narrower, stays well formed and non-empty, and output only grows. |
| Findings.FixedExtendsRenorm | lib/main.ts:208-245 | Whenever the loop as written stops without a straddle left, it gives the same state as the corrected loop. |
| Findings.FixedStep | lib/main.ts:202-245 | With the corrected loop, every byte keeps the interval wider than `P2 + 1`, so wider than 256. |
| Findings.FixedRun | lib/main.ts:202-246 | With the corrected loop, the interval stays wider than `P2 + 1` over any input. |
| Findings.FixedSeparates | lib/main.ts:202-206 | With the corrected loop, after any input, different next bytes get disjoint, non-empty slices in byte order. |
| Basek.Encode | lib/main.ts:176-302 | `encode` with an encoding object or an alphabet string: the alphabet's check error when it fails, else the digits of `Encoded` spelled in that alphabet. An object leaves the cache alone. A failure leaves the cache alone. A string that succeeds leaves its encoding in the cache. |
| Basek.Decode | lib/main.ts:312-435 | `decode` with an encoding object or an alphabet string: the alphabet's check error when it fails, else `DecodeText`'s error or its bytes in a fresh array. An object or a rejected alphabet leaves the cache alone. An accepted string leaves its encoding in the cache, even when the text then fails. |
| Basek.SpellReadsBack | lib/main.ts:337-345 | Text spelled from digits (as `encode` does at lib/main.ts:298-300) in a valid alphabet reads back as the same digits, so the text `encode` writes never makes `decode` throw. |
| Basek.TextLockstep | lib/main.ts:176-435 | In a valid alphabet, when the last interval is non-empty, `decode(encode(data))` does not throw, and its bytes agree with `data` on every position both have. |

## Left out

- `encodeText` and `decodeText` (lib/main.ts:145-166) are not modelled. They are UTF-8 and whitespace wrappers around `encode` and `decode`. The `TextEncoder`/`TextDecoder` calls (lib/main.ts:298-301, 480-481) are left out for the same reason: the model returns the digit codes as characters.
- The `typeof` and `instanceof` argument checks (lib/main.ts:57-59, 180-184, 316-318, 473-474) are not modelled. Dafny's types rule out those inputs.
- `sizeFactor` and the initial buffer size computed from it (lib/main.ts:194, 328, 484, 495) use floating-point logarithms. The model takes any initial capacity of at least 16 instead. `emit`'s growth is modelled exactly.
- The whitespace test uses the JavaScript `\s` set restricted to single characters. Characters outside the basic plane are not modelled.
- Characters with a code of 256 or more in `decode`: `charToDigit` reads `undefined` (lib/main.ts:338), which is not 255, so nothing is thrown. The accumulator then becomes NaN (lib/main.ts:345), and every later round of the byte loop stops at `maxByte !== byte` (lib/main.ts:369). The model keeps a flag for NaN and does not model NaN arithmetic itself: after the flag is set it does not update `multIndex`, whose value no longer matters because every expression that uses it is then NaN.
- Strings are sequences of Unicode characters, not UTF-16 code units. A character outside the basic plane counts once here, where JavaScript counts two code units. In `decode` both units have codes of 256 or more, so the bytes are the same. Only the index the model reports with a missing character can differ. JavaScript's message carries no index.
- The shared `cachedEncoding` is a field of an explicit `Cache` object, not a module-level variable. Concurrent callers are not modelled.
- RoundTrip.LockstepAgreement: it is weaker than the full round trip `decode(encode(b)) == b`. The comments on the finalisation (lib/main.ts:259-260 and 262-273) promise that the decoder stops at the right place and that the last byte is unambiguous, which amounts to the full round trip. The lemma proves that the decoded bytes agree with the input wherever both exist, when the final interval is non-empty. The full property is false as the code is written (see "## Findings").
- Basek.TextLockstep: it is weaker than the full round trip in the same way, for the same reason.
- The model's encoder invariant allows an empty interval (`lo = hi + 1`), because a run of single folds reaches one (`Findings.Collapsed`). The decoder's comments (lib/main.ts:361-363, 414-416, 425-427) rely on the encoder's interval containing the decoder's digit window; `RoundTrip.LockstepAgreement` needs a non-empty final interval for the same reason.
- A valid alphabet has at most 128 characters, because the constructor rejects codes above 127 (lib/main.ts:67-72). The place-value tables are built for every base up to 255 all the same (lib/main.ts:483-496).
- `EncodeMethod.EncodeWith`, `DecodeMethod.DecodeWith` and `Basek` follow the code as written, including the stop after one fold and the finalisation. The corrected loop is only defined and proved in `Findings`.

## Findings

| source | as written | input that shows it | evidently intended | confidence | as-written member | corrected member |
|---|---|---|---|---|---|---|
| lib/main.ts:259-296 | The finalisation picks digits that land inside the last interval, and the decoder emits only one byte after the final digit (lib/main.ts:376-379). The comments at lib/main.ts:262-273 assume that the digits before the final one already decide every byte but the last. They do not always do so. | base 255: `[1, 0]` encodes to `[0, 254, 1]`, which decodes to `[1]`; `[253]` and `[253, 255]` both encode to `[253, 1, 1]` | `decode(encode(b)) == b` for every input, as those comments promise. No corrected half is given. The collision shows that no change to the decoder alone can restore it, so the fix must change the finalisation. A finalisation that restores the round trip in every base, with a proof that the decoder then emits exactly the input, is not part of this model. | not executed | Concrete.RoundTripFails, Concrete.FinalCollision | none |
| lib/main.ts:224-232 | After a fold the renormalisation loop stops (`break`), even when the folded interval still straddles a digit boundary. Nothing widens it before the next byte, so a run of such bytes can shrink it below 256 values. | base 10 (alphabet `"0123456789"`), bytes `[104, 245, 194, 143, 92, 39, 50, 187]` leave an interval of width 50; appending `1` or `2` gives the same encoding | keep renormalising after a fold, so that the interval stays wider than `P2` and every byte has its own non-empty slice. The decoder's comments (lib/main.ts:414-416, 425-427) assume that the encoder's interval always contains the digit window, which fails once the interval is empty. | not executed | Findings.CollapseCollides | Findings.FixedSeparates |
