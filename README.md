# ULID value type and generator (CSharp.Ulid), modelled in Dafny

This project models the core of the CSharp.Ulid library. A ULID is a 128-bit identifier: a 48-bit
big-endian millisecond timestamp followed by 80 bits of randomness, written as 26 characters of
Crockford's Base32. The library stores it as sixteen byte properties, `TimeStamp_0..5` and
`Randomness_0..9`. The model keeps that layout as a 16-byte sequence: `TimeStamp_k` is byte `k` and
`Randomness_k` is byte `6 + k`.

Modules, in dependency order:

- `Wrappers` — `Option`, `Result`, and the exceptions the core throws (`ArgumentException`,
  `ArgumentOutOfRangeException`, the `IndexOutOfRangeException` of a too-short span).
- `Positional` — big-endian digit values and ordinal lexicographic comparison.
- `UlidBinary` (Ulid.cs) — the bytes, the constructors, the `TimeStamp` getter, `Equals`,
  `TryWriteBytes`/`ToByteArray`, and byte order.
- `UlidText` (Ulid.cs) — `ToString`, `TryParse` with its nested search loops, and `CompareTo`, which
  compares the two strings ordinally.
- `Base32Bits` and `UlidTextLaws` — the bit facts behind the text codec, and its round trips.
- `UlidOrder` — proof that `CompareTo` on the strings is the order of the 128-bit numbers.
- `UlidStringHelper` (UlidStringHelper.cs) — the 5-bit group indexer and `FromString`.
- `UlidTimestampHelper` (UlidTimestampHelper.cs) — the six timestamp bytes from a `long` or a span,
  and `Create`.
- `UlidGenerator` (Ulid.cs) — `AddOne` as an in-place array method. `NewUlid` is a method on a
  `Generator` class whose fields are the static `LastUsedTimeStamp` and `LastUsedRandomness`.

Representation:

- A C# `long` is its 64-bit pattern, `bv64`.
- The `int` in the shift and mask formulas is `bv32`. Its `>>` is modelled as an arithmetic shift
  (`UlidText.Sar`).
- The `(byte)` casts keep the low eight bits.
- A `null` string passed to `TryParse` is `None`.
- The clock and the random number generator are not modelled. `NewUlid` takes the millisecond
  timestamp and the ten fresh bytes as parameters.

## Model

| member | source | states |
|---|---|---|
| UlidBinary.TimestampBytes | CSharp.Ulid/Ulid.cs:64-72 | The six bytes `Ulid(long, byte[])` takes from a long: byte k is the long shifted right by 40-8k, cut to eight bits, so they are the long's low six bytes, most significant first. |
| UlidBinary.FromParts | CSharp.Ulid/Ulid.cs:77-108 | `Ulid(byte[], byte[])`. It fails with `ArgumentException("timestamp")` unless the timestamp has 6 bytes. Otherwise it fails with `ArgumentException("randomness")` unless the randomness has 10 bytes. On success the bytes are the timestamp followed by the randomness. |
| UlidBinary.FromTimestamp | CSharp.Ulid/Ulid.cs:64-75 | `Ulid(long, byte[])`. It succeeds exactly when the randomness has 10 bytes. The getter then returns the long's low 48 bits, and bytes 6..15 are the randomness. |
| UlidBinary.FromData | CSharp.Ulid/Ulid.cs:110-138 | `Ulid(data)`. It throws `ArgumentException("data")` unless the length is 16. Otherwise the ULID is exactly `data`. |
| UlidBinary.BinaryRoundTrip | CSharp.Ulid/Ulid.cs:110-138 | Building from the 16 bytes of a ULID gives it back. Every 16-byte buffer builds a ULID with exactly those bytes. |
| UlidBinary.Equals | CSharp.Ulid/Ulid.cs:354-372 | `Equals` holds if and only if all sixteen bytes are equal. |
| UlidBinary.TryWriteBytes | CSharp.Ulid/Ulid.cs:327-352 | It returns true if and only if the destination holds at least 16 bytes. When it returns false, nothing changes. When it returns true, positions 0..15 hold the ULID's bytes and later positions keep their contents. |
| UlidBinary.ToByteArray | CSharp.Ulid/Ulid.cs:320-325 | It returns a fresh array whose contents are exactly the 16 bytes. |
| UlidBinary.MasksSelectBytes | CSharp.Ulid/Ulid.cs:57-62 | Mask k is `0xFF << 8k`. So `(t & MASK_k) >> 8k` is byte k of `t`, counted from the least significant end. |
| UlidBinary.TimeStampOfBytes | CSharp.Ulid/Ulid.cs:17-35 | The getter applied to the bytes the long constructor stores returns the long's low 48 bits. |
| UlidBinary.RecombineMaskedBytes | CSharp.Ulid/Ulid.cs:28-33 | Recombining the six masked and shifted bytes of a long with the getter's shifts gives `t & 0xFFFF_FFFF_FFFF`. |
| UlidBinary.TimeStampRoundTrip | CSharp.Ulid/Ulid.cs:17-35 | For `0 <= t < 2^48` and 10 randomness bytes, `Ulid(t, r).TimeStamp == t`. |
| UlidBinary.TimeStamp | CSharp.Ulid/Ulid.cs:17-35 | The getter's shifts and ORs give the big-endian number the six timestamp bytes spell, so it is below 2^48. |
| UlidBinary.TimeStampDeterminesBytes | CSharp.Ulid/Ulid.cs:17-35 | Two ULIDs have the same `TimeStamp` if and only if their six timestamp bytes are equal. |
| UlidBinary.EarlierTimeStampSortsFirst | CSharp.Ulid/Ulid.cs:17-35 | A smaller `TimeStamp` sorts first in byte order, whatever the randomness. |
| UlidText.ToString | CSharp.Ulid/Ulid.cs:209-318 | The result has 26 characters, all from the Crockford alphabet. The first is in '0'..'7'. |
| UlidText.Index | CSharp.Ulid/Ulid.cs:211-286 | Each `indexK` formula of `ToString` gives a 5-bit group, below 32. `index0` has only three bits, so it is below 8. |
| UlidText.EncodedIndices | CSharp.Ulid/Ulid.cs:211-286 | `index0..index25` in order: 26 entries, each below 32, the first below 8. |
| UlidText.ToUpperInvariant | CSharp.Ulid/Ulid.cs:441 | The length is kept. Each lower-case ASCII letter becomes its upper-case letter, every other character stays, and no lower-case ASCII letter remains. |
| UlidText.PackIndices | CSharp.Ulid/Ulid.cs:489-507 | The 16 fields in storage order, field j from packing formula j. Only the first 26 indices are read. What the formulas compute is stated by `UlidTextLaws.PackEncoded` and `UlidTextLaws.EncodePacked`. |
| UlidText.AlphabetAscending | CSharp.Ulid/Ulid.cs:48 | The alphabet has 32 characters in strictly ascending order. Exactly its first eight are at most '7'. |
| UlidText.AlphabetSearch | CSharp.Ulid/Ulid.cs:450-458 | The inner loop of `TryParse` finds the first position at or after `from` that holds the character. It fails exactly when no later position holds it. |
| UlidText.AlphabetIndexIsMembership | CSharp.Ulid/Ulid.cs:445-465 | A character has an index exactly when it is one of the 32 symbols. |
| UlidText.IndicesOf | CSharp.Ulid/Ulid.cs:445-465 | For a string wholly in the alphabet, each index is below 32 and names that position's symbol. |
| UlidText.Parse | CSharp.Ulid/Ulid.cs:427-510 | Parsing succeeds if and only if the input is non-null, has length 26, and is wholly in the alphabet after upper-casing. |
| UlidText.TryParse | CSharp.Ulid/Ulid.cs:427-510 | The method with the nested search loops. It returns true exactly when `Parse` succeeds; `ulid` is then its value, and otherwise `default(Ulid)`. |
| UlidTextLaws.PackEncoded | CSharp.Ulid/Ulid.cs:489-507 | Packing the 26 indices of `ToString` rebuilds the ULID. |
| UlidTextLaws.EncodePacked | CSharp.Ulid/Ulid.cs:211-286 | Splitting the packed bytes again gives back every valid index sequence: 26 entries below 32, the first below 8. |
| UlidTextLaws.EncodedIndicesValid | CSharp.Ulid/Ulid.cs:211-286 | The indices of `ToString` form a valid index sequence. |
| UlidTextLaws.AlphabetIndexOfSymbol | CSharp.Ulid/Ulid.cs:450-458 | The search finds symbol d at position d. |
| UlidTextLaws.ToUpperKeepsToString | CSharp.Ulid/Ulid.cs:441 | Upper-casing leaves the output of `ToString` unchanged. |
| UlidTextLaws.IndicesOfToString | CSharp.Ulid/Ulid.cs:445-465 | Every character of `ToString` is in the alphabet, and looking them up gives back its indices. |
| UlidTextLaws.ParseToString | CSharp.Ulid/Ulid.cs:427-510 | `TryParse(u.ToString())` succeeds with `u`. |
| UlidTextLaws.ParseAnyCase | CSharp.Ulid/Ulid.cs:441 | Every string that upper-cases to `u.ToString()` parses to `u`, lower-case input included. |
| UlidTextLaws.ToStringOfParsed | CSharp.Ulid/Ulid.cs:427-510 | For an accepted string, `ToString` of the result equals the upper-cased input if and only if its first character is at most '7'. |
| UlidTextLaws.IndexLocality | CSharp.Ulid/Ulid.cs:211-286 | Indices 0..9 depend only on the timestamp bytes. Indices 10..25 depend only on the randomness bytes. |
| UlidTextLaws.SameTimeStampSamePrefix | CSharp.Ulid.Tests/UlidTests.cs:35-37 | Equal `TimeStamp`s give equal first ten characters, which covers the test's nine. |
| UlidTextLaws.SameRandomnessSameSuffix | CSharp.Ulid/Ulid.cs:241-287 | Equal randomness bytes give equal last sixteen characters. |
| UlidTextLaws.TopBitSpelling | CSharp.Ulid/Ulid.cs:211-212 | For every ULID, a second 26-character spelling: its first character is above '7', and the rest is `ToString`'s. |
| UlidTextLaws.ParseIgnoresTopBit | CSharp.Ulid/Ulid.cs:491 | As written, `TryParse` accepts that second spelling and returns the same ULID. |
| UlidTextLaws.TopBitSpellingIndices | CSharp.Ulid/Ulid.cs:445-465 | The second spelling's first index is eight more than `ToString`'s, and the rest are the same. |
| UlidTextLaws.PackIgnoresTopBit | CSharp.Ulid/Ulid.cs:491 | The byte cast drops the top bit of index 0: raising index 0 by eight does not change the packed bytes. |
| UlidTextLaws.ParseStrict | CSharp.Ulid/Ulid.cs:427-510 | The corrected parser accepts `TryParse`'s strings except those whose first character is above '7'. On what it accepts, it agrees with `TryParse`. |
| UlidTextLaws.ParseStrictToString | CSharp.Ulid/Ulid.cs:427-510 | The corrected parser inverts `ToString` on every ULID. |
| UlidTextLaws.ToStringOfParseStrict | CSharp.Ulid/Ulid.cs:427-510 | `ToString` inverts the corrected parser on every accepted string, up to case. |
| UlidTextLaws.ParseStrictRejectsTopBit | CSharp.Ulid/Ulid.cs:491 | The corrected parser rejects the second spelling. |
| UlidTextLaws.TryParseStrict | CSharp.Ulid/Ulid.cs:427-510 | The corrected `TryParse` method returns true exactly when `ParseStrict` succeeds, with its value, and `default(Ulid)` otherwise. |
| UlidText.CompareTo | CSharp.Ulid/Ulid.cs:374-377 | The ordinal comparison of the two `ToString` results is a sign, -1, 0 or 1. It is zero exactly when the two strings are equal. |
| UlidOrder.IndexIsDigit | CSharp.Ulid/Ulid.cs:211-286 | Each `indexK` of `ToString` is digit K of the 128-bit value in base 32. |
| UlidOrder.DigitsAreDigits | CSharp.Ulid/Ulid.cs:211-286 | Every digit is in 0..31. |
| UlidOrder.DigitsDenoteBytes | CSharp.Ulid/Ulid.cs:211-286 | The 26 base-32 digits have the same value as the 16 bytes in base 256. |
| UlidOrder.TextOrderIsDigitOrder | CSharp.Ulid/Ulid.cs:374-377 | Comparing the two strings ordinally is comparing their digit sequences, because the alphabet ascends. |
| UlidOrder.DigitOrderIsByteOrder | CSharp.Ulid/Ulid.cs:374-377 | Comparing the digit sequences is comparing the byte sequences lexicographically. |
| UlidOrder.CompareToIsByteOrder | CSharp.Ulid/Ulid.cs:374-377 | `CompareTo` equals the lexicographic comparison of the 16 bytes. |
| UlidOrder.CompareToConsistentWithEquals | CSharp.Ulid/Ulid.cs:354-377 | `CompareTo` is zero if and only if `Equals` holds. Swapping the operands negates it. |
| UlidOrder.CompareToTransitive | CSharp.Ulid/Ulid.cs:374-377 | `CompareTo` is transitive. |
| UlidOrder.CompareToFollowsTimeStamp | CSharp.Ulid/Ulid.cs:374-377 | An earlier `TimeStamp` compares lower in both directions, whatever the randomness. |
| UlidOrder.CompareToUnderOneTimeStamp | CSharp.Ulid/Ulid.cs:374-377 | With equal timestamp bytes, the randomness bytes alone decide `CompareTo`. |
| UlidStringHelper.Indexer | CSharp.Ulid/UlidStringHelper.cs:14-43 | It succeeds if and only if `0 <= index <= 25`; otherwise it throws `ArgumentOutOfRangeException("index")`. Each value is below 32, and entry 0 is below 8. Each value is the base-32 digit at that position, and `ToString`'s character there is its symbol. |
| UlidStringHelper.FromString | CSharp.Ulid/UlidStringHelper.cs:45-63 | It succeeds if and only if the span holds at least 26 entries; a shorter span throws `IndexOutOfRangeException`. A valid index sequence re-encodes to itself. |
| UlidStringHelper.FromStringOfIndexer | CSharp.Ulid/UlidStringHelper.cs:14-63 | `FromString` of the indexer's 26 values returns the original ULID. |
| UlidStringHelper.IndexerOfFromString | CSharp.Ulid/UlidStringHelper.cs:14-63 | For a valid index sequence, the indexer of `FromString(idx)` gives back `idx`. |
| UlidStringHelper.IndexerLocality | CSharp.Ulid/UlidStringHelper.cs:16-41 | Entries 0..9 read only timestamp bytes. Entries 10..25 read only randomness bytes. |
| UlidStringHelper.ParseIsFromString | CSharp.Ulid/UlidStringHelper.cs:45-63 | For every string `TryParse` accepts, `FromString` of the parsed indices gives the ULID `TryParse` packs. |
| UlidTimestampHelper.FromLong | CSharp.Ulid/UlidTimestampHelper.cs:15-23 | Field k holds byte 5-k of the long, counted from the least significant end. |
| UlidTimestampHelper.FromSpan | CSharp.Ulid/UlidTimestampHelper.cs:25-38 | It throws `ArgumentException("timestamp")` unless the span has 6 bytes. Otherwise it copies them in order. |
| UlidTimestampHelper.Create | CSharp.Ulid/UlidTimestampHelper.cs:48-66 | It needs at least 10 randomness bytes, or throws `IndexOutOfRangeException`. The result is the helper's six bytes followed by the first ten randomness bytes. |
| UlidTimestampHelper.CreateFromLong | CSharp.Ulid/UlidTimestampHelper.cs:15-23 | The long constructor followed by `Create` builds what `Ulid(long, byte[])` builds. The getter then returns the long's low 48 bits. |
| UlidTimestampHelper.CreateFromSpan | CSharp.Ulid/UlidTimestampHelper.cs:25-38 | The span constructor followed by `Create` builds what `Ulid(byte[], byte[])` builds. |
| UlidTimestampHelper.CreatedTimeStamp | CSharp.Ulid/UlidTimestampHelper.cs:48-66 | The getter of a created ULID is the big-endian value of the helper's six bytes. |
| UlidGenerator.Increment | CSharp.Ulid/Ulid.cs:195-207 | `AddOne` never changes the array length. |
| UlidGenerator.AddOne | CSharp.Ulid/Ulid.cs:195-207 | The countdown loop with early return leaves `Increment` of the old contents in the array. |
| UlidGenerator.IncrementAddsOne | CSharp.Ulid/Ulid.cs:195-207 | Unless every byte is 0xFF, the big-endian value rises by exactly one. |
| UlidGenerator.IncrementShape | CSharp.Ulid/Ulid.cs:195-207 | Bytes left of the last byte below 0xFF are untouched. That byte rises by one, and the bytes after it become zero. |
| UlidGenerator.IncrementWraps | CSharp.Ulid/Ulid.cs:195-207 | When every byte is 0xFF, the result is all zeros: a silent wrap. |
| UlidGenerator.IncrementValue | CSharp.Ulid/Ulid.cs:195-207 | `AddOne` is addition of one modulo 2^(8·length). |
| UlidGenerator.Generated | CSharp.Ulid/Ulid.cs:173-191 | The identifier `NewUlid` returns is what the public `Ulid(long, byte[])` constructor builds. Its getter is the timestamp's low 48 bits, and its bytes 6..15 are the randomness. |
| UlidGenerator.NextRandomness | CSharp.Ulid/Ulid.cs:151-168 | At the last used timestamp, the next randomness is the last one plus one, modulo 2^80. At any other timestamp it is the fresh bytes. |
| UlidGenerator.Generator.constructor | CSharp.Ulid/Ulid.cs:50-51 | The initial state is timestamp 0 and ten zero bytes. |
| UlidGenerator.Generator.NewUlid | CSharp.Ulid/Ulid.cs:140-193 | At the last used timestamp, the recorded randomness becomes `AddOne` of the last one. Otherwise it becomes the fresh bytes and the timestamp is recorded. The result is built from the timestamp and the recorded randomness. |
| UlidGenerator.SameMillisecondSortsLater | CSharp.Ulid/Ulid.cs:153-158 | In one millisecond, when the last randomness is not all 0xFF, the next identifier compares greater than the last one. |
| UlidGenerator.LaterMillisecondSortsLater | CSharp.Ulid/Ulid.cs:159-168 | An identifier generated in a later millisecond compares greater, whatever either randomness is. |
| UlidGenerator.OverflowSortsEarlier | CSharp.Ulid/Ulid.cs:195-207 | As written: when the last randomness is all 0xFF, the next identifier in the same millisecond has zero randomness and compares lower than the last one. |
| UlidGenerator.OverflowExample | CSharp.Ulid/Ulid.cs:153-158 | The concrete state (ten 0xFF bytes at timestamp 0) in which the next step goes backwards. |
| UlidGenerator.NextRandomnessChecked | CSharp.Ulid/Ulid.cs:153-168 | The corrected step fails if and only if the increment in one millisecond would overflow. Otherwise it gives the original step's randomness. |
| UlidGenerator.MonotonicStep | CSharp.Ulid/Ulid.cs:140-193 | With the overflow check, and a clock that does not go back, every identifier compares greater than the one before it. |
| UlidGenerator.NewUlidMonotonic | CSharp.Ulid/Ulid.cs:140-193 | The corrected `NewUlid`. On overflow it returns nothing and leaves the state unchanged. Otherwise it takes the original step. |

## Left out

- The `lock` in `NewUlid` (Ulid.cs:146) is left out. It concerns concurrency; each `NewUlid` call is modelled as one atomic step on a `Generator` object.
- `DateTime.UtcNow` and the floating-point conversion to milliseconds (Ulid.cs:148-149) are left out. The timestamp is a parameter.
- `RNGCryptoServiceProvider` (Ulid.cs:162-165) is left out. Its ten bytes are the `entropy` parameter.
- `GetHashCode` (Ulid.cs:389-410) is left out. It is wrapping 32-bit arithmetic with no stated property.
- `CompareTo(object)` and `Equals(object)` are left out. Their type dispatch has no counterpart in Dafny.
- The culture-sensitive behaviour of `string.CompareTo` (Ulid.cs:376) is not modelled. The comparison is ordinal, which agrees with the invariant culture on the 32 symbols. Cultures with contractions order some ULID strings differently: cs-CZ sorts "CH" after "H", hu-HU has "CS", "DZ", "GY", "NY", "SZ", "TY" and "ZS", and da-DK sorts "AA" after "Z". Under such a culture Ulid.cs:374-377 is not byte order, and `UlidOrder.CompareToIsByteOrder` holds only for the ordinal model.
- `ToUpperInvariant` is modelled for ASCII letters only. .NET's invariant culture also maps a few non-ASCII characters onto ASCII letters, for example U+017F (long s) to 'S'. `TryParse` accepts a string with such a character, but `UlidText.Parse` rejects it.
- The explicit `byte[]` conversion operator (Ulid.cs:422-425) has no row of its own; it is `ToByteArray`.
- `null` arrays and spans are not modelled. Only their lengths are checked, and arrays are sequences.
- CSharp.Ulid/StringExtensions.cs is not part of this model. It is a string-allocation shim with no logic of its own.
- UlidBinary.FromTimestamp: states the getter as `t & 0xFFFF_FFFF_FFFF` on the 64-bit pattern, not as the integer `t mod 2^48`. For a nonnegative `t` these are the same number, but the model does not prove that conversion for every 64-bit value. UlidBinary.TimeStampRoundTrip covers `0 <= t < 2^48` exactly.
- UlidTimestampHelper.CreateFromLong: states the getter as `t & 0xFFFF_FFFF_FFFF`, for the same reason.
- UlidOrder.CompareToFollowsTimeStamp: requires `TimeStamp(a) < TimeStamp(b)` as integers of the 64-bit patterns. This is the C# `long` order, because the getter is below 2^48.
- UlidGenerator.LaterMillisecondSortsLater: requires the low 48 bits of the two clock values to increase. A clock value of 2^48 or more is truncated.
- The ULID specification asks a generator to fail when the randomness would overflow within one millisecond, but Ulid.cs wraps silently. `UlidGenerator.Generator.NewUlid` follows the code. The checked behaviour is the separate `UlidGenerator.NewUlidMonotonic` (Findings, row 2).

## Findings

| source | as written | input that shows it | evidently intended | confidence | as-written member | corrected member |
|---|---|---|---|---|---|---|
| CSharp.Ulid/Ulid.cs:491 | `TryParse` accepts a first character above '7' ('8'..'Z'). The byte cast of TimeStamp_0 drops the top bits of `index[0] << 5`, so two strings parse to the same ULID. | "8" followed by 25 '0's parses to the zero ULID, like "0" followed by 25 '0's. In general, `TopBitSpelling(u)` for every `u`. | Reject a first character above '7', which encodes a value beyond 128 bits, so that `TryParse` and `ToString` invert each other. | not executed | UlidTextLaws.ParseIgnoresTopBit | UlidTextLaws.ParseStrict |
| CSharp.Ulid/Ulid.cs:195-207 | `AddOne` wraps ten 0xFF bytes to ten zero bytes. `NewUlid` then returns an identifier in the same millisecond that sorts before the previous one. | The last randomness is ten 0xFF bytes, and the clock reads the same millisecond again. | `NewUlid` is monotonic, as its comment at Ulid.cs:143 says. A step that would wrap must not hand out an identifier. | not executed | UlidGenerator.OverflowSortsEarlier | UlidGenerator.NewUlidMonotonic |
