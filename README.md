# b58uuid in Dafny

A model of the core of b58uuid-go. The library turns a 128-bit UUID into a
22-character Base58 string over the Bitcoin alphabet, and back.

- **`Base58Alphabet`** (`alphabet.dfy`) holds the two fixed tables of the
  codec: the alphabet and the 256-entry reverse lookup table. Both are
  literals, proved entry by entry to agree with a description of the
  alphabet as six runs of ASCII.
- **`Radix`** (`radix.dfy`) is the exact arithmetic the codec takes from
  `math/big`. It defines the big-endian value of a digit string, the
  fixed-width and minimal digit strings of a number, and their inverse laws.
- **`Base58`** (`base58.dfy`) is the codec of `internal/base58`:
  - `Encoded` and `Decoded` are reference definitions of what the codec
    computes.
  - The methods `Encode` and `Decode` follow the source's loops: repeated
    division, an in-place reversal and '1'-padding; then a left-to-right
    multiply-add with an overflow check after every digit. Each is proved
    to compute exactly its reference definition.
  - The codec's promises are lemmas about `Encoded` and `Decoded`: the
    width, the round trip, the three error cases, and the published test
    vectors.
- **`B58Uuid`** (`b58uuid.dfy`) is the public package:
  - UUID-string parsing, with hyphens removed and exactly 32 hexadecimal
    digits required, and canonical formatting.
  - The four entry points and the "must" wrappers.
  - Random version-4 generation.
  - Go's `(T, error)` results are pairs whose second component is `None`
    for a nil error.
- **`Wrappers`** (`wrappers.dfy`) defines `Option` and `Result`.

## Model

| member | source | states |
|---|---|---|
| Base58Alphabet.TablesMatchRuns | internal/base58/encoder.go:9-32 | The alphabet has 58 entries and the reverse table 256. Alphabet entry i is the run character for digit i. Every reverse-table entry is the digit of its code, or 255 when the code is not an alphabet character. |
| Base58Alphabet.ReverseAlphabetInverse | internal/base58/encoder.go:15-32 | The reverse table inverts the alphabet: each of the 58 characters maps to its own index. An entry is 255 exactly when its code is not an alphabet character. |
| Base58Alphabet.AlphabetShape | internal/base58/encoder.go:9 | The alphabet has 58 pairwise distinct characters and contains none of '0', 'O', 'I', 'l'. It starts with '1' (digit zero) and ends with 'z'. |
| Base58Alphabet.InAlphabetIffMember | internal/base58/encoder.go:9 | A character is in one of the six runs exactly when it occurs in the alphabet string. |
| Base58Alphabet.LookupAgrees | internal/base58/encoder.go:80-88 | The decoder's two checks (code above 255, table entry 255) reject exactly the characters outside the alphabet. Otherwise the entry is the character's digit value. |
| Base58Alphabet.AlphabetAt | internal/base58/encoder.go:46 | The encoder's lookup `AlphabetBytes[d]` yields the character of digit d, for each d below 58. |
| Base58Alphabet.DigitOfCharOf | internal/base58/encoder.go:9 | Reading back the character of a digit gives the digit. |
| Radix.BytesToNat | internal/base58/encoder.go:38 | `SetBytes`: the big-endian value of w bytes is below 256^w. `NatToBytesOfBytes` and `BytesToNatOfNatToBytes` are its inverse laws with the fixed-width form. |
| Radix.Minimal | internal/base58/encoder.go:100 | `num.Bytes()`, and the digits the division loop collects: every element is a digit of the base and the first is never zero. `MinimalValue` shows it denotes n, `MinimalLength` bounds its length. |
| Radix.NatToBytesOfBytes | internal/base58/encoder.go:38 | `SetBytes`, then the fixed-width 16-byte form, is the identity on byte strings. |
| Radix.BytesToNatOfNatToBytes | internal/base58/encoder.go:100-104 | A number below 256^w has its w-byte big-endian form as bytes whose value is that number. |
| Radix.MinimalValue | internal/base58/encoder.go:44-48 | The shortest digit string of n, collected by repeated division, denotes n. |
| Radix.MinimalLength | internal/base58/encoder.go:55-58 | A number below base^w has at most w digits in its shortest form. |
| Radix.ValuePrefixMonotone | internal/base58/encoder.go:90-96 | A prefix of a digit string never denotes more than the whole string, so the value only grows as digits are read. |
| Radix.FixedValue | internal/base58/encoder.go:36-61 | A number that fits w digits is the value of its w-digit form. |
| Radix.FixedOfValue | internal/base58/encoder.go:99-112 | A digit string of width w is the w-digit form of its own value. |
| Base58.Encode | internal/base58/encoder.go:36-61 | The division loop, the in-place reversal and the '1'-padding loop compute exactly `Encoded(data)`. |
| Base58.ReverseInPlace | internal/base58/encoder.go:51-53 | The two-index swap loop leaves the array holding the reverse of its old contents. |
| Base58.Decode | internal/base58/encoder.go:65-114 | The method computes exactly `Decoded(s)`. That covers the empty-string failure, the first invalid character, overflow at the first digit past 2^128 - 1, and otherwise the value as 16 zero-padded big-endian bytes. |
| Base58.Decoded | internal/base58/encoder.go:65-114 | The reference decoding. The empty-string error arises exactly for "". A success needs an all-alphabet string of value at most 2^128 - 1 and has 16 bytes. A reported invalid character occurs in the input and is outside the alphabet. `DecodedSucceeds`, `DecodedOverflow` and `DecodedInvalidChar` characterise each outcome both ways, and `Base58.Decode` computes it. |
| Base58.Encoded | internal/base58/encoder.go:34-61 | The reference encoding of 16 bytes: exactly 22 alphabet characters whose base-58 value is the bytes' big-endian value. `Base58.Encode` computes it; `RoundTrip`, `EncodedInjective` and `DecodedEncodedCanonical` relate it to `Decoded`. |
| Base58.EncodedPadding | internal/base58/encoder.go:55-58 | The encoding is the shortest base-58 spelling of the value behind as many '1's as reach 22 characters. The shortest spelling never begins with '1'. |
| Base58.RoundTrip | internal/base58/encoder.go:36-114 | Decoding the encoding of 16 bytes gives those bytes back. |
| Base58.EncodedInjective | internal/base58/encoder.go:36-61 | Distinct 16-byte values have distinct encodings. |
| Base58.DecodedSucceeds | internal/base58/encoder.go:65-114 | Decoding succeeds exactly on non-empty alphabet strings whose value is at most 2^128 - 1. The result is always 16 bytes that denote that value. |
| Base58.DecodedEncodedCanonical | internal/base58/encoder.go:65-114 | A 22-character string that decodes is the encoding of its result. |
| Base58.DecodedEmpty | internal/base58/encoder.go:68-70 | The empty-string error arises exactly for the empty string. |
| Base58.DecodedOverflow | internal/base58/encoder.go:93-96 | Decoding overflows exactly when some all-alphabet prefix already exceeds 2^128 - 1, whatever follows it. |
| Base58.DecodedInvalidChar | internal/base58/encoder.go:80-88 | Decoding reports character c exactly when c is the first character outside the alphabet and the digits before it stay within 2^128 - 1. |
| Base58.DecodedRejects | internal/base58/encoder.go:80-88 | A string holding any character that is outside the alphabet, or above U+00FF, never decodes. |
| Base58.DecodedRejectsLookAlikes | internal/base58/encoder.go:85-88 | A string holding '0', 'O', 'I' or 'l' never decodes. |
| Base58.AllZOverflows | internal/base58/encoder.go:93-96 | Twenty-two 'z's (58^22 - 1) decode to the overflow error. |
| Base58.DecodedLeadingOne | internal/base58/encoder.go:90-91 | A leading '1' adds nothing: a non-empty string decodes to the same result, success or error, with one more '1' in front. |
| Base58.PaddedBytes | internal/base58/encoder.go:99-110 | A value within 2^128 - 1 has at most 16 minimal bytes, so the "more than 16 bytes" branch is unreachable. Zero-padding them to 16 gives the value's 16-byte form. |
| Base58.AcceptedAll | internal/base58/encoder.go:97-113 | A non-empty alphabet string whose value fits decodes to that value's 16 bytes. |
| Base58.FirstInvalidAt | internal/base58/encoder.go:80-88 | An invalid character after an acceptable, non-overflowing prefix is the one reported. |
| Base58.OverflowAt | internal/base58/encoder.go:93-96 | An acceptable prefix above 2^128 - 1 makes the whole string overflow. |
| Base58.EncodedSmall | internal/base58/encoder.go:55-58 | A value below 58 encodes as twenty-one '1's followed by its digit, and that string decodes back to it. |
| Base58.VectorZero | internal/base58/encoder_test.go:12-16 | The nil UUID encodes as twenty-two '1's and decodes back. |
| Base58.VectorMax | internal/base58/encoder_test.go:17-21 | Sixteen 0xff bytes encode as YcVfxkQb6JRzqk5kF2tNLv and decode back. |
| Base58.VectorRfcExample | internal/base58/encoder_test.go:22-26 | 550e8400-e29b-41d4-a716-446655440000 encodes as BWBeN28Vb7cMEx7Ym8AUzs and decodes back. |
| Base58.VectorDeadBeef | internal/base58/encoder_test.go:27-31 | deadbeef-cafe-babe-0123-456789abcdef encodes as UVqy39vS4tbfPzthw5VEKg and decodes back. |
| Base58.VectorOne | internal/base58/encoder_test.go:32-36 | The value 1 encodes as 1111111111111111111112 and decodes back. |
| Base58.VectorSixteen | internal/base58/encoder_test.go:37-41 | The value 16 encodes as 111111111111111111111H and decodes back. |
| B58Uuid.HexDecode | b58uuid.go:162-165 | Hex decoding succeeds exactly on even-length strings of hexadecimal digits of either case. Byte i is the digit pair at 2i, high digit first. |
| B58Uuid.HexEncode | b58uuid.go:179-186 | `%x` on a byte slice: two lower-case hexadecimal digits per byte. `HexRoundTrip` and `HexEncodeOfDecode` show that `HexDecode` inverts it in both directions. |
| B58Uuid.HexRoundTrip | b58uuid.go:178-187 | Hex-decoding the lower-case hex text of bytes gives the bytes back. |
| B58Uuid.HexEncodeOfDecode | b58uuid.go:162-165 | Lower-case hex text is the hex text of the bytes it decodes to. |
| B58Uuid.StripHyphens | b58uuid.go:154 | The result contains no hyphen and is no longer than the input. |
| B58Uuid.StripHyphensContents | b58uuid.go:154 | Removing hyphens keeps every other character exactly as many times as it occurs. |
| B58Uuid.StripHyphensKeeps | b58uuid.go:154 | Every character of the input other than '-' occurs in the result. |
| B58Uuid.StripHyphensNoHyphens | b58uuid.go:154 | A string without hyphens is returned unchanged. |
| B58Uuid.StripHyphensIdempotent | b58uuid.go:154 | Removing hyphens twice is the same as removing them once. |
| B58Uuid.StripHyphensConcat | b58uuid.go:154 | Hyphen removal distributes over concatenation. |
| B58Uuid.ParsedUUID | b58uuid.go:150-175 | Parsing succeeds exactly when the string without hyphens has 32 hexadecimal digits. It then yields 16 bytes, byte i from digits 2i and 2i+1. Any failure is ErrInvalidUUID. |
| B58Uuid.ParseUUID | b58uuid.go:150-175 | The method returns a fresh 16-byte array. On success it holds `ParsedUUID`'s bytes with a nil error. On failure it is all zero, with ErrInvalidUUID. |
| B58Uuid.FormatUUID | b58uuid.go:178-187 | The result is canonical: 36 characters, lower-case hexadecimal digits, hyphens at positions 8, 13, 18 and 23. |
| B58Uuid.FormatUUIDDigits | b58uuid.go:178-187 | The formatted string holds exactly four hyphens. Removing them leaves the 32 hex digits of the bytes. |
| B58Uuid.ParseFormat | b58uuid.go:150-187 | Parsing the formatted string of 16 bytes gives those bytes. |
| B58Uuid.FormatParse | b58uuid.go:150-187 | A canonical string parses, and formatting the result gives the same string back. |
| B58Uuid.CanonicalDigits | b58uuid.go:150-175 | Removing the hyphens of a canonical string leaves its five digit groups side by side: 32 lower-case hex digits. |
| B58Uuid.Encode | b58uuid.go:57-66 | Encoding succeeds exactly when the UUID string parses, with a nil error. The result then has 22 characters and decodes to the parsed bytes. On failure it is "" with ErrInvalidUUID. |
| B58Uuid.EncodeBytes | b58uuid.go:69-71 | The result is 22 alphabet characters that the codec decodes back to the input bytes. |
| B58Uuid.Decode | b58uuid.go:75-92 | "" gives ErrInvalidB58UUID. A codec overflow, and only that, gives ErrOverflow. Every other codec failure gives ErrInvalidB58UUID, with "". On success the result is canonical and parses back to the decoded bytes. |
| B58Uuid.DecodeBytes | b58uuid.go:95-101 | "" gives ErrInvalidB58UUID. Otherwise a codec error is passed through unchanged, with sixteen zero bytes. On success the result is the codec's 16 bytes. |
| B58Uuid.MustEncode | b58uuid.go:132-138 | For a string that parses, the result is what `Encode` returns with a nil error: 22 characters. |
| B58Uuid.MustDecode | b58uuid.go:141-147 | For a string that decodes, the result is what `Decode` returns with a nil error: a canonical UUID string. |
| B58Uuid.BytesRoundTrip | b58uuid.go:69-101 | `DecodeBytes(EncodeBytes(u))` is u with a nil error. |
| B58Uuid.EmptyRejected | b58uuid.go:75-98 | Both decoders reject "" with ErrInvalidB58UUID, never with a codec error. |
| B58Uuid.EncodeIgnoresHyphens | b58uuid.go:150-154 | A UUID string encodes exactly as it does with all its hyphens removed, so the hyphenated and bare forms agree. |
| B58Uuid.EncodeDecode | b58uuid.go:57-92 | A string that parses decodes back, after encoding, to the canonical form of its bytes. |
| B58Uuid.CanonicalRoundTrip | b58uuid.go:57-92 | A canonical UUID string comes back unchanged after encoding and decoding. |
| B58Uuid.DecodeEncode | b58uuid.go:57-92 | A 22-character string that decodes is re-encoded, from its decoded UUID string, to itself. |
| B58Uuid.BitAnd | b58uuid.go:123-126 | Go's bitwise and on non-negative integers: the result is at most either operand. `LowMask` shows that masking with 2^k - 1 is the remainder mod 2^k. |
| B58Uuid.BitOr | b58uuid.go:123-126 | Go's bitwise or on non-negative integers: the result is at least either operand and at most their sum. `BitOrHigh` shows that or-ing in bits above the low k adds them. |
| B58Uuid.LowMask | b58uuid.go:123-126 | Masking with 2^k - 1 keeps the k lowest bits, for each k up to six. |
| B58Uuid.BitOrHigh | b58uuid.go:123-126 | Or-ing bits above the k lowest into a number below 2^k adds them. |
| B58Uuid.WithVersion4 | b58uuid.go:123 | b with its high nibble cleared and then or-ed with 0x40 has high nibble 4 and keeps the low nibble of b. |
| B58Uuid.WithRfcVariant | b58uuid.go:126 | b with its top two bits cleared and then or-ed with 0x80 has top bits 10 and keeps the low six bits of b. |
| B58Uuid.Version4Bytes | b58uuid.go:122-126 | The result has version 4 and variant 2. Bytes 6 and 8 keep their low nibble and low six bits, and every other byte is unchanged. |
| B58Uuid.SetVersionAndVariant | b58uuid.go:122-126 | The two in-place assignments turn the array into `Version4Bytes` of its old contents. |
| B58Uuid.GenerateUUIDv4 | b58uuid.go:113-129 | If the random source fails, the result is its error. Otherwise it is a fresh array holding the random bytes with the version and variant set. |
| B58Uuid.New | b58uuid.go:104-110 | If the random source fails, the result is "" with its error. Otherwise it is the encoding of the version-4 bytes, with a nil error. |
| B58Uuid.NewIsVersion4 | b58uuid_test.go:279-305 | What `New` hands out decodes without error to a UUID of version 4 and variant 2. |
| B58Uuid.ExampleRfc | b58uuid_test.go:15-19 | 550e8400-e29b-41d4-a716-446655440000 encodes as BWBeN28Vb7cMEx7Ym8AUzs, and both decoders give it back. |
| B58Uuid.ExampleNil | b58uuid_test.go:27-31 | The nil UUID encodes as twenty-two '1's, and both decoders give it back. |
| B58Uuid.ExampleMax | b58uuid_test.go:33-37 | ffffffff-ffff-ffff-ffff-ffffffffffff encodes as YcVfxkQb6JRzqk5kF2tNLv, and both decoders give it back. |
| B58Uuid.ExampleDeadBeef | b58uuid_test.go:132-139 | deadbeef-cafe-babe-0123-456789abcdef encodes as UVqy39vS4tbfPzthw5VEKg, and both decoders give it back. |
| B58Uuid.ExampleTooShort | b58uuid_test.go:39-43 | "550e8400-e29b-41d4-a716" gives "" with ErrInvalidUUID. |
| B58Uuid.ExampleNotHex | b58uuid_test.go:45-49 | "550e8400-e29b-41d4-a716-44665544000g" gives "" with ErrInvalidUUID. |
| B58Uuid.ExampleEmpty | b58uuid_test.go:51-55 | "" is rejected by Encode with ErrInvalidUUID and by Decode with ErrInvalidB58UUID. |
| B58Uuid.ExampleZeros | b58uuid_test.go:98-103 | "0000000000000000" gives "" with ErrInvalidB58UUID. |
| B58Uuid.ExampleOhs | b58uuid_test.go:104-109 | "OOOOOOOOOOOOOOOO" gives "" with ErrInvalidB58UUID. |

## Left out

- The random source is a parameter: `crypto/rand.Read` becomes an
  `Option` of sixteen bytes, and `None` stands for a read error. The error
  carries no message (`RandomSource`).
- `math/big` is replaced by unbounded naturals (module `Radix`). Its
  internal representation is not modelled.
- Error values are modelled by kind, not by message. `Decode` tells an
  overflow apart by searching the codec's message for "overflow". Only the
  overflow message contains that word, which a single character in the
  invalid-character message cannot spell, so the model distinguishes the
  error kind instead.
- Panics of `MustEncode` and `MustDecode` are preconditions: the caller
  must pass a string that succeeds.
- Strings are sequences of Unicode scalar values, Go's runes. Go's
  `range` over a string decodes UTF-8 and turns invalid bytes into U+FFFD;
  that step is not modelled. U+FFFD is above 255 and rejected, as every
  character outside the alphabet is.
- `parseUUID` measures the length in bytes, the model in characters. They
  differ only for non-ASCII characters, and any such string is rejected by
  `hex.DecodeString` even when its byte length is 32. Both forms therefore
  give ErrInvalidUUID on the same inputs.
- `encoding/hex` and `fmt`'s `%x` are modelled by their results
  (`HexDecode`, `HexEncode`), not by their implementation.
- The reverse table is written as sixteen rows of sixteen entries, exactly
  as in the source, and concatenated.
- The defensive branches that cannot be reached are proved unreachable
  rather than modelled as return paths. These are the codec's
  "value too large" branch (`Base58.PaddedBytes`) and `parseUUID`'s
  "decoded length is not 16" branch.
- `AlphabetBytes` is the same string as `Alphabet`. It is not modelled
  separately.
- Benchmarks, the uniqueness check of `TestNew` over 100 random UUIDs, and
  the panic tests are left out. A set of random draws is outside a
  deterministic model.
- B58Uuid.ExampleRfc, ExampleNil, ExampleMax and ExampleDeadBeef state the
  UUID-string test cases for `FormatUUID` of the literal bytes, not for the
  literal 36-character strings. `FormatParse` ties the two forms together.
  The bare 32-digit form of the first case is covered by
  `EncodeIgnoresHyphens`.
- B58Uuid.CanonicalRoundTrip covers the round-trip test case
  123e4567-e89b-12d3-a456-426614174000 generically; no literal lemma
  states it.
- The codec's 'I', 'l' and "invalid" rejection cases are covered by
  `Base58.DecodedRejectsLookAlikes` and `Base58.DecodedRejects`, not by
  literal lemmas.
