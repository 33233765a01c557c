# BinaryPrimitives in Dafny

A model of MrKWatkins.BinaryPrimitives. It is a C# library of binary helpers for emulators and file-format code. It also ships a small Python module that renders parts of its documentation site.

The model covers the following:

- **`UInt24`**: a 24-bit unsigned integer type. The model covers its wrapping and checked arithmetic, bitwise operators and shifts, comparison, `Min`, `Max`, `Clamp` and `Sign`, and conversions to and from integer types, `TryConvertFrom*` included. It also covers the generic `CreateChecked`, `CreateSaturating` and `CreateTruncating`, the bit counts and rotations, and the byte readers and writers.
- **Multi-byte reads and writes** of `short`, `ushort`, 24-bit values, `int`, `uint`, `long` and `ulong`, in both byte orders. These exist on spans, read-only spans, arrays, `List<byte>`, `IList<byte>` and `IReadOnlyList<byte>`. The model also covers appends to `ICollection<byte>` and the 16-bit "word" helpers.
- **Bit helpers** on `byte`, `ushort`, `int`, `uint`, `long` and `ulong`: single bits, bit fields, nibbles, parity, the carry and overflow flags of an 8- or 16-bit ALU, and `0b…` binary strings.
- **The two stream adapters**: `ReadOnlyListStream`, a read-only seekable stream over a list of bytes, and `PeekableStream`, which adds one byte of look-ahead to another stream.
- **The documentation macros** in `doc/main.py`: the navigation outline, the vocabulary table, and the recursive renderer behind them.

## How the model is built

Every C# integer is a Dafny `int` restricted to the type's range. This means `byte`, `sbyte`, `short`, `ushort`, `int32`, `uint`, `long`, `ulong`, and `UInt24` for 0 to 2^24 - 1.

The n-bit operations are written out explicitly in module `Bits`: `&`, `|`, `^`, `~`, `<<`, logical and arithmetic `>>`, and two's-complement patterns. Each C# expression is computed at the width C# computes it: `int` for byte arithmetic, `uint` for `UInt24`, and `long` where a literal forces it. The model also states what that means bit by bit.

The byte layout of every type is given once, in module `Endianness`:

- `Encode(t, v, e)` gives the bytes of a value;
- `Decode(t, s, e)` reads bytes back as a value;
- `Splice` writes bytes into memory.

Every reader is proved equal to `Decode` and every writer to a `Splice` of `Encode`. Set-then-get round trips follow from that. The runtime primitives the library calls are modelled as their little-endian-host behaviour in module `Endianness`. These are `BinaryPrimitives`, `Unsafe.ReadUnaligned` and `WriteUnaligned`, and `MemoryMarshal`.

Code that mutates is imperative in the model:

- span and array writers are methods over an `array<byte>`;
- `ICollection.Add` and the `AddX` helpers are methods on a `ByteCollection` class with a `seq` field;
- the streams are classes with `modifies` clauses.

The wrapped stream that `PeekableStream` reads from is `Streams.MemoryStream`. It is a simplified .NET `MemoryStream` over a byte sequence, and it is not part of the library.

C# exceptions are `Result` values; their kinds are listed in module `Errors`. Python exceptions are `Py` values: `Returns(x)` or `Raises(e)`.

## Model

| member | source | states |
|---|---|---|
| UInt24Struct.Masked | src/MrKWatkins.BinaryPrimitives/UInt24.cs:16 | `value & MaxValueUInt32` is the `uint` reduced modulo 2^24 |
| UInt24Struct.Create | src/MrKWatkins.BinaryPrimitives/UInt24.cs:26-34 | the checking constructor succeeds exactly when the check is off or the value is at most 0xFFFFFF; it throws OverflowException otherwise |
| UInt24Struct.Add | src/MrKWatkins.BinaryPrimitives/UInt24.cs:214 | `+` is the sum modulo 2^24 |
| UInt24Struct.Subtract | src/MrKWatkins.BinaryPrimitives/UInt24.cs:233 | `-` is the difference modulo 2^24, wrapping below zero |
| UInt24Struct.Multiply | src/MrKWatkins.BinaryPrimitives/UInt24.cs:251 | `*` is the product modulo 2^24, even though the `uint` product wraps at 2^32 first |
| UInt24Struct.Increment | src/MrKWatkins.BinaryPrimitives/UInt24.cs:285 | `++` is value + 1 modulo 2^24 |
| UInt24Struct.Decrement | src/MrKWatkins.BinaryPrimitives/UInt24.cs:303 | `--` is value - 1 modulo 2^24 |
| UInt24Struct.Negate | src/MrKWatkins.BinaryPrimitives/UInt24.cs:326 | unary `-` is the additive inverse modulo 2^24 |
| UInt24Struct.Complement | src/MrKWatkins.BinaryPrimitives/UInt24.cs:389 | `~` is 0xFFFFFF - value, every one of the 24 bits flipped |
| UInt24Struct.ShiftLeft | src/MrKWatkins.BinaryPrimitives/UInt24.cs:394 | `<<` by a count reduced `& 31` moves bit i to bit i + k, keeping only bits below 24 |
| UInt24Struct.ShiftRight | src/MrKWatkins.BinaryPrimitives/UInt24.cs:399-404 | `>>` and `>>>` are the same logical shift: the result is value / 2^(count & 31), and its bit i is bit i + (count & 31) of the value |
| UInt24Struct.BitwiseAnd | src/MrKWatkins.BinaryPrimitives/UInt24.cs:374 | `&` sets exactly the bits set in both operands |
| UInt24Struct.BitwiseOr | src/MrKWatkins.BinaryPrimitives/UInt24.cs:379 | `\|` sets the bits set in either operand, and stays within 24 bits |
| UInt24Struct.BitwiseXor | src/MrKWatkins.BinaryPrimitives/UInt24.cs:384 | `^` sets the bits set in exactly one operand, and stays within 24 bits |
| UInt24Struct.Divide | src/MrKWatkins.BinaryPrimitives/UInt24.cs:270-275 | `/` and `checked /` are the quotient; a zero divisor throws DivideByZeroException |
| UInt24Struct.Remainder | src/MrKWatkins.BinaryPrimitives/UInt24.cs:280 | `%` is the remainder; a zero divisor throws DivideByZeroException |
| UInt24Struct.CheckedAdd | src/MrKWatkins.BinaryPrimitives/UInt24.cs:219-228 | `checked +` returns the exact sum when it fits in 24 bits and throws OverflowException otherwise |
| UInt24Struct.CheckedSubtract | src/MrKWatkins.BinaryPrimitives/UInt24.cs:238-246 | `checked -` returns the exact difference unless it is negative, which throws OverflowException |
| UInt24Struct.CheckedMultiply | src/MrKWatkins.BinaryPrimitives/UInt24.cs:256-265 | `checked *` returns the exact product when it fits and throws OverflowException otherwise; the `ulong` product cannot wrap |
| UInt24Struct.CheckedIncrement | src/MrKWatkins.BinaryPrimitives/UInt24.cs:290-298 | `checked ++` throws only at MaxValue |
| UInt24Struct.CheckedDecrement | src/MrKWatkins.BinaryPrimitives/UInt24.cs:308-316 | `checked --` throws only at 0 |
| UInt24Struct.CheckedNegate | src/MrKWatkins.BinaryPrimitives/UInt24.cs:331-339 | `checked -x` succeeds only for 0 |
| UInt24Struct.WrapAround | src/MrKWatkins.BinaryPrimitives/UInt24.cs:214-233 | MaxValue + 1 is 0 and 0 - 1 is MaxValue |
| UInt24Struct.AddSubtract | src/MrKWatkins.BinaryPrimitives/UInt24.cs:214-233 | subtracting undoes adding, and adding undoes subtracting |
| UInt24Struct.NegateComplement | src/MrKWatkins.BinaryPrimitives/UInt24.cs:326-389 | v + (-v) is 0, and ~v is -v - 1 |
| UInt24Struct.IncrementDecrement | src/MrKWatkins.BinaryPrimitives/UInt24.cs:285-303 | `++` and `--` undo each other |
| UInt24Struct.CheckedAddExact | src/MrKWatkins.BinaryPrimitives/UInt24.cs:214-228 | `checked +` throws exactly when the wrapping sum differs from the true sum, and otherwise equals it |
| UInt24Struct.CheckedSubtractExact | src/MrKWatkins.BinaryPrimitives/UInt24.cs:233-246 | `checked -` throws exactly when the wrapping difference differs from the true one |
| UInt24Struct.CheckedMultiplyExact | src/MrKWatkins.BinaryPrimitives/UInt24.cs:251-265 | `checked *` throws exactly when the wrapping product differs from the true one |
| UInt24Struct.CheckedStepsExact | src/MrKWatkins.BinaryPrimitives/UInt24.cs:285-339 | checked `++`, `--` and unary `-` throw exactly when their wrapping forms wrap |
| UInt24Struct.ShiftRightOfShiftLeft | src/MrKWatkins.BinaryPrimitives/UInt24.cs:394-399 | shifting left by k < 24 and back right keeps just the low 24 - k bits |
| UInt24Struct.DivisionIdentity | src/MrKWatkins.BinaryPrimitives/UInt24.cs:270-280 | quotient · divisor + remainder is the dividend, and the remainder is below the divisor |
| UInt24Struct.IsEvenInteger | src/MrKWatkins.BinaryPrimitives/UInt24.cs:611 | true exactly when the value is even |
| UInt24Struct.IsOddInteger | src/MrKWatkins.BinaryPrimitives/UInt24.cs:651 | true exactly when the value is odd, so it is the negation of IsEvenInteger |
| UInt24Struct.CompareTo | src/MrKWatkins.BinaryPrimitives/UInt24.cs:91 | -1, 0 or 1 as the value is below, equal to or above the other |
| UInt24Struct.CompareToObject | src/MrKWatkins.BinaryPrimitives/UInt24.cs:73-86 | null compares as 1, a boxed UInt24 by value, and any other object throws ArgumentException |
| UInt24Struct.EqualsObject | src/MrKWatkins.BinaryPrimitives/UInt24.cs:96-100 | true exactly for a boxed UInt24 of the same value, which is exactly when CompareTo(object) gives 0 |
| UInt24Struct.Max | src/MrKWatkins.BinaryPrimitives/UInt24.cs:978 | one of the two arguments, and at least both |
| UInt24Struct.Min | src/MrKWatkins.BinaryPrimitives/UInt24.cs:983 | one of the two arguments, and at most both |
| UInt24Struct.Clamp | src/MrKWatkins.BinaryPrimitives/UInt24.cs:972-973 | ArgumentException when min is above max; otherwise a value in min to max, the value itself when it lies there and the nearer bound when it does not |
| UInt24Struct.Sign | src/MrKWatkins.BinaryPrimitives/UInt24.cs:987 | 0 for zero and 1 otherwise, which is the comparison with zero |
| UInt24Struct.CheckedToUInt | src/MrKWatkins.BinaryPrimitives/UInt24.cs:461-506 | `checked((uint)x)` keeps x within 0 to 2^32 - 1 and throws OverflowException elsewhere |
| UInt24Struct.CreateFromCast | src/MrKWatkins.BinaryPrimitives/UInt24.cs:461-506 | `new(checked((uint)x), checked)` succeeds exactly for x in 0 to MaxValue, with the value x |
| UInt24Struct.FromInteger | src/MrKWatkins.BinaryPrimitives/UInt24.cs:412-506 | every conversion from an integer type succeeds exactly when the value is in 0 to MaxValue, keeps it, and throws OverflowException otherwise |
| UInt24Struct.ToByte | src/MrKWatkins.BinaryPrimitives/UInt24.cs:569 | `(byte)` succeeds exactly up to 0xFF, keeping the value |
| UInt24Struct.ToSByte | src/MrKWatkins.BinaryPrimitives/UInt24.cs:578 | `(sbyte)` succeeds exactly up to 0x7F |
| UInt24Struct.ToShort | src/MrKWatkins.BinaryPrimitives/UInt24.cs:587 | `(short)` succeeds exactly up to 0x7FFF |
| UInt24Struct.ToUShort | src/MrKWatkins.BinaryPrimitives/UInt24.cs:596 | `(ushort)` succeeds exactly up to 0xFFFF |
| UInt24Struct.NarrowingRoundTrip | src/MrKWatkins.BinaryPrimitives/UInt24.cs:412-596 | a narrowing conversion that succeeds is undone by the conversion back into UInt24 |
| UInt24Struct.CreateChecked | src/MrKWatkins.BinaryPrimitives/UInt24.cs:1186-1261 | for each of the eight integer types, CreateChecked agrees with the conversion operator, including when it throws |
| UInt24Struct.CreateSaturating | src/MrKWatkins.BinaryPrimitives/UInt24.cs:1266-1365 | negative values give 0, values above MaxValue give MaxValue, and the rest are kept |
| UInt24Struct.CreateTruncating | src/MrKWatkins.BinaryPrimitives/UInt24.cs:1370-1439 | the value modulo 2^24, so a negative value keeps the low 24 bits of its two's complement |
| UInt24Struct.MaskedLong | src/MrKWatkins.BinaryPrimitives/UInt24.cs:1390 | `(uint)(ulong & MaxValueUInt32)` is the value modulo 2^24 |
| UInt24Struct.CreateAgrees | src/MrKWatkins.BinaryPrimitives/UInt24.cs:1186-1439 | where CreateChecked succeeds, the saturating and truncating forms give the same value |
| UInt24Struct.CreateCheckedOf | src/MrKWatkins.BinaryPrimitives/UInt24.cs:1186-1261 | the integer branches as the conversion operators, a UInt24 returned as it is, and NotSupportedException for a type no branch names |
| UInt24Struct.CreateSaturatingOf | src/MrKWatkins.BinaryPrimitives/UInt24.cs:1266-1365 | integers clamped into 0 to MaxValue, a UInt24 returned as it is, and NotSupportedException for a type no branch names |
| UInt24Struct.CreateTruncatingOf | src/MrKWatkins.BinaryPrimitives/UInt24.cs:1370-1439 | integers modulo 2^24, a UInt24 returned as it is, and NotSupportedException for a type no branch names |
| UInt24Struct.CreateOfAgrees | src/MrKWatkins.BinaryPrimitives/UInt24.cs:1186-1439 | over every modelled source type, where CreateChecked succeeds the saturating and truncating forms give the same UInt24 |
| UInt24Struct.TryConvertFromChecked | src/MrKWatkins.BinaryPrimitives/UInt24.cs:709-749 | a `uint` or `ulong` above MaxValue throws OverflowException, one that fits converts with true, and any other type gives false and 0 |
| UInt24Struct.TryConvertFromSaturating | src/MrKWatkins.BinaryPrimitives/UInt24.cs:752-777 | a `uint` or `ulong` converts clamped to MaxValue with true, and any other type gives false and 0 |
| UInt24Struct.TryConvertFromTruncating | src/MrKWatkins.BinaryPrimitives/UInt24.cs:780-802 | a `uint` or `ulong` converts to its low 24 bits with true, and any other type gives false and 0 |
| UInt24Struct.TryConvertFromAgrees | src/MrKWatkins.BinaryPrimitives/UInt24.cs:709-802 | for `uint` and `ulong` each TryConvertFrom member throws, converts and reports as the Create member of the same kind |
| UInt24Struct.WrappingIsTruncating | src/MrKWatkins.BinaryPrimitives/UInt24.cs:214-326 | wrapping `+`, `-` and unary `-` are CreateTruncating of the exact result |
| UInt24Struct.LeadingZerosMeaning | src/MrKWatkins.BinaryPrimitives/UInt24.cs:1016-1017 | the leading-zero count is n only for 0; otherwise the bit just below it is set and no bit above it is |
| UInt24Struct.TrailingZerosMeaning | src/MrKWatkins.BinaryPrimitives/UInt24.cs:1022-1027 | below n, the trailing-zero count names a set bit with no set bit beneath it |
| UInt24Struct.LeadingZeroCount | src/MrKWatkins.BinaryPrimitives/UInt24.cs:1016-1017 | `uint` leading zeros minus 8: the clear bits above the highest set one among 24, and 24 for zero |
| UInt24Struct.TrailingZeroCount | src/MrKWatkins.BinaryPrimitives/UInt24.cs:1022-1027 | `uint` trailing zeros capped at 24: the clear bits below the lowest set one, and 24 for zero |
| UInt24Struct.PopCount | src/MrKWatkins.BinaryPrimitives/UInt24.cs:1032 | the number of set bits among the 24 |
| UInt24Struct.GetShortestBitLength | src/MrKWatkins.BinaryPrimitives/UInt24.cs:1007-1011 | 32 minus the `int` leading zeros: 0 for zero, otherwise the position of the highest set bit plus one, and the value is below 2^length |
| UInt24Struct.TruncatedRemainder | src/MrKWatkins.BinaryPrimitives/UInt24.cs:1039 | C#'s `%` on `int` truncates towards zero, so the remainder takes the sign of the dividend |
| UInt24Struct.RotateAmount | src/MrKWatkins.BinaryPrimitives/UInt24.cs:1039 | `(k % 24 + 24) % 24` is k modulo 24 in 0 to 23, negative k included |
| UInt24Struct.RotateLeft | src/MrKWatkins.BinaryPrimitives/UInt24.cs:1037-1041 | bit i of the value moves to bit (i + k) mod 24 |
| UInt24Struct.RotateRight | src/MrKWatkins.BinaryPrimitives/UInt24.cs:1046-1050 | bit i of the result comes from bit (i + k) mod 24 |
| UInt24Struct.RotateRoundTrip | src/MrKWatkins.BinaryPrimitives/UInt24.cs:1037-1050 | rotating right undoes rotating left by the same amount, and the other way round |
| UInt24Struct.RotateByMultipleOf24 | src/MrKWatkins.BinaryPrimitives/UInt24.cs:1037-1050 | an amount that is a multiple of 24, negative ones included, leaves the value alone |
| UInt24Struct.EncodedBytes | src/MrKWatkins.BinaryPrimitives/UInt24.cs:1053-1082 | `(byte)v`, `(byte)(v >> 8)` and `(byte)(v >> 16)` are the three-byte little-endian encoding |
| UInt24Struct.TryWriteBigEndian | src/MrKWatkins.BinaryPrimitives/UInt24.cs:1053-1066 | with fewer than 3 bytes it reports 0 and writes nothing; otherwise it splices in the big-endian bytes and reports 3 |
| UInt24Struct.TryWriteLittleEndian | src/MrKWatkins.BinaryPrimitives/UInt24.cs:1069-1082 | with fewer than 3 bytes it reports 0 and writes nothing; otherwise it splices in the little-endian bytes and reports 3 |
| UInt24Struct.AllZero | src/MrKWatkins.BinaryPrimitives/UInt24.cs:1102-1112 | the loop over the extra bytes reports whether every byte in the range is zero |
| UInt24Struct.BigEndianLow | src/MrKWatkins.BinaryPrimitives/UInt24.cs:1085-1132 | the bytes TryReadBigEndian combines, least significant first, hold the value of the whole span when the leading bytes are zero |
| UInt24Struct.LittleEndianLow | src/MrKWatkins.BinaryPrimitives/UInt24.cs:1135-1181 | the bytes TryReadLittleEndian combines hold the value of the whole span when the trailing bytes are zero |
| UInt24Struct.TryReadBigEndian | src/MrKWatkins.BinaryPrimitives/UInt24.cs:1085-1132 | succeeds exactly for a non-empty span that fits in 24 bits and, when signed, has a clear top bit; the value is then the big-endian value |
| UInt24Struct.TryReadLittleEndian | src/MrKWatkins.BinaryPrimitives/UInt24.cs:1135-1181 | the same, for the little-endian value |
| UInt24Struct.ReadWhatWasWritten | src/MrKWatkins.BinaryPrimitives/UInt24.cs:1053-1181 | an unsigned read returns what TryWrite wrote; a signed read refuses exactly the values from 0x800000 |
| Endianness.Encode | src/MrKWatkins.BinaryPrimitives/ByteSpanExtensions.cs:30-33 | the bytes of a value have the type's size |
| Endianness.Decode | src/MrKWatkins.BinaryPrimitives/ByteReadOnlySpanExtensions.cs:30-33 | the value read from the bytes lies in the type's range |
| Endianness.DecodeEncode | src/MrKWatkins.BinaryPrimitives/ByteSpanExtensions.cs:30-58 | decoding the encoding of a value gives the value, in both byte orders |
| Endianness.EncodeDecode | src/MrKWatkins.BinaryPrimitives/ByteSpanExtensions.cs:30-58 | encoding a decoded value gives the same bytes back |
| Endianness.BigIsReversedLittle | src/MrKWatkins.BinaryPrimitives/ByteSpanExtensions.cs:30-58 | big-endian bytes are the little-endian bytes reversed, and they decode accordingly |
| Endianness.ReadUnaligned | src/MrKWatkins.BinaryPrimitives/ByteArrayExtensions.cs:36-39 | an unaligned little-endian-host read is the little-endian value |
| Endianness.WriteUnaligned | src/MrKWatkins.BinaryPrimitives/ByteArrayExtensions.cs:58 | an unaligned write lays out the pattern's bytes least significant first |
| Endianness.ShiftOrBytes | src/MrKWatkins.BinaryPrimitives/ByteIListExtensions.cs:31-34 | the shift-or expression `b0 \| b1 << 8 \| …` is the little-endian value of the bytes |
| Endianness.OrBytesValue | src/MrKWatkins.BinaryPrimitives/ByteIListExtensions.cs:31-34 | or-ing bytes in above an accumulator adds their weighted value |
| Endianness.OrBytesOnes | src/MrKWatkins.BinaryPrimitives/ByteIListExtensions.cs:151-155 | or-ing bytes into bits already all set changes nothing |
| Endianness.MaskedByte | src/MrKWatkins.BinaryPrimitives/ByteIListExtensions.cs:55-66 | `(byte)((u & (0xFF << k)) >> k)` is byte k/8 of the pattern |
| Endianness.EncodeIs | src/MrKWatkins.BinaryPrimitives/ByteSpanExtensions.cs:192-205 | bytes equal to the value's byte lanes are its little-endian encoding, and reversed they are its big-endian encoding |
| Endianness.Store | src/MrKWatkins.BinaryPrimitives/ByteArrayExtensions.cs:58 | a block store changes exactly the positions written |
| Endianness.Splice | src/MrKWatkins.BinaryPrimitives/ByteSpanExtensions.cs:48-58 | a write leaves every position outside its window unchanged and holds the bytes inside it |
| Endianness.ReadBack | src/MrKWatkins.BinaryPrimitives/ByteSpanExtensions.cs:30-58 | reading back the window a write spliced in gives the value written |
| Endianness.SignedDecode | src/MrKWatkins.BinaryPrimitives/ByteReadOnlySpanExtensions.cs:30-33 | a signed read is the two's-complement value of the bytes' pattern |
| Endianness.DecodeNegative | src/MrKWatkins.BinaryPrimitives/ByteReadOnlySpanExtensions.cs:30-33 | a signed read is negative exactly when the most significant byte is 0x80 or more |
| EndianExtensions.ToUInt24 | src/MrKWatkins.BinaryPrimitives/EndianExtensions.cs:22-30 | composes three bytes into the 24-bit value in the given byte order |
| EndianExtensions.ToUInt16 | src/MrKWatkins.BinaryPrimitives/EndianExtensions.cs:40-43 | composes two bytes into the 16-bit value in the given byte order |
| EndianExtensions.ToUInt24Weights | src/MrKWatkins.BinaryPrimitives/EndianExtensions.cs:22-30 | little endian weighs byte0 lowest and big endian highest; big endian is little endian on the reversed bytes |
| EndianExtensions.ToUInt16Weights | src/MrKWatkins.BinaryPrimitives/EndianExtensions.cs:40-43 | the byte weights of both orders |
| EndianExtensions.ToUInt24OfEncoded | src/MrKWatkins.BinaryPrimitives/EndianExtensions.cs:22-30 | composing the three encoded bytes of a value gives the value back |
| EndianExtensions.ToUInt16OfEncoded | src/MrKWatkins.BinaryPrimitives/EndianExtensions.cs:40-43 | composing the two encoded bytes of a value gives the value back |
| ByteReadOnlySpanExtensions.Get | src/MrKWatkins.BinaryPrimitives/ByteReadOnlySpanExtensions.cs:21-158 | every GetX, in either byte order, decodes the type's bytes at the start of the span |
| ByteSpanExtensions.Get | src/MrKWatkins.BinaryPrimitives/ByteSpanExtensions.cs:21-317 | the span reads agree with the read-only span reads |
| ByteSpanExtensions.Set | src/MrKWatkins.BinaryPrimitives/ByteSpanExtensions.cs:40-342 | every SetX writes the encoding of the value at the start and leaves every other byte as it was |
| ByteSpanExtensions.SetUInt24 | src/MrKWatkins.BinaryPrimitives/ByteSpanExtensions.cs:178-205 | the three shifted bytes of the value land in the given byte order |
| ByteSpanExtensions.GetAfterSet | src/MrKWatkins.BinaryPrimitives/ByteSpanExtensions.cs:21-342 | what SetX writes, GetX reads back |
| ByteArrayExtensions.Get | src/MrKWatkins.BinaryPrimitives/ByteArrayExtensions.cs:25-322 | every GetX at an index decodes the type's bytes there |
| ByteArrayExtensions.GetUInt24 | src/MrKWatkins.BinaryPrimitives/ByteArrayExtensions.cs:157-171 | the unaligned `ushort` or-ed with the third byte, or the three shifted bytes, is the 24-bit value in that order |
| ByteArrayExtensions.UnalignedPairOrHigh | src/MrKWatkins.BinaryPrimitives/ByteArrayExtensions.cs:157 | `ReadUnaligned<ushort> \| b2 << 16` is the three-byte little-endian value |
| ByteArrayExtensions.Set | src/MrKWatkins.BinaryPrimitives/ByteArrayExtensions.cs:48-341 | SetX splices the encoding in at the index and changes nothing else |
| ByteArrayExtensions.SetUInt24 | src/MrKWatkins.BinaryPrimitives/ByteArrayExtensions.cs:180-210 | stores the low 24 bits: masked first for little endian, by arithmetic shifts for big endian |
| ByteArrayExtensions.Mask24 | src/MrKWatkins.BinaryPrimitives/ByteArrayExtensions.cs:184 | `value & 0xFFFFFF` on an `int` is the low 24 bits of its pattern |
| ByteArrayExtensions.LowBytes24 | src/MrKWatkins.BinaryPrimitives/ByteArrayExtensions.cs:180-187 | the bytes of the masked value are the little-endian encoding |
| ByteArrayExtensions.HighBytes24 | src/MrKWatkins.BinaryPrimitives/ByteArrayExtensions.cs:197-210 | the bytes taken by arithmetic shifts are the big-endian encoding |
| ByteArrayExtensions.GetAfterSet | src/MrKWatkins.BinaryPrimitives/ByteArrayExtensions.cs:25-341 | what SetX writes at an index, GetX reads back from there |
| ByteArrayExtensions.GetUInt24AfterSetUInt24 | src/MrKWatkins.BinaryPrimitives/ByteArrayExtensions.cs:157-210 | GetUInt24 after SetUInt24 reads `value & 0xFFFFFF` |
| ByteListExtensions.Get | src/MrKWatkins.BinaryPrimitives/ByteListExtensions.cs:25-181 | the read through the list's span at the index decodes the bytes there |
| ByteListExtensions.Set | src/MrKWatkins.BinaryPrimitives/ByteListExtensions.cs:191-334 | the write through the list's span splices in the encoding |
| ByteListExtensions.SetUInt24 | src/MrKWatkins.BinaryPrimitives/ByteListExtensions.cs:257-269 | the 24-bit write stores the low 24 bits |
| ByteListExtensions.GetAfterSet | src/MrKWatkins.BinaryPrimitives/ByteListExtensions.cs:25-334 | what Set writes, Get reads back |
| ByteListExtensions.GetUInt24AfterSetUInt24 | src/MrKWatkins.BinaryPrimitives/ByteListExtensions.cs:97-269 | GetUInt24 after SetUInt24 reads `value & 0xFFFFFF` |
| ByteListExtensions.BigPutsMostSignificantFirst | src/MrKWatkins.BinaryPrimitives/ByteListExtensions.cs:191-334 | a big-endian write puts the most significant byte at the index |
| ByteIListExtensions.Ordered | src/MrKWatkins.BinaryPrimitives/ByteIListExtensions.cs:31-34 | the bytes in the order the shift-or takes them have the value of the bytes in the given byte order |
| ByteIListExtensions.Get | src/MrKWatkins.BinaryPrimitives/ByteIListExtensions.cs:21-412 | every shift-or read except the 64-bit signed one decodes the bytes at the index |
| ByteIListExtensions.GetInt64 | src/MrKWatkins.BinaryPrimitives/ByteIListExtensions.cs:139-155 | the intended 64-bit read decodes all eight bytes |
| ByteIListExtensions.GetInt64AsWritten | src/MrKWatkins.BinaryPrimitives/ByteIListExtensions.cs:139-155 | the read as written: the low four bytes are an `int`, sign-extended when widened to `long`; the result lies in the `long` range |
| ByteIListExtensions.GetInt64AsWrittenAgrees | src/MrKWatkins.BinaryPrimitives/ByteIListExtensions.cs:139-155 | while the fourth least significant byte is below 0x80, the as-written read is right |
| ByteIListExtensions.GetInt64AsWrittenSignExtends | src/MrKWatkins.BinaryPrimitives/ByteIListExtensions.cs:139-155 | once that byte is 0x80 or more, the result is the negative `int` of the low four bytes, whatever the high four hold |
| ByteIListExtensions.GetInt64AsWrittenReadsInt32 | src/MrKWatkins.BinaryPrimitives/ByteIListExtensions.cs:139-155 | in that case the result is what GetInt32 reads from the low-order four bytes |
| ByteIListExtensions.GetInt64AsWrittenRoundTrip | src/MrKWatkins.BinaryPrimitives/ByteIListExtensions.cs:139-199 | reading back what SetInt64 wrote gives the value exactly when bit 31 is clear or the value is a negative `int` |
| ByteIListExtensions.GetInt64AsWrittenCounterexample | src/MrKWatkins.BinaryPrimitives/ByteIListExtensions.cs:139-155 | 0x80000000 is written as 00 00 00 80 00 00 00 00 and read back as -0x80000000 |
| ByteIListExtensions.ByteOf | src/MrKWatkins.BinaryPrimitives/ByteIListExtensions.cs:55-66 | the mask-and-shift of the writers on a signed value's pattern is byte k of the value |
| ByteIListExtensions.SetInt16 | src/MrKWatkins.BinaryPrimitives/ByteIListExtensions.cs:42-66 | the two masked bytes are stored in the given order and nothing else changes |
| ByteIListExtensions.SetUInt16 | src/MrKWatkins.BinaryPrimitives/ByteIListExtensions.cs:420-446 | the two bytes of ToBytes are stored in the given order |
| ByteIListExtensions.SetUInt24 | src/MrKWatkins.BinaryPrimitives/ByteIListExtensions.cs:230-258 | the three shifted bytes are stored in the given order |
| ByteIListExtensions.SetInt32 | src/MrKWatkins.BinaryPrimitives/ByteIListExtensions.cs:97-125 | four masked bytes, the top one masked in `long`, are stored in order |
| ByteIListExtensions.SetUInt32 | src/MrKWatkins.BinaryPrimitives/ByteIListExtensions.cs:289-317 | four masked bytes are stored in order |
| ByteIListExtensions.SetInt64 | src/MrKWatkins.BinaryPrimitives/ByteIListExtensions.cs:163-199 | eight masked bytes are stored in order |
| ByteIListExtensions.SetUInt64 | src/MrKWatkins.BinaryPrimitives/ByteIListExtensions.cs:351-387 | eight masked bytes are stored in order |
| ByteIListExtensions.WriteFour | src/MrKWatkins.BinaryPrimitives/ByteIListExtensions.cs:112-125 | the four element assignments put byte k at index + k, or index + 3 - k for big endian |
| ByteIListExtensions.WriteEight | src/MrKWatkins.BinaryPrimitives/ByteIListExtensions.cs:182-199 | the eight element assignments put byte k at index + k, or index + 7 - k for big endian |
| ByteIListExtensions.Lanes64 | src/MrKWatkins.BinaryPrimitives/ByteIListExtensions.cs:182-199 | the eight masked bytes of a 64-bit pattern, least significant first |
| ByteIListExtensions.GetAfterSet | src/MrKWatkins.BinaryPrimitives/ByteIListExtensions.cs:21-446 | what SetX writes, the matching GetX reads back |
| ByteIReadOnlyListExtensions.CopyTo | src/MrKWatkins.BinaryPrimitives/ByteIReadOnlyListExtensions.cs:22-42 | a start outside the span throws ArgumentOutOfRangeException and a list that does not fit throws ArgumentException, both before writing; otherwise the list is copied at start |
| ByteIReadOnlyListExtensions.Get | src/MrKWatkins.BinaryPrimitives/ByteIReadOnlyListExtensions.cs:53-208 | every read decodes the bytes at the index |
| ByteIReadOnlyListExtensions.GetWord | src/MrKWatkins.BinaryPrimitives/ByteIReadOnlyListExtensions.cs:222-236 | the two bytes at the index, weighted by the byte order |
| ByteIReadOnlyListExtensions.GetInt64AsWritten | src/MrKWatkins.BinaryPrimitives/ByteIReadOnlyListExtensions.cs:107-124 | the same expression as the IList read, in the `long` range |
| ByteIReadOnlyListExtensions.GetInt64AsWrittenDefect | src/MrKWatkins.BinaryPrimitives/ByteIReadOnlyListExtensions.cs:107-124 | right while the sign byte of the low half is below 0x80; otherwise the high four bytes are ignored |
| ReadOnlyListExtensions.CopyTo | src/MrKWatkins.BinaryPrimitives/ReadOnlyListExtensions.cs:26-39 | throws ArgumentException without writing when the list does not fit; otherwise element k goes to position k and the rest is untouched |
| ReadOnlyListExtensions.CopyToAt | src/MrKWatkins.BinaryPrimitives/ReadOnlyListExtensions.cs:18 | a start outside 0 to Length throws ArgumentOutOfRangeException; otherwise this is the copy into the slice |
| ByteICollectionExtensions.ByteCollection.Add | src/MrKWatkins.BinaryPrimitives/ByteICollectionExtensions.cs:16-29 | appends one byte |
| ByteICollectionExtensions.AddUInt16 | src/MrKWatkins.BinaryPrimitives/ByteICollectionExtensions.cs:16-29 | appends the two bytes of ToBytes, least significant first for little endian |
| ByteICollectionExtensions.AddAll | src/MrKWatkins.BinaryPrimitives/ByteICollectionExtensions.cs:36-42 | the buffer's bytes are appended in index order |
| ByteICollectionExtensions.AddValue | src/MrKWatkins.BinaryPrimitives/ByteICollectionExtensions.cs:36-124 | AddInt16, AddInt32, AddUInt32, AddInt64 and AddUInt64 append the value's encoding |
| ByteICollectionExtensions.AddUInt24 | src/MrKWatkins.BinaryPrimitives/ByteICollectionExtensions.cs:49-56 | appends the encoding of the low 24 bits |
| ByteICollectionExtensions.GetAfterAdd | src/MrKWatkins.BinaryPrimitives/ByteICollectionExtensions.cs:36-124 | the appended bytes decode at the old count to the value, and the old contents are kept |
| ByteICollectionExtensions.GetAfterAddUInt24 | src/MrKWatkins.BinaryPrimitives/ByteICollectionExtensions.cs:49-56 | after AddUInt24 the appended bytes decode to `value & 0xFFFFFF` |
| WordExtensions.GetBit | src/MrKWatkins.BinaryPrimitives/WordExtensions.cs:32 | bit index & 31 of the word |
| WordExtensions.MostSignificantByte | src/MrKWatkins.BinaryPrimitives/WordExtensions.cs:41 | the high byte |
| WordExtensions.LeastSignificantByte | src/MrKWatkins.BinaryPrimitives/WordExtensions.cs:50 | the low byte |
| WordExtensions.ToBytes | src/MrKWatkins.BinaryPrimitives/WordExtensions.cs:59 | the pair (high byte, low byte) |
| WordExtensions.SignBit | src/MrKWatkins.BinaryPrimitives/WordExtensions.cs:68 | true exactly from 0x8000 |
| WordExtensions.ToWord | src/MrKWatkins.BinaryPrimitives/WordExtensions.cs:78 | little endian weighs msb low and lsb high; big endian the other way round |
| WordExtensions.ToWordOfBytes | src/MrKWatkins.BinaryPrimitives/WordExtensions.cs:89-92 | the tuple form is ToWord on its two parts |
| WordExtensions.ToWordIsDecode | src/MrKWatkins.BinaryPrimitives/WordExtensions.cs:78 | ToWord is the two-byte read in the given order |
| WordExtensions.ToWordOfToBytes | src/MrKWatkins.BinaryPrimitives/WordExtensions.cs:59-92 | big-endian ToWord undoes ToBytes, and little endian does with the bytes swapped |
| WordExtensions.ToBytesOfToWord | src/MrKWatkins.BinaryPrimitives/WordExtensions.cs:59-92 | ToBytes undoes ToWord |
| WordExtensions.AddWord | src/MrKWatkins.BinaryPrimitives/WordExtensions.cs:100-113 | appends lsb then msb for little endian and msb then lsb for big endian: the two-byte encoding |
| WordExtensions.GetWord | src/MrKWatkins.BinaryPrimitives/WordExtensions.cs:124-138 | the two-byte read at the index in the given order |
| WordExtensions.GetWordAfterAddWord | src/MrKWatkins.BinaryPrimitives/WordExtensions.cs:100-138 | a word appended by AddWord reads back with GetWord at the old count |
| WordExtensions.DidAdditionHalfCarry | src/MrKWatkins.BinaryPrimitives/WordExtensions.cs:179-184 | for the wrapped sum: true exactly when the low 12 bits carry |
| WordExtensions.DidAdditionOverflow | src/MrKWatkins.BinaryPrimitives/WordExtensions.cs:149-153 | for the wrapped sum: true exactly when the signed 16-bit sum does not fit |
| WordExtensions.DidSubtractionHalfBorrow | src/MrKWatkins.BinaryPrimitives/WordExtensions.cs:195-200 | for the wrapped difference: true exactly when the low 12 bits borrow |
| WordExtensions.DidSubtractionOverflow | src/MrKWatkins.BinaryPrimitives/WordExtensions.cs:164-168 | for the wrapped difference: true exactly when the signed 16-bit difference does not fit |
| UShortExtensions.GetBit | src/MrKWatkins.BinaryPrimitives/UShortExtensions.cs:20 | bit index & 31 |
| UShortExtensions.MostSignificantByte | src/MrKWatkins.BinaryPrimitives/UShortExtensions.cs:28 | the high byte |
| UShortExtensions.LeastSignificantByte | src/MrKWatkins.BinaryPrimitives/UShortExtensions.cs:36 | the low byte |
| UShortExtensions.ToBytes | src/MrKWatkins.BinaryPrimitives/UShortExtensions.cs:44 | (high byte, low byte), which recompose to the value |
| UShortExtensions.SignBit | src/MrKWatkins.BinaryPrimitives/UShortExtensions.cs:52 | true exactly from 0x8000 |
| UShortExtensions.DidAdditionOverflow | src/MrKWatkins.BinaryPrimitives/UShortExtensions.cs:62-66 | true exactly when the signed 16-bit sum does not fit |
| UShortExtensions.DidSubtractionOverflow | src/MrKWatkins.BinaryPrimitives/UShortExtensions.cs:76-80 | true exactly when the signed 16-bit difference does not fit |
| UShortExtensions.DidAdditionHalfCarry | src/MrKWatkins.BinaryPrimitives/UShortExtensions.cs:90-95 | true exactly when the low 12 bits carry |
| UShortExtensions.DidSubtractionHalfBorrow | src/MrKWatkins.BinaryPrimitives/UShortExtensions.cs:105-110 | true exactly when the low 12 bits borrow |
| UInt16Extensions.DidAdditionHalfCarry | src/MrKWatkins.BinaryPrimitives/UInt16Extensions.cs:21-26 | true exactly when the low 12 bits carry |
| UInt16Extensions.DidAdditionOverflow | src/MrKWatkins.BinaryPrimitives/UInt16Extensions.cs:36-40 | true exactly when the signed sum does not fit |
| UInt16Extensions.DidSubtractionHalfBorrow | src/MrKWatkins.BinaryPrimitives/UInt16Extensions.cs:50-55 | true exactly when the low 12 bits borrow |
| UInt16Extensions.DidSubtractionOverflow | src/MrKWatkins.BinaryPrimitives/UInt16Extensions.cs:65-69 | true exactly when the signed difference does not fit |
| UInt16Extensions.GetBit | src/MrKWatkins.BinaryPrimitives/UInt16Extensions.cs:78 | bit index & 31 |
| UInt16Extensions.LeastSignificantByte | src/MrKWatkins.BinaryPrimitives/UInt16Extensions.cs:86 | the low byte |
| UInt16Extensions.MostSignificantByte | src/MrKWatkins.BinaryPrimitives/UInt16Extensions.cs:102 | the high byte |
| UInt16Extensions.ToBytes | src/MrKWatkins.BinaryPrimitives/UInt16Extensions.cs:157 | (high byte, low byte) |
| UInt16Extensions.SignBit | src/MrKWatkins.BinaryPrimitives/UInt16Extensions.cs:136 | true exactly from 0x8000 |
| UInt16Extensions.LeftMostBit | src/MrKWatkins.BinaryPrimitives/UInt16Extensions.cs:94 | bit 15, the same as SignBit |
| UInt16Extensions.RightMostBit | src/MrKWatkins.BinaryPrimitives/UInt16Extensions.cs:119 | bit 0: the value is odd |
| UInt16Extensions.ResetBit | src/MrKWatkins.BinaryPrimitives/UInt16Extensions.cs:111 | bit index & 31 cleared, every other bit kept |
| UInt16Extensions.SetBit | src/MrKWatkins.BinaryPrimitives/UInt16Extensions.cs:128 | bit index & 31 set, every other bit kept |
| UInt16Extensions.GetBitAfterSetBit | src/MrKWatkins.BinaryPrimitives/UInt16Extensions.cs:78-128 | after SetBit the bit reads set and after ResetBit clear; every other bit reads as before |
| UInt16Extensions.ToBinaryString | src/MrKWatkins.BinaryPrimitives/UInt16Extensions.cs:143-149 | "0b" and sixteen digits that read back as the value |
| Int16Extensions.GetInt16 | src/MrKWatkins.BinaryPrimitives/Int16Extensions.cs:23-38 | the signed 16-bit value of the two bytes at the index, in either order |
| Int16Extensions.GetInt16OfList | src/MrKWatkins.BinaryPrimitives/Int16Extensions.cs:49-63 | the read through the list's span decodes the two bytes |
| Int16Extensions.ListAgreesWithReadOnlyList | src/MrKWatkins.BinaryPrimitives/Int16Extensions.cs:23-63 | the List and IReadOnlyList overloads read the same value |
| Int32Extensions.GetBit | src/MrKWatkins.BinaryPrimitives/Int32Extensions.cs:20 | bit index & 31 of the two's-complement pattern |
| Int32Extensions.ResetBit | src/MrKWatkins.BinaryPrimitives/Int32Extensions.cs:43 | that bit cleared, every other bit kept |
| Int32Extensions.SetBit | src/MrKWatkins.BinaryPrimitives/Int32Extensions.cs:52 | that bit set, every other bit kept |
| Int32Extensions.GetBitAfterSetBit | src/MrKWatkins.BinaryPrimitives/Int32Extensions.cs:20-52 | after SetBit the bit reads set and after ResetBit clear; the others read as before |
| Int32Extensions.SignBit | src/MrKWatkins.BinaryPrimitives/Int32Extensions.cs:78 | true exactly for negative values |
| Int32Extensions.LeftMostBit | src/MrKWatkins.BinaryPrimitives/Int32Extensions.cs:86 | bit 31, true exactly for negative values |
| Int32Extensions.RightMostBit | src/MrKWatkins.BinaryPrimitives/Int32Extensions.cs:94 | bit 0: the value is odd |
| Int32Extensions.GetBitRangeMask | src/MrKWatkins.BinaryPrimitives/Int32Extensions.cs:111-127 | bounds outside 0 to 31, or reversed, throw ArgumentOutOfRangeException; otherwise exactly bits start to end are set, and the mask is negative when end is 31 |
| Int32Extensions.GetBits | src/MrKWatkins.BinaryPrimitives/Int32Extensions.cs:30-34 | the field of bits start to end moved down; a field reaching bit 31 is sign-extended |
| Int32Extensions.AndInt | src/MrKWatkins.BinaryPrimitives/Int32Extensions.cs:33 | `&` on two `int`s sets exactly the bits set in both patterns |
| Int32Extensions.GetBitsOfSignBit | src/MrKWatkins.BinaryPrimitives/Int32Extensions.cs:30-34 | `int.MinValue.GetBits(31, 31)` is -1 |
| Int32Extensions.SetBits | src/MrKWatkins.BinaryPrimitives/Int32Extensions.cs:63-70 | the field of bits start to end replaced by the low bits of the argument, every other bit kept, with the same bound errors |
| Int32Extensions.GetBitsAfterSetBits | src/MrKWatkins.BinaryPrimitives/Int32Extensions.cs:30-70 | below bit 31, reading a field back gives the low bits written |
| Int32Extensions.SetBitsKeepsOtherBits | src/MrKWatkins.BinaryPrimitives/Int32Extensions.cs:63-70 | writing a field leaves each bit outside it as it was |
| Int32Extensions.ToBinaryString | src/MrKWatkins.BinaryPrimitives/Int32Extensions.cs:101-107 | "0b" and 32 digits of the pattern, which read back as the value |
| Int64Extensions.GetBit | src/MrKWatkins.BinaryPrimitives/Int64Extensions.cs:20 | bit index & 63 of the pattern |
| Int64Extensions.ResetBit | src/MrKWatkins.BinaryPrimitives/Int64Extensions.cs:37 | that bit cleared, every other bit kept |
| Int64Extensions.SetBit | src/MrKWatkins.BinaryPrimitives/Int64Extensions.cs:54 | that bit set, every other bit kept |
| Int64Extensions.GetBitAfterSetBit | src/MrKWatkins.BinaryPrimitives/Int64Extensions.cs:20-54 | set and reset bits read back; the others read as before |
| Int64Extensions.SignBit | src/MrKWatkins.BinaryPrimitives/Int64Extensions.cs:62 | true exactly for negative values |
| Int64Extensions.LeftMostBit | src/MrKWatkins.BinaryPrimitives/Int64Extensions.cs:28 | bit 63, true exactly for negative values |
| Int64Extensions.RightMostBit | src/MrKWatkins.BinaryPrimitives/Int64Extensions.cs:45 | bit 0: the value is odd |
| Int64Extensions.ToBinaryString | src/MrKWatkins.BinaryPrimitives/Int64Extensions.cs:69-76 | "0b", then the two 32-bit halves' digits: the 64 digits of the pattern, which read back as the value |
| UInt32Extensions.GetBit | src/MrKWatkins.BinaryPrimitives/UInt32Extensions.cs:20 | bit index & 31 |
| UInt32Extensions.ResetBit | src/MrKWatkins.BinaryPrimitives/UInt32Extensions.cs:37 | that bit cleared, every other bit kept |
| UInt32Extensions.SetBit | src/MrKWatkins.BinaryPrimitives/UInt32Extensions.cs:54 | that bit set, every other bit kept |
| UInt32Extensions.GetBitAfterSetBit | src/MrKWatkins.BinaryPrimitives/UInt32Extensions.cs:20-54 | set and reset bits read back; the others read as before |
| UInt32Extensions.SignBit | src/MrKWatkins.BinaryPrimitives/UInt32Extensions.cs:62 | true exactly from 0x80000000 |
| UInt32Extensions.LeftMostBit | src/MrKWatkins.BinaryPrimitives/UInt32Extensions.cs:28 | bit 31 |
| UInt32Extensions.RightMostBit | src/MrKWatkins.BinaryPrimitives/UInt32Extensions.cs:45 | bit 0: the value is odd |
| UInt32Extensions.ToBinaryString | src/MrKWatkins.BinaryPrimitives/UInt32Extensions.cs:69-75 | "0b" and 32 digits that read back as the value |
| UInt64Extensions.GetBit | src/MrKWatkins.BinaryPrimitives/UInt64Extensions.cs:20 | bit index & 63 |
| UInt64Extensions.ResetBit | src/MrKWatkins.BinaryPrimitives/UInt64Extensions.cs:37 | that bit cleared, every other bit kept |
| UInt64Extensions.SetBit | src/MrKWatkins.BinaryPrimitives/UInt64Extensions.cs:54 | that bit set, every other bit kept |
| UInt64Extensions.GetBitAfterSetBit | src/MrKWatkins.BinaryPrimitives/UInt64Extensions.cs:20-54 | set and reset bits read back; the others read as before |
| UInt64Extensions.SignBit | src/MrKWatkins.BinaryPrimitives/UInt64Extensions.cs:62 | true exactly from 2^63 |
| UInt64Extensions.LeftMostBit | src/MrKWatkins.BinaryPrimitives/UInt64Extensions.cs:28 | bit 63 |
| UInt64Extensions.RightMostBit | src/MrKWatkins.BinaryPrimitives/UInt64Extensions.cs:45 | bit 0: the value is odd |
| UInt64Extensions.ToBinaryString | src/MrKWatkins.BinaryPrimitives/UInt64Extensions.cs:69-76 | "0b" and 64 digits that read back as the value |
| UInt24Extensions.ToUInt24 | src/MrKWatkins.BinaryPrimitives/UInt24Extensions.cs:31-39 | the same composition as EndianExtensions.ToUInt24 |
| UInt24Extensions.GetUInt24 | src/MrKWatkins.BinaryPrimitives/UInt24Extensions.cs:49-63 | the 24-bit read at the index, in either order |
| UInt24Extensions.SetUInt24 | src/MrKWatkins.BinaryPrimitives/UInt24Extensions.cs:72-100 | stores the encoding of the low 24 bits at the index |
| UInt24Extensions.GetAfterSet | src/MrKWatkins.BinaryPrimitives/UInt24Extensions.cs:49-100 | GetUInt24 after SetUInt24 reads `value & 0xFFFFFF` |
| ByteExtensions.CopyBitsFrom | src/MrKWatkins.BinaryPrimitives/ByteExtensions.cs:21-28 | each bit comes from the source where the mask is set and from the input elsewhere |
| ByteExtensions.DidAdditionHalfCarry | src/MrKWatkins.BinaryPrimitives/ByteExtensions.cs:40-55 | for the wrapped sum: true exactly when the low nibbles carry |
| ByteExtensions.DidAdditionOverflow | src/MrKWatkins.BinaryPrimitives/ByteExtensions.cs:67-81 | for the wrapped sum: true exactly when the signed 8-bit sum does not fit |
| ByteExtensions.DidSubtractionHalfBorrow | src/MrKWatkins.BinaryPrimitives/ByteExtensions.cs:93-97 | for the wrapped difference: true exactly when the low nibbles borrow |
| ByteExtensions.DidSubtractionOverflow | src/MrKWatkins.BinaryPrimitives/ByteExtensions.cs:109-116 | for the wrapped difference: true exactly when the signed 8-bit difference does not fit |
| ByteExtensions.GetBit | src/MrKWatkins.BinaryPrimitives/ByteExtensions.cs:126 | bit index & 31; the indexes 8 to 31 find no bit |
| ByteExtensions.GetBitRangeMask | src/MrKWatkins.BinaryPrimitives/ByteExtensions.cs:147-163 | bounds outside 0 to 7, or reversed, throw ArgumentOutOfRangeException; otherwise exactly bits start to end are set |
| ByteExtensions.GetBits | src/MrKWatkins.BinaryPrimitives/ByteExtensions.cs:138-143 | the field of bits start to end, moved down |
| ByteExtensions.SetBits | src/MrKWatkins.BinaryPrimitives/ByteExtensions.cs:248-255 | the field replaced by the low bits of the argument, every other bit kept, with the same bound errors |
| ByteExtensions.GetBitsAfterSetBits | src/MrKWatkins.BinaryPrimitives/ByteExtensions.cs:138-255 | reading a field back gives the low bits written |
| ByteExtensions.SetBitsKeepsOtherBits | src/MrKWatkins.BinaryPrimitives/ByteExtensions.cs:248-255 | writing a field leaves each bit outside it as it was |
| ByteExtensions.HighNibble | src/MrKWatkins.BinaryPrimitives/ByteExtensions.cs:173 | value / 16 |
| ByteExtensions.LowNibble | src/MrKWatkins.BinaryPrimitives/ByteExtensions.cs:193 | value % 16; the two nibbles recompose the byte |
| ByteExtensions.SetHighNibble | src/MrKWatkins.BinaryPrimitives/ByteExtensions.cs:266 | the low four bits of the nibble over the kept low nibble |
| ByteExtensions.SetLowNibble | src/MrKWatkins.BinaryPrimitives/ByteExtensions.cs:277 | the kept high nibble over the low four bits of the argument |
| ByteExtensions.NibbleRoundTrip | src/MrKWatkins.BinaryPrimitives/ByteExtensions.cs:173-277 | each nibble setter stores its argument's low four bits, which the getter reads back, and keeps the other nibble |
| ByteExtensions.LeftMostBit | src/MrKWatkins.BinaryPrimitives/ByteExtensions.cs:183 | true exactly from 0x80 |
| ByteExtensions.SignBit | src/MrKWatkins.BinaryPrimitives/ByteExtensions.cs:287 | true exactly when the byte read as `sbyte` is negative |
| ByteExtensions.RightMostBit | src/MrKWatkins.BinaryPrimitives/ByteExtensions.cs:224 | bit 0: the value is odd |
| ByteExtensions.Parity | src/MrKWatkins.BinaryPrimitives/ByteExtensions.cs:203 | true exactly when an even number of bits are set |
| ByteExtensions.ResetBit | src/MrKWatkins.BinaryPrimitives/ByteExtensions.cs:214 | bit index & 31 cleared, every other bit kept |
| ByteExtensions.SetBit | src/MrKWatkins.BinaryPrimitives/ByteExtensions.cs:235 | bit index & 31 set, every other bit kept |
| ByteExtensions.GetBitAfterSetBit | src/MrKWatkins.BinaryPrimitives/ByteExtensions.cs:126-235 | set and reset bits read back; the others read as before |
| ByteExtensions.ParityOfSetBit | src/MrKWatkins.BinaryPrimitives/ByteExtensions.cs:203-235 | setting a clear bit flips the parity |
| ByteExtensions.ToBinaryString | src/MrKWatkins.BinaryPrimitives/ByteExtensions.cs:296-302 | "0b" and eight digits that read back as the value |
| BinaryStringHelper.BinaryDigits | src/MrKWatkins.BinaryPrimitives/BinaryStringHelper.cs:36-83 | n digits, the digit at position k standing for bit n - 1 - k |
| BinaryStringHelper.BinaryValueOfDigits | src/MrKWatkins.BinaryPrimitives/BinaryStringHelper.cs:36-83 | the digits read back give the value modulo 2^n |
| BinaryStringHelper.DigitsAreBinary | src/MrKWatkins.BinaryPrimitives/BinaryStringHelper.cs:36-83 | every digit is '0' or '1' |
| BinaryStringHelper.LaneDigit | src/MrKWatkins.BinaryPrimitives/BinaryStringHelper.cs:36-52 | the lane with mask 2^j writes the digit of bit j |
| BinaryStringHelper.WriteLanes | src/MrKWatkins.BinaryPrimitives/BinaryStringHelper.cs:36-52 | a vector of lanes writes the w digits at start and leaves every other character alone |
| BinaryStringHelper.WriteByteChars | src/MrKWatkins.BinaryPrimitives/BinaryStringHelper.cs:36-52 | writes the eight digits of the byte at start and nothing else |
| BinaryStringHelper.WriteUInt16Chars | src/MrKWatkins.BinaryPrimitives/BinaryStringHelper.cs:56-66 | writes the sixteen digits at start and nothing else |
| BinaryStringHelper.WriteUInt32Chars | src/MrKWatkins.BinaryPrimitives/BinaryStringHelper.cs:70-83 | writes the upper then the lower half: the 32 digits at start and nothing else |
| BinaryStringHelper.BinaryStringOf | src/MrKWatkins.BinaryPrimitives/BinaryStringHelper.cs:16-32 | the created string is "0b" and the digits, which read back as the value modulo 2^n |
| CarryFlags.HalfCarryOfSum | src/MrKWatkins.BinaryPrimitives/ByteExtensions.cs:40-55 | for a wrapped n-bit sum, the half-carry formula holds exactly when the low k bits carry |
| CarryFlags.HalfBorrowOfDifference | src/MrKWatkins.BinaryPrimitives/ByteExtensions.cs:93-97 | for a wrapped difference, the same formula holds exactly when the low k bits borrow |
| CarryFlags.OverflowOfSum | src/MrKWatkins.BinaryPrimitives/ByteExtensions.cs:67-81 | the addition overflow formula holds exactly when the signed sum does not fit in n bits |
| CarryFlags.OverflowOfDifference | src/MrKWatkins.BinaryPrimitives/ByteExtensions.cs:109-116 | the subtraction overflow formula holds exactly when the signed difference does not fit |
| BitOps.TestBitIsBit | src/MrKWatkins.BinaryPrimitives/Int32Extensions.cs:20 | `(value & (1 << k)) != 0` reads bit k |
| BitOps.WithBitBits | src/MrKWatkins.BinaryPrimitives/Int32Extensions.cs:52 | `value \| (1 << k)` sets bit k and keeps the others |
| BitOps.WithoutBitBits | src/MrKWatkins.BinaryPrimitives/Int32Extensions.cs:43 | `value & ~(1 << k)` clears bit k and keeps the others |
| BitOps.RangeMask | src/MrKWatkins.BinaryPrimitives/Int32Extensions.cs:126 | `(1 << (e + 1)) - (1 << s)` has exactly bits s to e set |
| BitOps.MaskedField | src/MrKWatkins.BinaryPrimitives/ByteExtensions.cs:138-143 | masking and shifting down extracts the field |
| BitOps.PlaceFieldBits | src/MrKWatkins.BinaryPrimitives/ByteExtensions.cs:248-255 | the field of bits s to e takes the low bits of v, and the rest of x is kept |
| BitOps.MergeBits | src/MrKWatkins.BinaryPrimitives/ByteExtensions.cs:21-28 | the merge takes the source where the mask is set and the input elsewhere |
| ReadOnlyListStreams.Wrap64 | src/MrKWatkins.BinaryPrimitives/ReadOnlyListStream.cs:43-56 | an unchecked `long` sum wraps into the `long` range, leaving values already in range alone |
| ReadOnlyListStreams.WrapKeepsRange | src/MrKWatkins.BinaryPrimitives/ReadOnlyListStream.cs:43-56 | the wrapped seek target lies in 0 to Count - 1 exactly when the exact one does |
| ReadOnlyListStreams.ReadOnlyListStream.constructor | src/MrKWatkins.BinaryPrimitives/ReadOnlyListStream.cs:10-13 | the stream starts at position 0 over the given list, not disposed |
| ReadOnlyListStreams.ReadOnlyListStream.Read | src/MrKWatkins.BinaryPrimitives/ReadOnlyListStream.cs:16-40 | disposed throws ObjectDisposedException; an offset outside the buffer or a negative count throws ArgumentOutOfRangeException; otherwise it copies min(count, remaining) bytes to the buffer and advances the cursor by that; only a call past the disposal and argument checks needs a buffer that holds the bytes copied |
| ReadOnlyListStreams.ReadOnlyListStream.Seek | src/MrKWatkins.BinaryPrimitives/ReadOnlyListStream.cs:43-56 | Begin, Current and End give `offset`, `position + offset` and `Count - 1 - offset`; the Position setter validates the target; an unknown origin throws |
| ReadOnlyListStreams.ReadOnlyListStream.GetPosition | src/MrKWatkins.BinaryPrimitives/ReadOnlyListStream.cs:99-104 | the cursor, or ObjectDisposedException once disposed |
| ReadOnlyListStreams.ReadOnlyListStream.SetPosition | src/MrKWatkins.BinaryPrimitives/ReadOnlyListStream.cs:105-115 | only 0 to Count - 1 is accepted; other values throw ArgumentOutOfRangeException and leave the cursor |
| ReadOnlyListStreams.ReadOnlyListStream.CanRead | src/MrKWatkins.BinaryPrimitives/ReadOnlyListStream.cs:59-68 | true until disposed, then it throws |
| ReadOnlyListStreams.ReadOnlyListStream.CanSeek | src/MrKWatkins.BinaryPrimitives/ReadOnlyListStream.cs:69-78 | true until disposed, then it throws |
| ReadOnlyListStreams.ReadOnlyListStream.CanWrite | src/MrKWatkins.BinaryPrimitives/ReadOnlyListStream.cs:79-88 | false until disposed, then it throws |
| ReadOnlyListStreams.ReadOnlyListStream.GetLength | src/MrKWatkins.BinaryPrimitives/ReadOnlyListStream.cs:89-96 | the list's Count until disposed |
| ReadOnlyListStreams.ReadOnlyListStream.NotWriteable | src/MrKWatkins.BinaryPrimitives/ReadOnlyListStream.cs:136-149 | ObjectDisposedException once disposed, otherwise NotSupportedException |
| ReadOnlyListStreams.ReadOnlyListStream.Flush | src/MrKWatkins.BinaryPrimitives/ReadOnlyListStream.cs:118 | always throws, and changes nothing |
| ReadOnlyListStreams.ReadOnlyListStream.SetLength | src/MrKWatkins.BinaryPrimitives/ReadOnlyListStream.cs:120 | always throws, and changes nothing |
| ReadOnlyListStreams.ReadOnlyListStream.Write | src/MrKWatkins.BinaryPrimitives/ReadOnlyListStream.cs:122-124 | always throws, and changes nothing |
| ReadOnlyListStreams.ReadOnlyListStream.Dispose | src/MrKWatkins.BinaryPrimitives/ReadOnlyListStream.cs:127-134 | disposing sets the flag; the list and the cursor are kept |
| Streams.Available | src/MrKWatkins.BinaryPrimitives/ReadOnlyListStream.cs:30-38 | a read copies the count, capped by the bytes left, and nothing at or past the end |
| Streams.Segment | src/MrKWatkins.BinaryPrimitives/ReadOnlyListStream.cs:30-38 | the k bytes from the position |
| PeekableStreams.NextByte | src/MrKWatkins.BinaryPrimitives/PeekableStream.cs:36-42 | the byte at the position, or -1 exactly at or past the end |
| PeekableStreams.Decrement | src/MrKWatkins.BinaryPrimitives/PeekableStream.cs:66 | the unchecked `count - 1`, which wraps at `int.MinValue` |
| PeekableStreams.AvailableAfterOne | src/MrKWatkins.BinaryPrimitives/PeekableStream.cs:61-71 | one byte and then up to count - 1 more is as much as a read of up to count |
| PeekableStreams.CachedReadIsPlain | src/MrKWatkins.BinaryPrimitives/PeekableStream.cs:61-71 | the read that starts with the cached byte is the plain read from its position |
| PeekableStreams.PeekableStream.constructor | src/MrKWatkins.BinaryPrimitives/PeekableStream.cs:21-29 | wraps a readable stream with nothing cached |
| PeekableStreams.PeekableStream.Read | src/MrKWatkins.BinaryPrimitives/PeekableStream.cs:50-72 | disposed throws; a cached end reads 0; nothing cached reads straight through; a cached byte goes first, then the wrapped read of count - 1, and the result is the plain read from the reported position |
| PeekableStreams.PeekableStream.ReadThrough | src/MrKWatkins.BinaryPrimitives/PeekableStream.cs:59 | the wrapped stream's read, outcome and all |
| PeekableStreams.PeekableStream.ReadCached | src/MrKWatkins.BinaryPrimitives/PeekableStream.cs:61-71 | the cached byte goes to buffer[offset] and the cache is cleared; count 1 stops there, otherwise the wrapped read fills the rest, with 1 added to its count |
| PeekableStreams.PeekableStream.ReadByte | src/MrKWatkins.BinaryPrimitives/PeekableStream.cs:50-72 | the base one-byte read: the cached byte, else the next byte or -1 at the end |
| PeekableStreams.PeekableStream.Peek | src/MrKWatkins.BinaryPrimitives/PeekableStream.cs:36-42 | the next byte or -1, which is remembered; the reported position does not move |
| PeekableStreams.PeekableStream.EndOfStream | src/MrKWatkins.BinaryPrimitives/PeekableStream.cs:47 | true exactly when Peek returns -1 |
| PeekableStreams.PeekableStream.Seek | src/MrKWatkins.BinaryPrimitives/PeekableStream.cs:75-81 | empties the cache, then moves the wrapped stream |
| PeekableStreams.PeekableStream.GetPosition | src/MrKWatkins.BinaryPrimitives/PeekableStream.cs:84-92 | the wrapped position, less one while a byte is cached |
| PeekableStreams.PeekableStream.SetPosition | src/MrKWatkins.BinaryPrimitives/PeekableStream.cs:93-101 | empties the cache, then sets the wrapped position |
| PeekableStreams.PeekableStream.CanRead | src/MrKWatkins.BinaryPrimitives/PeekableStream.cs:104 | false once disposed, otherwise whether the wrapped stream is open and readable; a readable stream also seeks |
| PeekableStreams.PeekableStream.CanSeek | src/MrKWatkins.BinaryPrimitives/PeekableStream.cs:107 | false once disposed, otherwise whether the wrapped stream is open |
| PeekableStreams.PeekableStream.CanWrite | src/MrKWatkins.BinaryPrimitives/PeekableStream.cs:110 | always false |
| PeekableStreams.PeekableStream.GetLength | src/MrKWatkins.BinaryPrimitives/PeekableStream.cs:113-120 | the wrapped length until disposed |
| PeekableStreams.PeekableStream.Flush | src/MrKWatkins.BinaryPrimitives/PeekableStream.cs:123 | only the disposal check |
| PeekableStreams.PeekableStream.NotWriteable | src/MrKWatkins.BinaryPrimitives/PeekableStream.cs:126-129 | ObjectDisposedException once disposed, otherwise NotSupportedException |
| PeekableStreams.PeekableStream.SetLength | src/MrKWatkins.BinaryPrimitives/PeekableStream.cs:126 | always throws, and changes nothing |
| PeekableStreams.PeekableStream.Write | src/MrKWatkins.BinaryPrimitives/PeekableStream.cs:129 | always throws, and changes nothing |
| PeekableStreams.PeekableStream.Dispose | src/MrKWatkins.BinaryPrimitives/PeekableStream.cs:132-143 | the first call marks the stream disposed and closes the wrapped stream unless it is left open; later calls change nothing |
| PeekableStreams.Create | src/MrKWatkins.BinaryPrimitives/PeekableStream.cs:21-29 | a stream that cannot read is refused with ArgumentException; otherwise a new peekable stream with nothing cached |
| DocMacros.Lines | doc/main.py:47 | `s.split("\n")` has at least one piece |
| DocMacros.LinesOfJoin | doc/main.py:47 | joining newline-free lines with "\n" and splitting again gives the lines back |
| DocMacros.Indent | doc/main.py:57 | four spaces per level |
| DocMacros.OutlineAppend | doc/main.py:55-68 | the lines of a concatenation are the lines of each part in turn |
| DocMacros.OutlineLength | doc/main.py:55-68 | one line per section and per page other than the home page |
| DocMacros.OutlineIndented | doc/main.py:55-68 | every line at depth d starts with d indents and a two-character bullet |
| DocMacros.OutlineNoNewline | doc/main.py:55-68 | titles and paths without newlines give lines without newlines |
| DocMacros.Render | doc/main.py:53-70 | a well-typed tree renders to its pre-order outline; an item of another kind at any depth raises |
| DocMacros.RenderItem | doc/main.py:56-68 | one item: a section line and its children one level deeper, a page line unless it is the home page, or the error for any other kind |
| DocMacros.GlobalNav | doc/main.py:12-21 | no tree or an empty one gives the fixed message; otherwise the outline joined with newlines, or the renderer's error |
| DocMacros.NavigationLines | doc/main.py:12-21 | the navigation splits back into one line per entry |
| DocMacros.Cells | doc/main.py:43-45 | the row's values in header order, "" for a missing key |
| DocMacros.FirstNone | doc/main.py:45 | the first `None` cell, where `str.join` raises |
| DocMacros.TableRows | doc/main.py:43-45 | the row loop gives the rows in file order, or the first record's error |
| DocMacros.RaisesLater | doc/main.py:43-45 | once a record raises, the whole loop raises that error |
| DocMacros.RowLinesOfTexts | doc/main.py:43-45 | with no `None` cell there is one row per record with its fields in header order |
| DocMacros.RowLineOfTexts | doc/main.py:45 | a record of strings renders as its fields, "" where missing |
| DocMacros.Table | doc/main.py:24-50 | a missing file gives the not-found message and no records the fixed notice; a record that raises makes the table the rendering error; otherwise the table is the intended one, missing fields as empty cells |
| DocMacros.VocabularyTable | doc/main.py:24-50 | a missing file gives the not-found message, no records give the fixed notice, otherwise the header, the separator and the rows, or the rendering error |
| DocMacros.TableShape | doc/main.py:39-47 | with every field present and no newlines, the table splits into the header, a separator with one `---` per field name, and one row per record |
| DocMacros.TableLines | doc/main.py:47 | the joined table splits back into its lines |
| DocMacros.FieldsNoNewline | doc/main.py:45 | a row of newline-free fields holds no newline |
| DocMacros.ShortRecordFails | doc/main.py:33-45 | a record lacking a field makes the whole table an error message |
| DocMacros.IntendedTable | doc/main.py:24-47 | the corrected table: the same messages for a missing file or no records, otherwise the header, the separator and one row per record with every missing field as "" |
| DocMacros.RowLinesReturns | doc/main.py:43-45 | when no record raises, the row loop gives each record's fields in header order with "" where absent |
| DocMacros.IntendedTableShape | doc/main.py:39-47 | the corrected table has that shape for any records |

## Left out

- Floating point: the `Half`, `float`, `double` and `decimal` conversions of UInt24, and their branches in CreateChecked, CreateSaturating and CreateTruncating, are not modelled.
- Also not modelled in UInt24, because each is a call into .NET on the `uint` field: parsing, formatting, `GetHashCode`, `IsPow2` and `Log2`.
- UInt24 `Equals(UInt24)`, `==` and `!=` compare the `uint` field. In the model a UInt24 is its number, so they are Dafny's own `==`. The comparison operators `<`, `<=`, `>` and `>=` are Dafny's too.
- UInt24's `Is*` members other than IsEvenInteger and IsOddInteger are not modelled. Most are a fixed `true` or `false` (IsCanonical, IsFinite, IsInteger, IsNaN, IsNegative, …). IsZero and IsNormal compare the field with 0. None of them keeps state or branches on more than that.
- `TryConvertTo*`, and the `nint`/`nuint` branches of `TryConvertFrom*`, CreateChecked, CreateSaturating and CreateTruncating, are not modelled. Native integers have no fixed width to model them at.
- UInt24Struct.CreateChecked, CreateSaturating, CreateTruncating: these take only the eight integer types. The UInt24 identity branch and the NotSupportedException fallback are in CreateCheckedOf, CreateSaturatingOf and CreateTruncatingOf, whose `Unlisted` stands for every type that no branch names.
- The implicit widenings from UInt24 to `uint`, `int`, `long` and `ulong` are not modelled: in Dafny a UInt24 already is its number.
- The SIMD lanes of BinaryStringHelper are modelled one lane at a time. The vector registers and the vector-to-`ushort` narrowing are not modelled.
- UInt16Extensions.ToBinaryString: the source calls a `WriteWordChars` that BinaryStringHelper.cs does not define. The model uses its 16-bit writer, WriteUInt16Chars.
- The host byte order is fixed to little endian, as on every platform .NET supports. The static constructors that check it are not modelled.
- StreamExtensions, ReadOnlyMemoryExtensions, ArrayExtensions, BoolExtensions, IntExtensions and ByteByteTupleExtensions are not part of this model.
- Streams.MemoryStream: the stream that PeekableStream wraps is a simplified .NET MemoryStream over fixed contents. It models reading, seeking and closing only.
- ByteICollectionExtensions.AddUInt24, ByteListExtensions.SetUInt24: the conversion from the `int` argument to UInt24 is taken to keep the low 24 bits. That conversion is not visible in these files.
- PeekableStreams.PeekableStream.Read: a read of count 0 with a byte cached writes that byte and loses it. The wrapped read of count -1 then throws. The model keeps this behaviour.
- PeekableStreams.PeekableStream.Seek: a seek that fails still drops the cached byte. The model keeps this too.
- PeekableStreams.PeekableStream.CanRead: after disposal, CanRead and CanSeek return false instead of throwing; Flush only checks disposal. The model follows the code, not the tests that expect otherwise.
- ReadOnlyListStreams.ReadOnlyListStream.Seek: the End origin targets `Count - 1 - offset`, not `Count + offset`. The model follows the code.
- ReadOnlyListStreams.ReadOnlyListStream.SetPosition: the end position that a full read reaches cannot be set, and an empty list accepts no position at all. The model follows the code.
- The byte readers and writers require the bytes they touch to lie inside the buffer. These are ByteReadOnlySpanExtensions.Get; ByteSpanExtensions.Get, Set and SetUInt24; ByteArrayExtensions.Get, GetUInt24, Set and SetUInt24; ByteListExtensions.Get, Set and SetUInt24; ByteIListExtensions.Get, GetInt64, GetInt64AsWritten and every Set…; ByteIReadOnlyListExtensions.Get, GetWord and GetInt64AsWritten; Int16Extensions.GetInt16 and GetInt16OfList; UInt24Extensions.GetUInt24 and SetUInt24; and WordExtensions.GetWord. The source does one of three things with a short buffer, and the model captures none of them:
  - It throws ArgumentOutOfRangeException or IndexOutOfRangeException before writing anything. This is what `MemoryMarshal.Read`, the `BinaryPrimitives` readers and writers behind every overload that takes an Endian, `AsSpan(index)` and the list and array indexers of the readers do.
  - It writes the bytes in front of the failing index and then throws. This is what the writers that store one byte at a time do: the `IList<byte>` Set… methods and the UInt24 writers on arrays, spans, lists and UInt24Extensions.
  - It does not check at all. `Unsafe.ReadUnaligned` and `Unsafe.WriteUnaligned`, in the array readers and the span writers without an Endian, go past the buffer once the first index is valid. So does `Unsafe.Add` in ReadOnlyListStreams.ReadOnlyListStream.Read, once its disposal and argument checks pass. The model excludes this undefined behaviour.
- Concurrency is not modelled, and neither are reference identity of lists beyond the single array or collection passed in.
- `doc/main.py`: the mkdocs macro registration, logging, reading the CSV file from disk and `read_source` are not modelled. The parsed file is a parameter.
- DocMacros.Render: the text of the error raised for an item of an unknown kind is not modelled, only that it raises.
- DocMacros.VocabularyTable: only the `TypeError` that `str.join` raises is modelled among the exceptions that `except Exception` catches.
- `doc/hooks.py` is not part of this model.

## Findings

| source | as written | input that shows it | evidently intended | confidence | as-written member | corrected member |
|---|---|---|---|---|---|---|
| src/MrKWatkins.BinaryPrimitives/ByteIListExtensions.cs:139-155 | `GetInt64` or-s `b0 \| b1 << 8 \| b2 << 16 \| b3 << 24`, an `int`, into a `long`; the `int` is sign-extended, which sets bits 32 to 63 | a list holding 00 00 00 80 00 00 00 00, little endian, as SetInt64 writes 0x80000000; it reads back as -0x80000000 | the eight bytes decoded as a `long`, so that GetInt64 undoes SetInt64 | not executed | ByteIListExtensions.GetInt64AsWrittenCounterexample | ByteIListExtensions.GetInt64 |
| src/MrKWatkins.BinaryPrimitives/ByteIReadOnlyListExtensions.cs:107-124 | the same expression in the IReadOnlyList overload | the same bytes | the same decode | not executed | ByteIReadOnlyListExtensions.GetInt64AsWrittenDefect | ByteIReadOnlyListExtensions.Get |
| doc/main.py:33-45 | `csv.DictReader` fills a short record's missing fields with `None`; `row.get(h, "")` returns that `None`; `" \| ".join` raises, and the whole table becomes an error | fields `word,meaning` and a record `bit` with no meaning | a missing field renders as an empty cell | not executed | DocMacros.ShortRecordFails | DocMacros.IntendedTable |
