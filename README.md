# Cranky.BitSerializer, modelled in Dafny

Cranky.BitSerializer packs integers and booleans into a byte buffer at bit
granularity. Bits are numbered from the most significant bit of the first
byte, and a value of n bits is laid out most significant bit first. The
library has three layers:

- `BitSpan` and `ReadOnlyBitSpan`: a window of bits over a byte slice. A span
  is the slice, a bit offset below 8 into its first byte, and a length in
  bits. Its operations are the constructor, `Slice`, `Split`, the conversion
  to read-only, and `ReadAs<T>` / `Write<T>`. These move the bits of one
  integer value in and out of the window, one byte at a time, using the masks
  of `BitIndexMapping`.
- `BitReader` and `BitWriter`: codecs over a `ref` span. Each call splits off
  the bits it needs, reads or writes them, and leaves the span just past them.
  The layer covers `ReadBinary` / `WriteBinary`, the fixed- and variable-width
  integer readers and writers for the eight integer types, booleans, and
  arrays.

The model is organised as follows:

- The buffer is a Dafny `array<byte>`.
- A span is a value (`BitSpan.Span`: first byte, byte count, bit offset,
  length). Both span types share it. The read-only type differs only in that
  its operations have no `modifies` clause.
- A `ref span` parameter becomes the span a codec returns.
- An exception becomes the `Err`/`Fail` case of a result, carrying the
  exception type.
- A value of T is handled as its bit pattern, a natural number below
  2^width. `IntTypes.ToBits`/`FromBits` give the two's complement reading.

The meaning of the buffer is given bit by bit:

- `BitString.Bits(buf, a, n)` is the number held in bits [a, a+n).
- `BitString.Written(buf', buf, a, n, v)` says that buf' is buf with those
  bits replaced by the low n bits of v, and every other bit kept.

`ReadAs` and `Write` are the byte-loop methods of the source. Their
postconditions tie the loop result to these two definitions.

Files:

- `Bitwise.dfy`: `&`, `|`, `~`, shifts and powers of two on naturals.
- `BitString.dfy`: the bit-level meaning of a buffer.
- `BitSpan.dfy`, `ReadOnlyBitSpan.dfy`, `BitIndexMapping.dfy` and
  `SpanBytes.dfy`: the span layer. `SpanBytes.dfy` holds the byte-level
  lemmas that the byte loops use.
- `IntTypes.dfy`: the integer types.
- `Codec.dfy`, `BitReader.dfy` and `BitWriter.dfy`: the codecs.
- `RoundTrips.dfy`: write-then-read properties.
- `Findings.dfy`: the constructor, the slices and the bit index mapping as written, on negative lengths.

## Model

| member | source | states |
|---|---|---|
| BitSpan.New | Cranky.BitSerializer/BitSpan.cs:14-29 | Succeeds exactly when offset >= 0, length >= 0 and offset + length fits in the slice's bits. Otherwise it gives ArgumentOutOfRange. The span starts at bit `offset` of the slice, with whole bytes of the offset moved into the slice start. It keeps the length and ends where the slice ends. The length check is the corrected one (see Findings). The read-only constructor (ReadOnlyBitSpan.cs:14-29) is the same code, so it has the same contract. |
| BitSpan.Slice | Cranky.BitSerializer/BitSpan.cs:39-49 | Overflow exactly when offset + skipBits + length exceeds the slice's capacity. The check is against the bytes, not against Length. Succeeds exactly when the new span fits and starts at or after the slice's first bit. The result starts skipBits bits later, has the given length and the same end. A negative length is a range error because the corrected constructor refuses it; as written it is accepted (see Findings, Findings.SliceAsWritten). The read-only span runs the same code (ReadOnlyBitSpan.cs:39-49). |
| BitSpan.SliceRest | Cranky.BitSerializer/BitSpan.cs:32-36 | `span[skipBits..]` succeeds exactly when -offset <= skipBits <= Length. The result starts skipBits later and is Length - skipBits long. The read-only span runs the same code (ReadOnlyBitSpan.cs:32-36). |
| BitSpan.Split | Cranky.BitSerializer/BitSpan.cs:52-64 | Range error unless 0 <= offset <= Length. The left half holds the first `offset` bits and starts where the span starts. The right half holds the rest and starts exactly `offset` bits later. Both lie inside the span's bytes. The read-only span runs the same code (ReadOnlyBitSpan.cs:52-64). |
| BitSpan.SplitContents | Cranky.BitSerializer/BitSpan.cs:52-64 | The bits of a span are its left half's bits followed by its right half's: the value equals left * 2^(right length) + right. |
| BitSpan.SliceRestContents | Cranky.BitSerializer.Tests/BitSpan_Slice_Tests.cs:30-47 | After `span[k..]` the contents are the span's contents modulo 2^(Length-k), i.e. its low Length-k bits. |
| BitSpan.SliceToEnd | Cranky.BitSerializer.Tests/BitSpan_Slice_Tests.cs:8-15 | Slicing at Length succeeds and gives a span of length 0. |
| BitSpan.ToReadOnly | Cranky.BitSerializer/BitSpan.cs:66-67 | The conversion to ReadOnlyBitSpan rebuilds the span through the constructor and always gives back the same slice, offset and length. |
| BitSpan.ReadAs | Cranky.BitSerializer/BitSpan.cs:69-113 | The masked first byte, the whole middle bytes and the shifted last byte, or the one masked byte, combine to exactly the span's Length bits read most significant first. Length 0 reads 0. |
| BitSpan.Write | Cranky.BitSerializer/BitSpan.cs:115-158 | Afterwards the buffer is the old buffer with the span's bits replaced by the low Length bits of the value. Every other bit, including the neighbours in the first and last byte, is unchanged. Length 0 changes nothing. |
| BitSpan.WriteInOneByte | Cranky.BitSerializer/BitSpan.cs:123-135 | The single-byte branch of Write gives the same result. |
| BitSpan.ReadAsBits | Cranky.BitSerializer/BitSpan.cs:194-195 | `ReadAs<T>(numBits)` reads the first numBits bits. It fails exactly when numBits exceeds the slice's capacity (overflow) or is negative (range error). The negative case follows the corrected constructor; as written, `span[..numBits]` accepts it (see Findings). |
| BitSpan.WriteBits | Cranky.BitSerializer/BitSpan.cs:197-198 | `Write(value, numBits)` writes the low numBits bits at the span's start. It has the same errors as ReadAsBits, and the buffer is untouched on error. As with ReadAsBits, a negative numBits is a range error under the corrected constructor (see Findings). |
| ReadOnlyBitSpan.ReadAs | Cranky.BitSerializer/ReadOnlyBitSpan.cs:66-109 | The read-only byte loop reads exactly the span's bits, as BitSpan.ReadAs does. |
| ReadOnlyBitSpan.ReadAsBits | Cranky.BitSerializer/ReadOnlyBitSpan.cs:117-118 | The read-only `ReadAs<T>(numBits)`, with the same contract as BitSpan.ReadAsBits, including the negative case that follows the corrected constructor (see Findings). |
| BitIndexMapping.From | Cranky.BitSerializer/BitSpan.cs:171-183 | The first byte's mask keeps its low 8-offset bits. The last byte's padding is below 8, and its mask keeps everything above the padding. numBytes is the number of bytes the bits touch: 8*numBytes = offset + length + last padding. There is one byte exactly when offset + length <= 8. |
| BitIndexMapping.ByteMapping.NumBits | Cranky.BitSerializer/BitSpan.cs:186-189 | 8 - Padding, between 0 and 8 for a padding of at most 8. |
| Codec.AdvanceTwice | Cranky.BitSerializer/BitReader.cs:8-16 | Two codec calls in a row consume consecutive bits. Their values are the two parts of the bits read at once, and the span moves by the sum. |
| Codec.ItemAt | Cranky.BitSerializer/BitReader.Array.cs:16-17 | Item k of an array read is the k-th run of numBits bits from the span's start. |
| BitReader.ReadBinary | Cranky.BitSerializer/BitReader.cs:8-27 | Succeeds exactly when 0 <= numBits <= Length, otherwise ArgumentOutOfRange. Gives the first numBits bits and leaves the span just past them. The ReadOnlyBitSpan overload (lines 19-27) has the same contract, through ReadOnlyBitSpan.ReadAs. |
| BitReader.Interpret | Cranky.BitSerializer/BitReader.Integer.cs:5 | A pattern read as T is in T's range and stores that pattern. Fewer bits than the width give the pattern itself, never sign-extended. |
| BitReader.ReadInteger | Cranky.BitSerializer/BitReader.Integer.cs:5 | ReadInt8 (and the other seven fixed-width readers) fails exactly when the span is shorter than the width. It returns the value of T whose pattern is the next width bits. The ReadOnlyBitSpan fixed-width readers (line 128) have the same contract. |
| BitReader.ReadIntegerBits | Cranky.BitSerializer/BitReader.Integer.cs:7-18 | Range error unless 1 <= numBits <= width and numBits <= Length. The value agrees with the next numBits bits modulo 2^width, and equals them when numBits < width. The ReadOnlyBitSpan variable-width readers (lines 130-141) have the same contract. |
| BitReader.ReadBool | Cranky.BitSerializer/BitReader.Boolean.cs:5-7 | One bit. True exactly when the span's first bit is set. Fails exactly on an empty span. The ReadOnlyBitSpan overload (line 7) has the same contract. |
| BitReader.ReadArrayInto | Cranky.BitSerializer/BitReader.Array.cs:7-18 | The loop stores done = Consumable(...) items, the k-th run of numBits bits in slot k, and leaves the other slots alone. It completes exactly when all numItems were read. Running past the destination is IndexOutOfRange, and running past the span is ArgumentOutOfRange. The span ends just past the items read. |
| BitReader.ReadArray | Cranky.BitSerializer/BitReader.Array.cs:20-32 | A negative count is an Overflow, with the span untouched. Otherwise a fresh array of numItems holds the items. Success happens exactly when the span has room for all of them; otherwise the read fails with ArgumentOutOfRange. Either way the span ends just past the items read: all numItems on success, Consumable(numItems, numBits, Length) of them on failure. |
| BitWriter.WriteBinary | Cranky.BitSerializer/BitWriter.cs:8-15 | Succeeds exactly when 0 <= numBits <= Length. The buffer is unchanged on error. Otherwise the span's first numBits bits hold the low bits of the value, nothing else changes, and the span moves past them. |
| BitWriter.WriteInteger | Cranky.BitSerializer/BitWriter.Integer.cs:7-8 | WriteInteger and the variable-width writers such as `WriteInt8(span, v, numBits)` (lines 13-14 and their siblings) write the low numBits bits of the value's two's complement pattern. There is no numBits guard beyond WriteBinary's. |
| BitWriter.WriteFixed | Cranky.BitSerializer/BitWriter.Integer.cs:10-11 | `WriteInt8(span, v)` and the other fixed-width writers write the whole pattern. They fail exactly when the span is shorter than the width. |
| BitWriter.WriteBool | Cranky.BitSerializer/BitWriter.Boolean.cs:5-6 | One bit: 1 for true, 0 for false. Fails exactly on an empty span. |
| BitWriter.WriteArray | Cranky.BitSerializer/BitWriter.Array.cs:7-13 | Element after element. The first `done` elements are written as consecutive numBits-bit runs, truncated to numBits bits, and every bit outside them is unchanged. It completes exactly when all were written. Otherwise it stops with ArgumentOutOfRange, and the span ends past the written ones. |
| IntTypes.FromToBits | Cranky.BitSerializer.Tests/Bit_Integer_Tests.cs:108-118 | Storing a value of T as its pattern and reading the pattern back gives the value, for all eight types. |
| RoundTrips.SpanWriteRead | Cranky.BitSerializer.Tests/BitSpan_ReadWrite_Tests.cs:51-58 | Write then ReadAs on one span returns the value modulo 2^Length, and so the value itself when it fits. |
| RoundTrips.SpanWriteFrame | Cranky.BitSerializer.Tests/BitSpan_ReadWrite_Tests.cs:60-68 | Write leaves every bit before and after the span unchanged, and every byte holding none of its bits. |
| RoundTrips.IntegerRoundTrip | Cranky.BitSerializer.Tests/Bit_Integer_Tests.cs:108-118 | An integer written and read with n bits keeps its low n bits. At full width it comes back exactly, including MinValue, MaxValue and -1. |
| RoundTrips.NarrowRoundTrip | Cranky.BitSerializer/BitReader.Integer.cs:7-18 | A value that fits in n bits, written and read with n bits, comes back unchanged. |
| RoundTrips.NegativeNarrowExample | Cranky.BitSerializer/BitReader.Integer.cs:7-18 | Int8 -1 written in 4 bits reads back as 15: the narrow read does not sign-extend. |
| RoundTrips.BoolRoundTrip | Cranky.BitSerializer/BitWriter.Boolean.cs:5-6 | WriteBool then ReadBool at the same place gives the boolean back. |
| RoundTrips.BoolByteExamples | Cranky.BitSerializer.Tests/Bit_Boolean_Tests.cs:5-31 | Writing true into a zero byte gives 128 and false gives 0. The byte 128 reads true and 0 reads false. |
| RoundTrips.ArrayRoundTrip | Cranky.BitSerializer.Tests/Bit_Array_Tests.cs:21-32 | WriteArray then ReadArray over the same bits gives back the elements truncated to numBits bits, and so the elements themselves when they fit. |
| Findings.NewAsWritten | Cranky.BitSerializer/BitSpan.cs:14-29 | The constructor as written accepts every length with offset + length within the slice, negative ones included. |
| Findings.SliceAsWritten | Cranky.BitSerializer/BitSpan.cs:39-49 | `Slice(skipBits, length)` as written succeeds exactly when the new span ends within the bytes and starts at or after their first bit. No check compares length with zero. The result has the given length and starts skipBits bits later. |
| Findings.SliceRestAsWritten | Cranky.BitSerializer/BitSpan.cs:32-36 | `span[skipBits..]` as written never compares skipBits with Length, so the new length can be negative. |
| Findings.NumBytesAsWritten | Cranky.BitSerializer/BitSpan.cs:179-180 | The mapping's byte count as written, with C#'s truncating `/` and `%`, is offset + length divided by 8 and rounded up, for every bit count. It is zero for a bit count from -7 to 0. |
| Findings.EndPaddingAsWritten | Cranky.BitSerializer/BitSpan.cs:174 | The mapping's end padding as written is congruent to the unused bits modulo 8, lies strictly between -8 and 8, and is non-negative when the span ends within the buffer. |
| Findings.NewAgrees | Cranky.BitSerializer/BitSpan.cs:14-29 | The constructor as written and BitSpan.New agree on every non-negative length. BitSpan.New refuses every negative length. |
| Findings.NegativeLengthAccepted | Cranky.BitSerializer/BitSpan.cs:16-17 | A 1-byte span of length -1 is accepted as written and refused by BitSpan.New. |
| Findings.SliceNegativeLength | Cranky.BitSerializer/BitSpan.cs:194-198 | `span[..-1]`, through which `ReadAs<T>(-1)` and `Write(value, -1)` go, is accepted as written on a 1-byte span at bit offset 0 and at bit offset 3, giving length -1. BitSpan.Slice refuses both with a range error. |
| Findings.NegativeLengthMapping | Cranky.BitSerializer/BitSpan.cs:171-183 | For a 1-byte span of length -1: at bit offset 0 the mapping touches 0 bytes, so the last byte index is -1. At bit offset 3 it touches 1 byte, with end padding 6, and its first and last masks share no bit. |
| Findings.SliceBeyondLength | Cranky.BitSerializer/BitSpan.cs:32-36 | `span[6..]` of a 4-bit span over 2 bytes gives length -2 as written, and a range error with BitSpan.New. |

## Left out

- Floating point: `float`/`double` and their readers and writers are not part of this model.
- Exception messages are not modelled, and neither is `SizeOutOfMinimumRange` being called with its two arguments swapped (BitReader.Integer.cs line 11 and its siblings). Only the exception type is kept.
- CastHelpers.FromByte reinterprets the memory of a one-byte local as a T. The model takes it to be the byte zero-extended to T. CastHelpers.ToByte is modelled as the low byte of the value's pattern.
- BitSpan.ReadAs: requires Length <= sizeof(T) * 8. For a longer span, the source's shifts of T lose or wrap bits in a way that depends on each type's shift-count masking, and that is not modelled.
- BitSpan.Write: requires the value to be a pattern of T (below 2^width). Longer spans are left out, as for ReadAs.
- BitReader.ReadBinary: requires numBits <= sizeof(T) * 8. So do WriteBinary, ReadArray and WriteArray. The source does not guard them, but a wider read goes through ReadAs on a span longer than T (see above).
- BitReader.ReadArray: the element reader `Read(ref span, numBits, castAsTFunc)` is not part of this model. It is taken to be ReadBinary, with the cast function as the identity on patterns.
- BitReader.ReadArrayInto: the destination array is a separate array of patterns. Aliasing between it and the buffer is not modelled.
- `ref struct` lifetimes, `Span<T>` safety and the garbage collector are not modelled. A span is a value naming a range of one shared buffer.
- `BitSpan.Empty` and `ReadOnlyBitSpan.Empty` (the default span over no bytes) are not modelled.
- Integer overflow of `data.Length * 8` and of offset + length in 32-bit `int` is not modelled. Counts and offsets are unbounded integers.
- The signed right shift of T in Write is modelled as a shift of the pattern. They agree on every bit Write keeps, because each kept bit lies below the width.
- The benchmarks, the test project and the build files are not part of this model.

## Findings

| source | as written | input that shows it | evidently intended | confidence | as-written member | corrected member |
|---|---|---|---|---|---|---|
| Cranky.BitSerializer/BitSpan.cs:16-17 | The constructor rejects `length + offset > data.Length * 8` but never a negative length, so a span of negative Length can be built, and ReadAs and Write then run on it. `span[..numBits]` with a negative numBits, which `ReadAs<T>(numBits)` and `Write(value, numBits)` use, builds such a span. With Length -1 at bit offset 0 the mapping touches 0 bytes: ReadAs throws IndexOutOfRangeException at `_data[-1]`, and Write first overwrites byte 0 with the low byte of `value >> -9`, then throws. At bit offset 3 the mapping touches 1 byte whose two masks share no bit: ReadAs returns 0 and Write leaves the byte unchanged. | `new BitSpan(new byte[1], 0, -1)` is accepted. On `new BitSpan(new byte[2], 0, 4)`, `span[6..]` gives Length -2 instead of a range error. On a 1-byte span, `ReadAs<byte>(-1)` throws IndexOutOfRangeException at bit offset 0 and returns 0 at bit offset 3. | ArgumentOutOfRangeException for a negative length, as for one that is too long, and so for a negative numBits in ReadAs and Write. | not executed; medium | Findings.NewAsWritten, Findings.SliceAsWritten, Findings.SliceRestAsWritten, Findings.NumBytesAsWritten, Findings.EndPaddingAsWritten, Findings.NegativeLengthAccepted, Findings.SliceNegativeLength, Findings.NegativeLengthMapping, Findings.SliceBeyondLength | BitSpan.New, BitSpan.Slice, BitSpan.SliceRest, BitSpan.ReadAsBits, ReadOnlyBitSpan.ReadAsBits, BitSpan.WriteBits |
