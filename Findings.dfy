/**
 * The BitSpan constructor as written checks the length only from above
 * (length + offset against the bits of the slice), so a negative length is
 * accepted, and `span[skipBits..]` with skipBits past Length builds such a
 * span. This module keeps that behaviour, on a span whose length is an int,
 * next to the corrected constructor BitSpan.New that the rest of the model
 * uses; the two agree on every non-negative length.
 */
module Findings {
  import opened Outcomes
  import opened Bitwise
  import BS = BitSpan

  /** The span triple as the constructor stores it: Length is an int. */
  datatype RawSpan = RawSpan(start: nat, count: nat, offset: nat, length: int)

  /**
   * The constructor as written: the range check on length + offset, then the
   * slice `data[offset / 8..]` and the bit-offset check, which together turn
   * away a negative offset or one past the slice.
   */
  function NewAsWritten(start: nat, count: nat, offset: int, length: int): (r: Result<RawSpan>)
    ensures r.Ok? <==> 0 <= offset && offset / 8 <= count && offset + length <= 8 * count
    ensures r.Err? ==> r.error == ArgumentOutOfRange
    ensures r.Ok? ==> && r.value.offset < 8 && 8 * r.value.start + r.value.offset == 8 * start + offset
                      && r.value.length == length && r.value.start + r.value.count == start + count
  {
    if length + offset > count * 8 then Err(ArgumentOutOfRange)
    else if offset < 0 then Err(ArgumentOutOfRange)
    else if offset / 8 > count then Err(ArgumentOutOfRange)
    else Ok(RawSpan(start + offset / 8, count - offset / 8, offset % 8, length))
  }

  /**
   * `span.Slice(skipBits, length)` and `span[..length]` as written: the
   * checks bound the new span from above and its start from below, but no
   * check compares length with zero.
   */
  function SliceAsWritten(s: RawSpan, skipBits: int, length: int): (r: Result<RawSpan>)
    requires s.offset < 8
    ensures r.Ok? <==> && s.offset + skipBits + length <= 8 * s.count && 0 <= s.offset + skipBits
                       && (s.offset + skipBits) / 8 <= s.count
    ensures r.Ok? ==> && r.value.length == length && r.value.offset < 8
                      && 8 * r.value.start + r.value.offset == 8 * s.start + s.offset + skipBits
  {
    if s.count * 8 < s.offset + skipBits + length then Err(Overflow)
    else
      var startBit := s.offset + skipBits;
      if startBit < 0 then Err(ArgumentOutOfRange)
      else
        var newByteIndex := startBit / 8;
        if newByteIndex > s.count then Err(ArgumentOutOfRange)
        else NewAsWritten(s.start + newByteIndex, s.count - newByteIndex, startBit % 8, length)
  }

  /**
   * `span[skipBits..]` as written: Slice(skipBits, Length - skipBits), whose
   * checks never compare skipBits with Length.
   */
  function SliceRestAsWritten(s: RawSpan, skipBits: int): (r: Result<RawSpan>)
    requires s.offset < 8
    ensures r.Ok? <==> && s.offset + s.length <= 8 * s.count && 0 <= s.offset + skipBits
                       && (s.offset + skipBits) / 8 <= s.count
    ensures r.Ok? ==> r.value.length == s.length - skipBits
  {
    SliceAsWritten(s, skipBits, s.length - skipBits)
  }

  /** C#'s `/` on int, which truncates toward zero. */
  function TruncDiv(a: int, b: int): int
    requires 0 < b
  {
    if a < 0 then -((-a) / b) else a / b
  }

  /** C#'s `%` on int: the remainder takes the sign of the dividend. */
  function TruncMod(a: int, b: int): int
    requires 0 < b
  {
    a - b * TruncDiv(a, b)
  }

  /**
   * The byte count of the bit index mapping as written, on any bit count:
   * C#'s truncating `/` and `%` make it the bit count divided by 8 rounded
   * up, which is zero or negative once offset + length is.
   */
  function NumBytesAsWritten(offset: int, length: int): (n: int)
    ensures 8 * (n - 1) < offset + length <= 8 * n
  {
    var bitCount := length + offset;
    if TruncMod(bitCount, 8) > 0 then TruncDiv(bitCount, 8) + 1 else TruncDiv(bitCount, 8)
  }

  /** The end padding of the bit index mapping as written, with C#'s `%`. */
  function EndPaddingAsWritten(offset: int, length: int, bufferLengthBytes: int): (p: int)
    ensures -8 < p < 8
    ensures 0 <= bufferLengthBytes * 8 - length - offset ==> 0 <= p
    ensures (bufferLengthBytes * 8 - length - offset - p) % 8 == 0
  {
    TruncMod(bufferLengthBytes * 8 - length - offset, 8)
  }

  /** The span a raw span stands for, once its length is known to be a length. */
  function Raw(s: BS.Span): (r: RawSpan)
    ensures r.length >= 0
  {
    RawSpan(s.start, s.count, s.offset, s.length)
  }

  /**
   * On a non-negative length the constructor as written and the corrected
   * one accept the same arguments and build the same span; on a negative
   * length the corrected one always refuses.
   */
  lemma NewAgrees(start: nat, count: nat, offset: int, length: int)
    ensures length >= 0 ==> match BS.New(start, count, offset, length)
                            case Ok(s) => NewAsWritten(start, count, offset, length) == Ok(Raw(s))
                            case Err(e) => NewAsWritten(start, count, offset, length) == Err(e)
    ensures length < 0 ==> BS.New(start, count, offset, length) == Err(ArgumentOutOfRange)
  {
  }

  /** new BitSpan(data of 1 byte, 0, -1) is accepted as written and refused once corrected. */
  lemma NegativeLengthAccepted()
    ensures NewAsWritten(0, 1, 0, -1) == Ok(RawSpan(0, 1, 0, -1))
    ensures BS.New(0, 1, 0, -1) == Err(ArgumentOutOfRange)
  {
  }

  /**
   * On a 4-bit span over 2 bytes, `span[6..]` is accepted as written and gives
   * a span of length -2; corrected, it is a range error.
   */
  lemma SliceBeyondLength()
    ensures SliceRestAsWritten(RawSpan(0, 2, 0, 4), 6) == Ok(RawSpan(0, 2, 6, -2))
    ensures BS.SliceRest(BS.Span(0, 2, 0, 4), 6) == Err(ArgumentOutOfRange)
  {
  }

  /**
   * `span[..-1]` on a 1-byte span is accepted as written, at bit offset 0 as
   * at bit offset 3, and gives a span of length -1; corrected, it is a range
   * error, as are `ReadAs<T>(-1)` and `Write(value, -1)`, which slice this way.
   */
  lemma SliceNegativeLength()
    ensures SliceAsWritten(RawSpan(0, 1, 0, 8), 0, -1) == Ok(RawSpan(0, 1, 0, -1))
    ensures SliceAsWritten(RawSpan(0, 1, 3, 5), 0, -1) == Ok(RawSpan(0, 1, 3, -1))
    ensures BS.Slice(BS.Span(0, 1, 0, 8), 0, -1) == Err(ArgumentOutOfRange)
    ensures BS.Slice(BS.Span(0, 1, 3, 5), 0, -1) == Err(ArgumentOutOfRange)
  {
    NewAgrees(0, 1, 0, -1);
    NewAgrees(0, 1, 3, -1);
  }

  /**
   * What a 1-byte span of length -1 maps to as written. At bit offset 0 it
   * touches no byte, so the last byte index is -1, out of the data's range.
   * At bit offset 3 it touches one byte, and its first-byte mask (the low
   * 8 - 3 bits) and last-byte mask (the bits above the padding 6) share no
   * bit, so the single-byte read gives 0 and the single-byte write keeps the
   * byte as it was.
   */
  lemma NegativeLengthMapping()
    ensures NumBytesAsWritten(0, -1) == 0
    ensures NumBytesAsWritten(3, -1) == 1 && EndPaddingAsWritten(3, -1, 1) == 6
    ensures And(Pow2(8 - 3) - 1, HighMask(6)) == 0
  {
    assert Pow2(8 - 3) - 1 == 31 && HighMask(6) == 192;
    assert And(1, 12) == 2 * And(0, 6) == 0;
    assert And(3, 24) == 2 * And(1, 12) == 0;
    assert And(7, 48) == 2 * And(3, 24) == 0;
    assert And(15, 96) == 2 * And(7, 48) == 0;
    assert And(31, 192) == 2 * And(15, 96) == 0;
  }
}
