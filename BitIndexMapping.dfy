/**
 * Where a span's bits fall in its bytes: how many bytes it touches, and the
 * padding and mask of its first and last byte.
 */
module BitIndexMapping {
  import opened Bitwise

  /** Padding bits at one end of a byte, and the mask selecting the span's bits in it. */
  datatype ByteMapping = ByteMapping(padding: nat, mask: nat)
  {
    /** The number of the byte's bits that belong to the span. */
    function NumBits(): (n: int)
      ensures padding <= 8 ==> 0 <= n <= 8
    {
      8 - padding
    }
  }

  datatype Mapping = Mapping(first: ByteMapping, last: ByteMapping, numBytes: nat)
  {
    function LastByteIndex(): int {
      numBytes - 1
    }
  }

  /**
   * The mapping of `length` bits starting `offset` bits into a buffer of
   * `bufferLengthBytes` bytes: the first byte keeps its low 8 - offset bits,
   * the last byte its high 8 - padding bits, and the span touches exactly
   * ceil((offset + length) / 8) bytes.
   */
  function From(offset: nat, length: nat, bufferLengthBytes: nat): (m: Mapping)
    requires offset < 8 && 0 < length && offset + length <= 8 * bufferLengthBytes
    ensures m.first.padding == offset && m.first.NumBits() == 8 - offset
    ensures m.first.mask < 256 && m.first.mask + 1 == Pow2(m.first.NumBits())
    ensures m.last.padding < 8 && m.last.mask == HighMask(m.last.padding)
    ensures 8 * m.numBytes == offset + length + m.last.padding
    ensures 8 * (m.numBytes - 1) < offset + length <= 8 * m.numBytes
    ensures m.numBytes == 1 <==> offset + length <= 8
  {
    var startPadding := offset;
    var endPadding := (bufferLengthBytes * 8 - length - offset) % 8;
    // `~x & 0xFF` is the complement of the low byte of x
    var firstBits := 8 - startPadding;
    var startMask := Not8(And(255 * Pow2(firstBits), 255));
    var endMask := And(255 * Pow2(endPadding), 255);
    var bitCount := length + offset;
    var numBytes := if bitCount % 8 > 0 then bitCount / 8 + 1 else bitCount / 8;
    LowByteMask(firstBits);
    HighByteMask(endPadding);
    PaddingFacts(bufferLengthBytes, bitCount, endPadding, numBytes);
    var first := ByteMapping(startPadding, startMask);
    assert first.NumBits() == firstBits;
    Mapping(first, ByteMapping(endPadding, endMask), numBytes)
  }

  /** The end padding is what rounds the bit count up to the whole bytes touched. */
  lemma PaddingFacts(bufBytes: nat, bitCount: nat, pad: nat, numBytes: nat)
    requires 0 < bitCount <= 8 * bufBytes
    requires pad == (bufBytes * 8 - bitCount) % 8
    requires numBytes == if bitCount % 8 > 0 then bitCount / 8 + 1 else bitCount / 8
    ensures pad < 8 && 8 * numBytes == bitCount + pad
  {
    var q, r := bitCount / 8, bitCount % 8;
    assert bitCount == 8 * q + r;
    if r > 0 {
      DivModUnique(bufBytes * 8 - bitCount, 8, bufBytes - q - 1, 8 - r);
    } else {
      DivModUnique(bufBytes * 8 - bitCount, 8, bufBytes - q, 0);
    }
  }
}
