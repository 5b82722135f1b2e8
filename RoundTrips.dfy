/**
 * What writing and then reading the same bits gives back. Each lemma starts
 * from the state a writer leaves behind (its `Written` or `ItemsWritten`
 * postcondition) and concludes what the matching reader returns (its
 * postcondition's expression), so together with the two methods' contracts
 * it is the write-then-read round trip.
 */
module RoundTrips {
  import opened Bitwise
  import opened BitString
  import opened IntTypes
  import opened Codec
  import BS = BitSpan
  import BR = BitReader
  import BW = BitWriter

  /**
   * BitSpan.Write followed by BitSpan.ReadAs on the same span: the low
   * `length` bits of the value come back, hence the value itself when it
   * fits in the span.
   */
  lemma SpanWriteRead(buf': seq<byte>, buf: seq<byte>, s: BS.Span, v: nat)
    requires s.Valid() && s.Within(|buf|)
    requires Written(buf', buf, s.Pos(), s.length, v)
    ensures s.Within(|buf'|)
    ensures BS.Contents(buf', s) == v % Pow2(s.length)
    ensures v < Pow2(s.length) ==> BS.Contents(buf', s) == v
  {
    WrittenReadBack(buf', buf, s.Pos(), s.length, v);
    if v < Pow2(s.length) {
      ModOfSmall(v, Pow2(s.length));
    }
  }

  /**
   * BitSpan.Write leaves every bit before the span and after it as it was,
   * and so every byte that holds none of the span's bits.
   */
  lemma SpanWriteFrame(buf': seq<byte>, buf: seq<byte>, s: BS.Span, v: nat)
    requires s.Valid() && s.Within(|buf|)
    requires Written(buf', buf, s.Pos(), s.length, v)
    ensures |buf'| == |buf|
    ensures forall k | 0 <= k < 8 * |buf| && (k < s.Pos() || s.Pos() + s.length <= k) :: BitAt(buf', k) == BitAt(buf, k)
    ensures forall i | 0 <= i < |buf| && (8 * i + 8 <= s.Pos() || s.Pos() + s.length <= 8 * i) :: buf'[i] == buf[i]
  {
    forall i | 0 <= i < |buf| && (8 * i + 8 <= s.Pos() || s.Pos() + s.length <= 8 * i)
      ensures buf'[i] == buf[i]
    {
      WrittenBytesElsewhere(buf', buf, s.Pos(), s.length, v, i);
    }
  }

  /**
   * An integer written with n bits and read back with n bits: the read value
   * agrees with the written one in its low n bits. At full width the value
   * comes back exactly; narrower, it comes back as its low n bits taken as
   * an unsigned number (a negative value does not come back).
   */
  lemma IntegerRoundTrip(s': seq<byte>, s: seq<byte>, pos: nat, t: IntType, n: nat, x: int, y: int)
    requires 1 <= n <= t.Width() && pos + n <= 8 * |s|
    requires t.InRange(x) && Written(s', s, pos, n, ToBits(t, x))
    requires t.InRange(y) && y % Pow2(t.Width()) == Bits(s', pos, n)
    requires n < t.Width() ==> y == Bits(s', pos, n)
    ensures y % Pow2(n) == x % Pow2(n)
    ensures n == t.Width() ==> y == x
    ensures n < t.Width() ==> y == x % Pow2(n)
  {
    var b := Bits(s', pos, n);
    WrittenReadBack(s', s, pos, n, ToBits(t, x));
    LowBits(t, n, x, b);
    ModPow2Mod(y, n, t.Width());
    ModOfSmall(b, Pow2(n));
    if n == t.Width() {
      SameLowBits(t, x, y);
    }
  }

  /** The low n bits of x's pattern are the low n bits of x. */
  lemma LowBits(t: IntType, n: nat, x: int, b: nat)
    requires n <= t.Width() && b == ToBits(t, x) % Pow2(n)
    ensures b == x % Pow2(n)
  {
    assert ToBits(t, x) == x % Pow2(t.Width());
    ModPow2Mod(x, n, t.Width());
  }

  /** Two values of a type with the same pattern are equal. */
  lemma SameLowBits(t: IntType, x: int, y: int)
    requires t.InRange(x) && t.InRange(y) && x % Pow2(t.Width()) == y % Pow2(t.Width())
    ensures x == y
  {
    assert ToBits(t, x) == ToBits(t, y);
    FromToBits(t, x);
    FromToBits(t, y);
  }

  /**
   * A value that fits in n bits, written with n bits and read back with n
   * bits, comes back unchanged.
   */
  lemma NarrowRoundTrip(s': seq<byte>, s: seq<byte>, pos: nat, t: IntType, n: nat, x: int, y: int)
    requires 1 <= n < t.Width() && pos + n <= 8 * |s|
    requires 0 <= x < Pow2(n)
    requires Written(s', s, pos, n, ToBits(t, x))
    requires y == Bits(s', pos, n)
    ensures y == x
  {
    SmallPattern(t, n, x);
    WrittenReadBack(s', s, pos, n, x);
    ModOfSmall(x, Pow2(n));
  }

  /** A value below 2^n, n below the width, is its own pattern. */
  lemma SmallPattern(t: IntType, n: nat, x: int)
    requires n < t.Width() && 0 <= x < Pow2(n)
    ensures ToBits(t, x) == x
  {
    var w := t.Width();
    Pow2Mono(n, w);
    ModOfSmall(x, Pow2(w));
    ToBitsMod(t, x);
  }

  /** Int8 -1 written with 4 bits reads back as 15: the sign is not extended. */
  lemma NegativeNarrowExample(s': seq<byte>, s: seq<byte>, pos: nat, y: int)
    requires pos + 4 <= 8 * |s|
    requires Written(s', s, pos, 4, ToBits(Int8, -1))
    requires y == Bits(s', pos, 4)
    ensures y == 15
  {
    assert Pow2(4) == 16;
    Pow2Eight();
    ModOfSmall(y, 256);
    assert Int8.InRange(-1);
    IntegerRoundTrip(s', s, pos, Int8, 4, -1, y);
    DivModUnique(-1, 16, -1, 15);
  }

  /** WriteBool then ReadBool at the same position gives the boolean back. */
  lemma BoolRoundTrip(s': seq<byte>, s: seq<byte>, pos: nat, b: bool)
    requires pos < 8 * |s|
    requires Written(s', s, pos, 1, if b then 1 else 0)
    ensures BitAt(s', pos) == 1 <==> b
  {
    WrittenReadBack(s', s, pos, 1, if b then 1 else 0);
    BR.OneBit(s', pos);
  }

  /**
   * A boolean written at the first bit of a zero byte makes the byte 128 for
   * true and 0 for false, and those bytes read back as true and false.
   */
  lemma BoolByteExamples(s': seq<byte>, b: bool)
    requires Written(s', [0], 0, 1, if b then 1 else 0)
    ensures s' == if b then [128] else [0]
    ensures BitAt([128], 0) == 1 && BitAt([0], 0) == 0
  {
    var v: nat := if b then 1 else 0;
    assert Pow2(7) == 128;
    forall j | 0 <= j < 8
      ensures BitOf(s'[0], j) == BitOf(v * Pow2(7), j)
    {
      BitAtByte(s', 0, j);
      assert BitAt(s', 7 - j) == Expected([0], 0, 1, v, 7 - j);
      BitOfShiftLeft(v, 7, j);
      BitAtByte([0], 0, j);
      BitOfZero(j);
    }
    assert Pow2(8) == 256;
    BitsDetermine(s'[0], v * Pow2(7), 8);
    BitAtByte([128], 0, 7);
    BitOfShiftLeft(1, 7, 7);
    BitOfZero(7);
  }

  /**
   * WriteArray followed by ReadArray over the same bits: the first `done`
   * items read are the first `done` elements written, each truncated to
   * numBits bits, and exactly those elements when they fit.
   */
  lemma ArrayRoundTrip(s': seq<byte>, s: seq<byte>, pos: nat, n: nat, a: seq<nat>, done: nat, dst: seq<nat>, old_dst: seq<nat>)
    requires BW.ItemsWritten(s', s, pos, n, a, done)
    requires BR.ItemsRead(dst, old_dst, s', pos, n, done)
    ensures dst[..done] == BW.Truncated(a[..done], n)
    ensures (forall k | 0 <= k < |a| :: a[k] < Pow2(n)) ==> dst[..done] == a[..done]
  {
    if forall k | 0 <= k < |a| :: a[k] < Pow2(n) {
      assert forall k | 0 <= k < done :: a[..done][k] == a[k];
      BW.TruncatedSmall(a[..done], n);
    }
  }
}
