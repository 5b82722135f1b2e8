/**
 * What the byte-level expressions of ReadAs and Write compute, bit by bit:
 * each lemma takes one expression of the code (first byte, whole byte, last
 * byte, or the single byte of a short span) and states it in terms of the
 * bit-string specification.
 */
module SpanBytes {
  import opened Bitwise
  import opened BitString

  // ---------------------------------------------------------------------
  // Reading

  /** `(b & firstMask)` is the span's part of the first byte, the k = 8 - off bits from position a. */
  lemma ReadFirstByte(s: seq<byte>, i: nat, off: nat, fm: nat, a: nat, k: nat)
    requires i < |s| && a == 8 * i + off && off + k == 8 && fm + 1 == Pow2(k)
    ensures And(s[i], fm) == Bits(s, a, k) && And(s[i], fm) < 256
  {
    AndMask(s[i], k, fm);
    BitsByteTail(s, i, off, a, k);
    ModBelow(s[i], k);
  }

  /** `(b & lastMask) >> lastPadding` is the span's part of the last byte, the r bits from position a = 8i. */
  lemma ReadLastByte(s: seq<byte>, i: nat, pad: nat, r: nat, a: nat)
    requires i < |s| && pad < 8 && r + pad == 8 && a == 8 * i
    ensures ToByte(ShiftRight(And(s[i], HighMask(pad)), pad)) == Bits(s, a, r)
  {
    var x, n := s[i], 8;
    BitsWholeByte(s, i, a, n);
    BitsPrefix(s, a, r, pad, n);
    AndHighMask(x, pad);
    ModOfSmall(ShiftRight(x, pad), 256);
  }

  /**
   * In a span inside one byte, `(b & firstMask & lastMask) >> lastPadding` is
   * the whole span: the len bits from position a = 8i + off.
   */
  lemma ReadSingleByte(s: seq<byte>, i: nat, off: nat, len: nat, pad: nat, fm: nat, a: nat, k: nat)
    requires i < |s| && a == 8 * i + off && off + k == 8 && len + pad == k && fm + 1 == Pow2(k)
    ensures ToByte(ShiftRight(And(And(s[i], fm), HighMask(pad)), pad)) == Bits(s, a, len)
  {
    var y := And(s[i], fm);
    AndMask(s[i], k, fm);
    BitsByteTail(s, i, off, a, k);
    BitsPrefix(s, a, len, pad, k);
    ModBelow(s[i], k);
    AndHighMask(y, pad);
    ModOfSmall(ShiftRight(y, pad), 256);
  }

  /** A byte modulo 2^k, k <= 8, is still a byte. */
  lemma ModBelow(x: byte, k: nat)
    requires k <= 8
    ensures x % Pow2(k) < 256
  {
    Pow2Mono(k, 8);
    Pow2Eight();
  }

  /**
   * One step of the whole-byte loop: with the m bits read so far shifted up by
   * r = r1 + 8, or-ing in the next byte shifted by r1 reads m1 = m + 8 bits.
   */
  lemma ReadStep(s: seq<byte>, a: nat, m: nat, m1: nat, n: nat, r: nat, r1: nat, w: nat, value: nat, idx: nat)
    requires n == 8 && m1 == m + n && r == r1 + n && m + r <= w
    requires idx < |s| && 8 * idx == a + m
    requires value == Bits(s, a, m) * Pow2(r)
    ensures Or(value, ShiftLeft(s[idx], r1, w)) == Bits(s, a, m1) * Pow2(r1)
  {
    var v, b := Bits(s, a, m), s[idx];
    ReadStepValue(s, a, m, m1, n, idx, b);
    ShiftNoWrap(b, n, r1, w);
    PlaceBelow(v, b, n, r, r1);
  }

  lemma ReadStepValue(s: seq<byte>, a: nat, m: nat, m1: nat, n: nat, idx: nat, b: nat)
    requires idx < |s| && 8 * idx == a + m && n == 8 && m1 == m + n && b == s[idx]
    ensures b < Pow2(n)
    ensures Bits(s, a, m1) == Bits(s, a, m) * Pow2(n) + b
  {
    var at := 8 * idx;
    BitsWholeByte(s, idx, at, n);
    BitsSplit(s, a, m1, m, n, at);
  }

  /** An n-bit b or-ed in just below v shifted up by r = n + r1 is the pair v, b shifted up by r1. */
  lemma PlaceBelow(v: nat, b: nat, n: nat, r: nat, r1: nat)
    requires b < Pow2(n) && r == n + r1
    ensures Or(v * Pow2(r), b * Pow2(r1)) == (v * Pow2(n) + b) * Pow2(r1)
  {
    var p := Pow2(n + r1);
    assert p == Pow2(r);
    MulBelow(b, Pow2(n), Pow2(r1));
    Pow2Add(n, r1);
    OrDisjoint(v, r, b * Pow2(r1));
    ShiftedConcat(v, b, n, r1);
  }

  /** Or-ing the last r bits, at position b = a + m, below the first m completes the n = m + r bits from a. */
  lemma ReadFinish(s: seq<byte>, a: nat, m: nat, b: nat, r: nat, n: nat, value: nat, last: nat)
    requires b == a + m && n == m + r && a + n <= 8 * |s|
    requires value == Bits(s, a, m) * Pow2(r) && last == Bits(s, b, r)
    ensures Or(value, last) == Bits(s, a, n)
  {
    OrDisjoint(Bits(s, a, m), r, last);
    BitsSplit(s, a, n, m, r, b);
  }

  // ---------------------------------------------------------------------
  // Writing

  /** The low eight bits survive the cast to byte. */
  lemma ToByteBit(x: nat, j: nat)
    requires j < 8
    ensures BitOf(ToByte(x), j) == BitOf(x, j)
  {
    var n := 8;
    Pow2Eight();
    BitOfMod(x, n, j);
  }

  /** `(prev & ~mask) | (val & mask)` takes the masked bits from val and the others from prev. */
  lemma MergeBit(prev: nat, val: nat, m: nat, j: nat)
    requires prev < 256 && m < 256 && j < 8
    ensures BitOf(Or(And(prev, Not8(m)), And(val, m)), j)
         == if BitOf(m, j) == 1 then BitOf(val, j) else BitOf(prev, j)
  {
    BitOfOr(And(prev, Not8(m)), And(val, m), j);
    BitOfAnd(prev, Not8(m), j);
    BitOfAnd(val, m, j);
    BitOfNot8(m, j);
  }

  lemma OrBytes(x: nat, y: nat)
    requires x < 256 && y < 256
    ensures Or(x, y) < 256 && ToByte(Or(x, y)) == Or(x, y)
  {
    var n := 8;
    Pow2Eight();
    OrBelow(x, y, n);
    ModOfSmall(Or(x, y), 256);
  }

  /** The first byte of a span that goes on past it: its low k = 8 - off bits are the span's first k bits. */
  lemma WriteFirstByte(s: seq<byte>, i: nat, a: nat, n: nat, v: nat, off: nat, fm: nat, r: nat, k: nat)
    requires i < |s| && a == 8 * i + off && off + k == 8 && r + k == n
    requires fm < 256 && fm + 1 == Pow2(k)
    ensures ByteWritten(ToByte(Or(And(s[i], Not8(fm)), And(ToByte(ShiftRight(v, r)), fm))), s, a, n, v, i)
  {
    var x := ToByte(ShiftRight(v, r));
    OrBytes(And(s[i], Not8(fm)), And(x, fm));
    forall j | 0 <= j < 8
      ensures BitOf(Or(And(s[i], Not8(fm)), And(x, fm)), j) == Expected(s, a, n, v, 8 * i + 7 - j)
    {
      WriteFirstBit(s, i, a, n, v, off, fm, r, k, j);
    }
  }

  lemma WriteFirstBit(s: seq<byte>, i: nat, a: nat, n: nat, v: nat, off: nat, fm: nat, r: nat, k: nat, j: nat)
    requires i < |s| && a == 8 * i + off && off + k == 8 && r + k == n && j < 8
    requires fm < 256 && fm + 1 == Pow2(k)
    ensures BitOf(Or(And(s[i], Not8(fm)), And(ToByte(ShiftRight(v, r)), fm)), j)
         == Expected(s, a, n, v, 8 * i + 7 - j)
  {
    MergeBit(s[i], ToByte(ShiftRight(v, r)), fm, j);
    BitOfLowMask(k, j);
    ToByteBit(ShiftRight(v, r), j);
    BitOfShiftRight(v, r, j);
    FirstExpected(s, i, a, n, v, off, r, k, j);
  }

  /** In the first byte, bits below k = 8 - off are the span's first bits and the rest are kept. */
  lemma FirstExpected(s: seq<byte>, i: nat, a: nat, n: nat, v: nat, off: nat, r: nat, k: nat, j: nat)
    requires i < |s| && a == 8 * i + off && off + k == 8 && r + k == n && j < 8
    ensures Expected(s, a, n, v, 8 * i + 7 - j) == if j < k then BitOf(v, r + j) else BitOf(s[i], j)
  {
    BitAtByte(s, i, j);
  }

  /** A byte wholly inside the span. */
  lemma WriteWholeByte(s: seq<byte>, i: nat, a: nat, n: nat, v: nat, r: nat)
    requires i < |s| && a <= 8 * i && 8 * i + 8 <= a + n && r == a + n - 8 * i - 8
    ensures ByteWritten(ToByte(ShiftRight(v, r)), s, a, n, v, i)
  {
    forall j | 0 <= j < 8
      ensures BitOf(ToByte(ShiftRight(v, r)), j) == Expected(s, a, n, v, 8 * i + 7 - j)
    {
      ToByteBit(ShiftRight(v, r), j);
      BitOfShiftRight(v, r, j);
    }
  }

  /** The last byte of a span that started before it. */
  lemma WriteLastByte(s: seq<byte>, i: nat, a: nat, n: nat, v: nat, pad: nat, w: nat)
    requires i < |s| && a <= 8 * i && pad < 8 && a + n + pad == 8 * i + 8 && 8 <= w
    ensures ByteWritten(ToByte(Or(And(s[i], Not8(HighMask(pad))), And(ToByte(ShiftLeft(v, pad, w)), HighMask(pad)))), s, a, n, v, i)
  {
    var m := HighMask(pad);
    OrBytes(And(s[i], Not8(m)), And(ToByte(ShiftLeft(v, pad, w)), m));
    forall j | 0 <= j < 8
      ensures BitOf(Or(And(s[i], Not8(m)), And(ToByte(ShiftLeft(v, pad, w)), m)), j)
           == Expected(s, a, n, v, 8 * i + 7 - j)
    {
      WriteLastBit(s, i, a, n, v, pad, w, j);
    }
  }

  lemma WriteLastBit(s: seq<byte>, i: nat, a: nat, n: nat, v: nat, pad: nat, w: nat, j: nat)
    requires i < |s| && a <= 8 * i && pad < 8 && a + n + pad == 8 * i + 8 && 8 <= w && j < 8
    ensures BitOf(Or(And(s[i], Not8(HighMask(pad))), And(ToByte(ShiftLeft(v, pad, w)), HighMask(pad))), j)
         == Expected(s, a, n, v, 8 * i + 7 - j)
  {
    var m := HighMask(pad);
    MergeBit(s[i], ToByte(ShiftLeft(v, pad, w)), m, j);
    BitOfHighMask(pad, j);
    ShiftedByteBit(v, pad, w, j);
    LastExpected(s, i, a, n, v, pad, j);
  }

  /** Bit j of the low byte of `v << pad` in a w-bit type. */
  lemma ShiftedByteBit(v: nat, pad: nat, w: nat, j: nat)
    requires 8 <= w && j < 8
    ensures BitOf(ToByte(ShiftLeft(v, pad, w)), j) == if j >= pad then BitOf(v, j - pad) else 0
  {
    ToByteBit(ShiftLeft(v, pad, w), j);
    BitOfMod(v * Pow2(pad), w, j);
    BitOfShiftLeft(v, pad, j);
  }

  /** In the last byte, bits pad..7 are the span's last bits and the rest are kept. */
  lemma LastExpected(s: seq<byte>, i: nat, a: nat, n: nat, v: nat, pad: nat, j: nat)
    requires i < |s| && a <= 8 * i && pad < 8 && a + n + pad == 8 * i + 8 && j < 8
    ensures Expected(s, a, n, v, 8 * i + 7 - j) == if j >= pad then BitOf(v, j - pad) else BitOf(s[i], j)
  {
    BitAtByte(s, i, j);
  }

  /** The one byte of a span that begins and ends inside it. */
  lemma WriteSingleByte(s: seq<byte>, i: nat, a: nat, n: nat, v: nat, off: nat, pad: nat, fm: nat)
    requires i < |s| && a == 8 * i + off && off + n + pad == 8 && n > 0 && fm < 256 && fm + 1 == Pow2(8 - off)
    ensures ByteWritten(ToByte(Or(And(And(Shl(ToByte(v), pad), fm), HighMask(pad)),
                                  And(s[i], Not8(And(fm, HighMask(pad)))))), s, a, n, v, i)
  {
    var lm := HighMask(pad);
    var x := And(And(Shl(ToByte(v), pad), fm), lm);
    var y := And(s[i], Not8(And(fm, lm)));
    OrBytes(x, y);
    forall j | 0 <= j < 8
      ensures BitOf(Or(x, y), j) == Expected(s, a, n, v, 8 * i + 7 - j)
    {
      WriteSingleBit(s, i, a, n, v, off, pad, fm, j);
    }
  }

  lemma WriteSingleBit(s: seq<byte>, i: nat, a: nat, n: nat, v: nat, off: nat, pad: nat, fm: nat, j: nat)
    requires i < |s| && a == 8 * i + off && off + n + pad == 8 && n > 0 && fm < 256 && fm + 1 == Pow2(8 - off) && j < 8
    ensures BitOf(Or(And(And(Shl(ToByte(v), pad), fm), HighMask(pad)), And(s[i], Not8(And(fm, HighMask(pad))))), j)
         == Expected(s, a, n, v, 8 * i + 7 - j)
  {
    var lm := HighMask(pad);
    var x := Shl(ToByte(v), pad);
    And3Bit(x, fm, lm, j);
    SpanMaskBit(fm, lm, off, pad, j);
    ShiftedValueBit(v, pad, j);
    SingleKeptBit(s[i], fm, lm, off, pad, j);
    BitOfOr(And(And(x, fm), lm), And(s[i], Not8(And(fm, lm))), j);
    SingleExpected(s, i, a, n, v, off, pad, j);
  }

  lemma And3Bit(x: nat, y: nat, z: nat, j: nat)
    ensures BitOf(And(And(x, y), z), j) == if BitOf(And(y, z), j) == 1 then BitOf(x, j) else 0
  {
    BitOfAnd(And(x, y), z, j);
    BitOfAnd(x, y, j);
    BitOfAnd(y, z, j);
  }

  /** Bit j of `toByte(v) << pad`, for j below 8. */
  lemma ShiftedValueBit(v: nat, pad: nat, j: nat)
    requires j < 8
    ensures BitOf(Shl(ToByte(v), pad), j) == if j >= pad then BitOf(v, j - pad) else 0
  {
    BitOfShiftLeft(ToByte(v), pad, j);
    assert Shl(ToByte(v), pad) == ToByte(v) * Pow2(pad);
    if j >= pad {
      ToByteBit(v, j - pad);
    }
  }

  /** Bit j of `b & ~(firstMask & lastMask)`. */
  lemma SingleKeptBit(b: byte, fm: nat, lm: nat, off: nat, pad: nat, j: nat)
    requires off < 8 && pad <= 8 && fm < 256 && fm + 1 == Pow2(8 - off) && lm == HighMask(pad) && j < 8
    ensures And(fm, lm) < 256
    ensures BitOf(And(b, Not8(And(fm, lm))), j) == if pad <= j < 8 - off then 0 else BitOf(b, j)
  {
    var m := And(fm, lm);
    SpanMaskBit(fm, lm, off, pad, j);
    BitOfAnd(b, Not8(m), j);
    BitOfNot8(m, j);
  }

  /** `firstMask & lastMask` selects bits pad..7-off. */
  lemma SpanMaskBit(fm: nat, lm: nat, off: nat, pad: nat, j: nat)
    requires off < 8 && pad <= 8 && fm < 256 && fm + 1 == Pow2(8 - off) && lm == HighMask(pad) && j < 8
    ensures And(fm, lm) < 256
    ensures BitOf(And(fm, lm), j) == if pad <= j < 8 - off then 1 else 0
  {
    BitOfAnd(fm, lm, j);
    BitOfLowMask(8 - off, j);
    BitOfHighMask(pad, j);
  }

  /** In a one-byte span, bits pad..7-off are the span's bits and the rest are kept. */
  lemma SingleExpected(s: seq<byte>, i: nat, a: nat, n: nat, v: nat, off: nat, pad: nat, j: nat)
    requires i < |s| && a == 8 * i + off && off + n + pad == 8 && j < 8
    ensures Expected(s, a, n, v, 8 * i + 7 - j) == if pad <= j < 8 - off then BitOf(v, j - pad) else BitOf(s[i], j)
  {
    BitAtByte(s, i, j);
  }
}
