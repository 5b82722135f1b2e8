/**
 * The specification every span operation is measured against: a byte buffer
 * seen as a string of bits, most significant bit of byte 0 first. This is the
 * bit order the serializer packs fields in.
 */
module BitString {
  import opened Bitwise

  /** A byte of the buffer. */
  type byte = x: int | 0 <= x < 256

  /** Bit k of the buffer: bit 7 - k % 8 of byte k / 8. */
  function BitAt(s: seq<byte>, k: nat): (b: nat)
    requires k < 8 * |s|
    ensures b <= 1
  {
    BitOf(s[k / 8], 7 - k % 8)
  }

  /** The n bits starting at bit a, read most significant bit first as an unsigned number. */
  function Bits(s: seq<byte>, a: nat, n: nat): (r: nat)
    requires a + n <= 8 * |s|
    ensures r < Pow2(n)
    decreases n
  {
    if n == 0 then 0 else 2 * Bits(s, a, n - 1) + BitAt(s, a + n - 1)
  }

  /** What bit k holds after the low n bits of v were written at bit a over s. */
  function Expected(s: seq<byte>, a: nat, n: nat, v: nat, k: nat): nat
    requires k < 8 * |s|
  {
    if a <= k < a + n then BitOf(v, a + n - 1 - k) else BitAt(s, k)
  }

  /**
   * s' is s with bits [a, a + n) replaced by the low n bits of v, most
   * significant first, and every other bit kept.
   */
  ghost predicate Written(s': seq<byte>, s: seq<byte>, a: nat, n: nat, v: nat)
  {
    && |s'| == |s|
    && forall k | 0 <= k < 8 * |s| :: BitAt(s', k) == Expected(s, a, n, v, k)
  }

  /** Byte x is what byte i of s becomes when the low n bits of v are written at bit a. */
  ghost predicate ByteWritten(x: byte, s: seq<byte>, a: nat, n: nat, v: nat, i: nat)
    requires i < |s|
  {
    forall j | 0 <= j < 8 :: BitOf(x, j) == Expected(s, a, n, v, 8 * i + 7 - j)
  }

  // ---------------------------------------------------------------------
  // Reading

  /** Bit 8 * i + 7 - j of the buffer is bit j of byte i. */
  lemma BitAtByte(s: seq<byte>, i: nat, j: nat)
    requires i < |s| && j < 8
    ensures BitAt(s, 8 * i + 7 - j) == BitOf(s[i], j)
  {
    DivModUnique(8 * i + 7 - j, 8, i, 7 - j);
  }

  /** Bit j (from the least significant end) of a read is the bit j places before its end. */
  lemma {:induction false} BitsBit(s: seq<byte>, a: nat, n: nat, j: nat)
    requires a + n <= 8 * |s| && j < n
    ensures BitOf(Bits(s, a, n), j) == BitAt(s, a + n - 1 - j)
  {
    var r := Bits(s, a, n - 1);
    assert Bits(s, a, n) == 2 * r + BitAt(s, a + n - 1);
    if j > 0 {
      assert (2 * r + BitAt(s, a + n - 1)) / 2 == r;
      BitsBit(s, a, n - 1, j - 1);
    }
  }

  /** Reading n + m bits is reading n bits, then the m bits after them, and concatenating. */
  lemma {:induction false} BitsConcat(s: seq<byte>, a: nat, n: nat, m: nat)
    requires a + n + m <= 8 * |s|
    ensures Bits(s, a, n + m) == Bits(s, a, n) * Pow2(m) + Bits(s, a + n, m)
  {
    if m == 0 {
      ConcatNothing(s, a, n, m);
    } else {
      var k := m - 1;
      BitsConcat(s, a, n, k);
      ConcatOneMore(s, a, n, m, k);
    }
  }

  /** BitsConcat with nothing after the first n bits. */
  lemma ConcatNothing(s: seq<byte>, a: nat, n: nat, m: nat)
    requires m == 0 && a + n <= 8 * |s|
    ensures Bits(s, a, n + m) == Bits(s, a, n) * Pow2(m) + Bits(s, a + n, m)
  {
    var x, p := Bits(s, a, n), Pow2(m);
    assert Bits(s, a, n + m) == x;
    assert p == 1;
    assert x * p == x;
    assert Bits(s, a + n, m) == 0;
  }

  /**
   * One more bit at the end, m = k + 1: the read of n + m bits ends with the
   * bit at a + n + k, and 2^m is twice 2^k.
   */
  lemma ConcatOneMore(s: seq<byte>, a: nat, n: nat, m: nat, k: nat)
    requires m > 0 && k == m - 1 && a + n + m <= 8 * |s|
    ensures Bits(s, a, n + m) == 2 * Bits(s, a, n + k) + BitAt(s, a + n + k)
    ensures Bits(s, a + n, m) == 2 * Bits(s, a + n, k) + BitAt(s, a + n + k)
    ensures Bits(s, a, n) * Pow2(m) == 2 * (Bits(s, a, n) * Pow2(k))
  {
    var x := Bits(s, a, n + m - 1);
    assert x == Bits(s, a, n + k);
    assert BitAt(s, a + n + m - 1) == BitAt(s, a + n + k);
    assert Pow2(m) == 2 * Pow2(k);
    MulTwice(Bits(s, a, n), Pow2(k));
    TailOneMore(s, a, n, m, k);
  }

  /** The read of the m bits after a + n ends with the bit at a + n + k. */
  lemma TailOneMore(s: seq<byte>, a: nat, n: nat, m: nat, k: nat)
    requires m > 0 && k == m - 1 && a + n + m <= 8 * |s|
    ensures Bits(s, a + n, m) == 2 * Bits(s, a + n, k) + BitAt(s, a + n + k)
  {
    var y := Bits(s, a + n, m - 1);
    assert y == Bits(s, a + n, k);
    assert BitAt(s, a + n + m - 1) == BitAt(s, a + n + k);
  }

  lemma MulTwice(x: nat, p: nat)
    ensures x * (2 * p) == 2 * (x * p)
  {
  }

  /** Two buffers that agree on bits [a, a + n) read the same value there. */
  lemma {:induction false} BitsAgree(s: seq<byte>, t: seq<byte>, a: nat, n: nat)
    requires a + n <= 8 * |s| && a + n <= 8 * |t|
    requires forall k | a <= k < a + n :: BitAt(s, k) == BitAt(t, k)
    ensures Bits(s, a, n) == Bits(t, a, n)
  {
    if n > 0 {
      BitsAgree(s, t, a, n - 1);
    }
  }

  /** A whole aligned byte reads as the byte itself. */
  lemma BitsWholeByte(s: seq<byte>, i: nat, a: nat, n: nat)
    requires i < |s| && a == 8 * i && n == 8
    ensures Bits(s, a, n) == s[i]
  {
    BitsByteTail(s, i, 0, a, n);
    Pow2Eight();
    ModOfSmall(s[i], 256);
  }

  /** The last w bits of byte i, read from bit position a = 8i + o, are the byte modulo 2^w. */
  lemma BitsByteTail(s: seq<byte>, i: nat, o: nat, a: nat, w: nat)
    requires i < |s| && a == 8 * i + o && o + w == 8
    ensures Bits(s, a, w) == s[i] % Pow2(w)
  {
    var r, y := Bits(s, a, w), s[i] % Pow2(w);
    forall j | 0 <= j < w
      ensures BitOf(r, j) == BitOf(y, j)
    {
      ByteTailBit(s, i, o, a, w, j);
    }
    BitsDetermine(r, y, w);
  }

  lemma ByteTailBit(s: seq<byte>, i: nat, o: nat, a: nat, w: nat, j: nat)
    requires i < |s| && a == 8 * i + o && o + w == 8 && j < w
    ensures BitOf(Bits(s, a, w), j) == BitOf(s[i] % Pow2(w), j)
  {
    BitsBit(s, a, w, j);
    BitAtByte(s, i, j);
    BitOfMod(s[i], w, j);
  }

  /** The n = k + r bits from a are the k bits from a above the r bits from b = a + k. */
  lemma BitsSplit(s: seq<byte>, a: nat, n: nat, k: nat, r: nat, b: nat)
    requires n == k + r && b == a + k && a + n <= 8 * |s|
    ensures Bits(s, a, n) == Bits(s, a, k) * Pow2(r) + Bits(s, b, r)
  {
    BitsConcat(s, a, k, r);
    var x, y := Bits(s, a, k + r), Bits(s, a + k, r);
    assert x == Bits(s, a, n);
    assert y == Bits(s, b, r);
  }

  /** Reading the first n of w = n + e bits drops the last e bits of the read. */
  lemma BitsPrefix(s: seq<byte>, a: nat, n: nat, e: nat, w: nat)
    requires a + w <= 8 * |s| && n + e == w
    ensures Bits(s, a, n) == Bits(s, a, w) / Pow2(e)
  {
    var x := Bits(s, a, n + e);
    assert x == Bits(s, a, w);
    BitsConcat(s, a, n, e);
    DivModUnique(x, Pow2(e), Bits(s, a, n), Bits(s, a + n, e));
  }

  /**
   * Reading from k bits into a field gives the low n - k bits of reading the
   * whole field (what a slice of a span reads).
   */
  lemma BitsSuffix(s: seq<byte>, a: nat, n: nat, k: nat, b: nat, r: nat)
    requires a + n <= 8 * |s| && b == a + k && r + k == n
    ensures Bits(s, b, r) == Bits(s, a, n) % Pow2(r)
  {
    BitsSplit(s, a, n, k, r, b);
    DivModUnique(Bits(s, a, n), Pow2(r), Bits(s, a, k), Bits(s, b, r));
  }


  // ---------------------------------------------------------------------
  // Writing

  /** A buffer whose every byte is written as ByteWritten prescribes is Written. */
  lemma WrittenFromBytes(s': seq<byte>, s: seq<byte>, a: nat, n: nat, v: nat)
    requires |s'| == |s|
    requires forall i | 0 <= i < |s| :: ByteWritten(s'[i], s, a, n, v, i)
    ensures Written(s', s, a, n, v)
  {
    forall k | 0 <= k < 8 * |s|
      ensures BitAt(s', k) == Expected(s, a, n, v, k)
    {
      var i, j := k / 8, 7 - k % 8;
      assert ByteWritten(s'[i], s, a, n, v, i);
      assert 8 * i + 7 - j == k;
    }
  }

  /** A byte that no bit of [a, a + n) falls in keeps its old value. */
  lemma ByteUntouched(s: seq<byte>, a: nat, n: nat, v: nat, i: nat)
    requires i < |s|
    requires 8 * i + 8 <= a || a + n <= 8 * i
    ensures ByteWritten(s[i], s, a, n, v, i)
  {
    forall j | 0 <= j < 8
      ensures BitOf(s[i], j) == Expected(s, a, n, v, 8 * i + 7 - j)
    {
      BitAtByte(s, i, j);
    }
  }

  /** Round trip: reading back the written bits gives the low n bits of v. */
  lemma WrittenReadBack(s': seq<byte>, s: seq<byte>, a: nat, n: nat, v: nat)
    requires a + n <= 8 * |s|
    requires Written(s', s, a, n, v)
    ensures Bits(s', a, n) == v % Pow2(n)
  {
    forall j | 0 <= j < n
      ensures BitOf(Bits(s', a, n), j) == BitOf(v % Pow2(n), j)
    {
      BitsBit(s', a, n, j);
      assert BitAt(s', a + n - 1 - j) == Expected(s, a, n, v, a + n - 1 - j);
      BitOfMod(v, n, j);
    }
    BitsDetermine(Bits(s', a, n), v % Pow2(n), n);
  }

  /** Every byte outside the bytes [a / 8, (a + n + 7) / 8) keeps its value. */
  lemma WrittenBytesElsewhere(s': seq<byte>, s: seq<byte>, a: nat, n: nat, v: nat, i: nat)
    requires Written(s', s, a, n, v)
    requires i < |s|
    requires 8 * i + 8 <= a || a + n <= 8 * i
    ensures s'[i] == s[i]
  {
    Pow2Eight();
    forall j | 0 <= j < 8
      ensures BitOf(s'[i], j) == BitOf(s[i], j)
    {
      BitAtByte(s', i, j);
      BitAtByte(s, i, j);
      assert BitAt(s', 8 * i + 7 - j) == Expected(s, a, n, v, 8 * i + 7 - j);
    }
    BitsDetermine(s'[i], s[i], 8);
  }

  /** Written pins down the whole new buffer: there is exactly one result of a write. */
  lemma WrittenUnique(s1: seq<byte>, s2: seq<byte>, s: seq<byte>, a: nat, n: nat, v: nat)
    requires Written(s1, s, a, n, v) && Written(s2, s, a, n, v)
    ensures s1 == s2
  {
    Pow2Eight();
    forall i | 0 <= i < |s|
      ensures s1[i] == s2[i]
    {
      forall j | 0 <= j < 8
        ensures BitOf(s1[i], j) == BitOf(s2[i], j)
      {
        BitAtByte(s1, i, j);
        BitAtByte(s2, i, j);
        assert BitAt(s1, 8 * i + 7 - j) == Expected(s, a, n, v, 8 * i + 7 - j);
        assert BitAt(s2, 8 * i + 7 - j) == Expected(s, a, n, v, 8 * i + 7 - j);
      }
      BitsDetermine(s1[i], s2[i], 8);
    }
  }

  /** Writing zero bits changes nothing. */
  lemma WrittenNothing(s': seq<byte>, s: seq<byte>, a: nat, v: nat)
    requires Written(s', s, a, 0, v)
    ensures s' == s
  {
    assert Written(s, s, a, 0, v);
    WrittenUnique(s', s, s, a, 0, v);
  }
}
