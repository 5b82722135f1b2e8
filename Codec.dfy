/**
 * What the consume-and-advance codecs share: a `ref` span that a call moves
 * past the bits it used, and the number of fixed-size items a span has room
 * for when an array codec walks it.
 */
module Codec {
  import opened Bitwise
  import opened BitString
  import opened BitSpan

  /** A value read from a span, with the span the `ref` parameter is left holding. */
  datatype Decoded<T> = Decoded(value: T, rest: Span)

  /**
   * rest is s moved on by n bits: it starts n bits later, is n bits shorter,
   * and still ends at the end of s's bytes.
   */
  predicate Advanced(s: Span, n: int, rest: Span) {
    && rest.Valid()
    && rest.Pos() == s.Pos() + n
    && rest.length + n == s.length
    && s.start <= rest.start && rest.End() == s.End()
  }

  /**
   * Advancing twice is advancing by the sum, and the two values read on the
   * way are the two parts of the bits read at once: successive reads see
   * consecutive, non-overlapping ranges in order.
   */
  lemma AdvanceTwice(buf: seq<byte>, s: Span, n1: nat, s1: Span, n2: nat, s2: Span)
    requires s.Valid() && s.Within(|buf|)
    requires Advanced(s, n1, s1) && Advanced(s1, n2, s2)
    ensures Advanced(s, n1 + n2, s2)
    ensures Bits(buf, s.Pos(), n1 + n2) == Bits(buf, s.Pos(), n1) * Pow2(n2) + Bits(buf, s1.Pos(), n2)
  {
    var a, b := s.Pos(), s1.Pos();
    assert a + n1 + n2 <= 8 * |buf|;
    BitsConcat(buf, a, n1, n2);
    var y := Bits(buf, a + n1, n2);
    assert y == Bits(buf, b, n2);
  }

  /** A count or size as the loops use it: a negative one acts as zero. */
  function Count(x: int): (n: nat)
    ensures x >= 0 ==> n == x
    ensures x < 0 ==> n == 0
  {
    if x < 0 then 0 else x
  }

  /**
   * How many of `count` items of `numBits` bits each a span of `length` bits
   * can supply before a Split fails: none for a negative size, every item for
   * size 0, otherwise as many whole items as fit.
   */
  function Consumable(count: nat, numBits: int, length: nat): (k: nat)
    ensures k <= count
    ensures k > 0 ==> numBits >= 0
  {
    if numBits < 0 then 0
    else if numBits == 0 then count
    else if length / numBits < count then length / numBits
    else count
  }

  /** The items consumed fit in the span, and one more would not. */
  lemma ConsumableFits(count: nat, numBits: int, length: nat)
    ensures var k := Consumable(count, numBits, length);
      && (numBits >= 0 ==> k * numBits <= length)
      && (k < count ==> numBits < 0 || k * numBits + numBits > length)
  {
    if numBits > 0 {
      var k, q := Consumable(count, numBits, length), length / numBits;
      assert q * numBits + length % numBits == length;
      MulMono(numBits, k, q);
      if k < count {
        assert k == q;
      }
    }
  }

  /** j items that fit are among those consumed. */
  lemma ConsumableAtLeast(count: nat, numBits: nat, length: nat, j: nat)
    requires j <= count && j * numBits <= length
    ensures j <= Consumable(count, numBits, length)
  {
    if numBits > 0 {
      var q := length / numBits;
      assert q * numBits + length % numBits == length;
      if j > q {
        MulMono(numBits, q + 1, j);
        assert false;
      }
    }
  }

  /** Once j items are consumed and the next one cannot be, j is the count consumed. */
  lemma ConsumableStop(count: nat, numBits: int, length: nat, j: nat)
    requires j <= Consumable(count, numBits, length)
    requires j == count || numBits < 0 || (numBits >= 0 && j * numBits + numBits > length)
    ensures Consumable(count, numBits, length) == j
  {
    var k := Consumable(count, numBits, length);
    ConsumableFits(count, numBits, length);
    if j < k && numBits >= 0 {
      MulMono(numBits, j + 1, k);
      assert false;
    }
  }

  /** The values of `count` consecutive runs of n bits from bit pos, in order. */
  ghost function Items(buf: seq<byte>, pos: nat, n: nat, count: nat): (r: seq<nat>)
    requires pos + count * n <= 8 * |buf|
    ensures |r| == count
    decreases count
  {
    if count == 0 then []
    else
      assert (count - 1) * n + n == count * n;
      Items(buf, pos, n, count - 1) + [Bits(buf, pos + (count - 1) * n, n)]
  }

  /** The items of c = m + 1 runs are those of m runs and the run at bit at = pos + m n. */
  lemma ItemsLast(buf: seq<byte>, pos: nat, n: nat, m: nat, c: nat, at: nat)
    requires c == m + 1 && at == pos + m * n && at + n <= 8 * |buf|
    ensures pos <= at && at + n == pos + c * n
    ensures Items(buf, pos, n, c) == Items(buf, pos, n, m) + [Bits(buf, at, n)]
  {
    MulPred(c, m, n);
    var x, y := Items(buf, pos, n, c - 1), pos + (c - 1) * n;
    assert x == Items(buf, pos, n, m);
    assert y == at;
  }

  /** Item k is the k-th run of n bits. */
  lemma {:induction false} ItemAt(buf: seq<byte>, pos: nat, n: nat, count: nat, k: nat)
    requires pos + count * n <= 8 * |buf| && k < count
    ensures pos + k * n + n <= 8 * |buf|
    ensures Items(buf, pos, n, count)[k] == Bits(buf, pos + k * n, n)
    decreases count
  {
    assert (count - 1) * n + n == count * n;
    if k < count - 1 {
      ItemAt(buf, pos, n, count - 1, k);
    }
  }
}
